/** /api/homework: GET turns its query string into the arguments of a homework query, and POST
    checks a new homework's required fields and builds the record to create. */
module HomeworkRoute {
  import opened Wrappers
  import opened Text

  // ---------------------------------------------------------------- GET

  /** The query parameters GET reads; each is `None` when absent from the URL. */
  datatype QueryParams = QueryParams(
    studentId: Option<string>,
    teacherId: Option<string>,
    status: Option<string>,
    subjectId: Option<string>,
    limit: Option<string>)

  /** The `status` key of the filter: one status, or `{ in: [...] }`. */
  datatype StatusFilter = StatusEquals(value: string) | StatusIn(values: seq<string>)

  /** The `where` object; a key is `None` until the handler sets it. `subjectTeacherId` is the
      nested `subject: { teacherId }` key. */
  datatype Where = Where(
    studentId: Option<string>,
    subjectTeacherId: Option<string>,
    status: Option<StatusFilter>,
    subjectId: Option<string>)

  /** What GET passes to the homework query besides its fixed `include` and its fixed order
      (newest first): the filter and, when a limit was given, `take`. */
  datatype FindArgs = FindArgs(where: Where, take: Option<JsInt>)

  /** `pieces.map(s => s.trim())`. */
  function TrimAll(pieces: seq<string>): (r: seq<string>)
    ensures |r| == |pieces|
    ensures forall i :: 0 <= i < |r| ==> r[i] == Trim(pieces[i])
  {
    seq(|pieces|, i requires 0 <= i < |pieces| => Trim(pieces[i]))
  }

  /** A text is among the trimmed pieces exactly when some piece trims to it. */
  lemma TrimAllMember(pieces: seq<string>, s: string)
    ensures s in TrimAll(pieces) <==> exists piece :: piece in pieces && Trim(piece) == s
  {
    var r := TrimAll(pieces);
    if s in r {
      var i :| 0 <= i < |r| && r[i] == s;
      assert pieces[i] in pieces;
    }
    if piece :| piece in pieces && Trim(piece) == s {
      var i :| 0 <= i < |pieces| && pieces[i] == piece;
      assert r[i] in r;
    }
  }

  /** `status.split(',').map(s => s.trim())`. */
  function StatusList(status: string): (r: seq<string>)
    ensures |r| >= 1 && (|r| > 1 <==> ',' in status)
  {
    TrimAll(Split(status, ','))
  }

  /** The status filter for a non-empty `status` parameter: a membership filter over the trimmed
      pieces when there is more than one, otherwise an equality on the parameter as given. */
  function StatusFilterOf(status: string): (f: StatusFilter)
    ensures f.StatusIn? <==> ',' in status
    ensures f.StatusEquals? ==> f.value == status
    ensures f.StatusIn? ==> |f.values| >= 2
  {
    var statusList := StatusList(status);
    if |statusList| > 1 then StatusIn(statusList) else StatusEquals(status)
  }

  /** A stored homework, reduced to the fields the filter can test. */
  datatype StoredHomework = StoredHomework(
    studentId: string,
    subjectId: string,
    subjectTeacherId: string,
    status: string)

  /** Whether a homework passes a status filter. */
  predicate StatusPasses(f: StatusFilter, status: string) {
    match f
    case StatusEquals(v) => status == v
    case StatusIn(vs) => status in vs
  }

  /** Whether a homework passes the filter: every key that is set must hold (an absent key
      does not restrict). */
  predicate Matches(w: Where, h: StoredHomework) {
    && (w.studentId.Some? ==> h.studentId == w.studentId.value)
    && (w.subjectTeacherId.Some? ==> h.subjectTeacherId == w.subjectTeacherId.value)
    && (w.status.Some? ==> StatusPasses(w.status.value, h.status))
    && (w.subjectId.Some? ==> h.subjectId == w.subjectId.value)
  }

  /** What a status parameter asks for, read off the text: with commas, any of the pieces
      between them once trimmed; without, exactly the text. */
  predicate StatusAsked(status: string, s: string) {
    if ',' in status then exists piece :: piece in Split(status, ',') && Trim(piece) == s
    else s == status
  }

  /** What the query string asks for: each parameter that is given restricts its field. */
  predicate Asked(p: QueryParams, h: StoredHomework) {
    && (Truthy(p.studentId) ==> h.studentId == p.studentId.value)
    && (Truthy(p.teacherId) ==> h.subjectTeacherId == p.teacherId.value)
    && (Truthy(p.status) ==> StatusAsked(p.status.value, h.status))
    && (Truthy(p.subjectId) ==> h.subjectId == p.subjectId.value)
  }

  /** The status filter passes exactly the statuses the parameter asks for. */
  lemma StatusFilterMeaning(status: string, s: string)
    ensures StatusPasses(StatusFilterOf(status), s) <==> StatusAsked(status, s)
  {
    if ',' in status {
      TrimAllMember(Split(status, ','), s);
    }
  }

  /** A filter whose keys are set from the given parameters passes exactly what they ask for. */
  lemma WhereMeaning(p: QueryParams, w: Where)
    requires w.studentId == (if Truthy(p.studentId) then p.studentId else None)
    requires w.subjectTeacherId == (if Truthy(p.teacherId) then p.teacherId else None)
    requires w.status == (if Truthy(p.status) then Some(StatusFilterOf(p.status.value)) else None)
    requires w.subjectId == (if Truthy(p.subjectId) then p.subjectId else None)
    ensures forall h :: Matches(w, h) <==> Asked(p, h)
  {
    forall h ensures Matches(w, h) <==> Asked(p, h) {
      if Truthy(p.status) {
        StatusFilterMeaning(p.status.value, h.status);
      }
    }
  }

  /** GET's construction of the query arguments: the filter is built key by key, as the
      handler assigns `where.studentId`, `where.subject`, `where.status` and `where.subjectId`,
      and `take` is added when a limit is given. */
  method FindArgsOf(p: QueryParams) returns (args: FindArgs)
    ensures args.where.studentId == (if Truthy(p.studentId) then p.studentId else None)
    ensures args.where.subjectTeacherId == (if Truthy(p.teacherId) then p.teacherId else None)
    ensures args.where.status == (if Truthy(p.status) then Some(StatusFilterOf(p.status.value)) else None)
    ensures args.where.subjectId == (if Truthy(p.subjectId) then p.subjectId else None)
    ensures args.take == (if Truthy(p.limit) then Some(ParseInt(p.limit.value)) else None)
    ensures forall h :: Matches(args.where, h) <==> Asked(p, h)
  {
    var where := Where(None, None, None, None);
    if Truthy(p.studentId) {
      where := where.(studentId := p.studentId);
    }
    if Truthy(p.teacherId) {
      where := where.(subjectTeacherId := p.teacherId);
    }
    if Truthy(p.status) {
      var status := p.status.value;
      var statusList := StatusList(status);
      if |statusList| > 1 {
        where := where.(status := Some(StatusIn(statusList)));
      } else {
        where := where.(status := Some(StatusEquals(status)));
      }
    }
    if Truthy(p.subjectId) {
      where := where.(subjectId := p.subjectId);
    }
    var take := if Truthy(p.limit) then Some(ParseInt(p.limit.value)) else None;
    args := FindArgs(where, take);
    WhereMeaning(p, args.where);
  }

  /** A piece before the first separator is split off whole. */
  lemma {:induction false} SplitFirst(a: string, b: string, sep: char)
    requires sep !in a
    ensures Split(a + [sep] + b, sep) == [a] + Split(b, sep)
    decreases |a|
  {
    if a == [] {
      assert a + [sep] + b == [sep] + b;
      assert ([sep] + b)[1..] == b;
    } else {
      var s := a + [sep] + b;
      assert s[1..] == a[1..] + [sep] + b;
      SplitFirst(a[1..], b, sep);
      assert [a[0]] + a[1..] == a;
    }
  }

  /** Two pieces joined by a comma split back into those two pieces. */
  lemma SplitTwo(a: string, b: string)
    requires ',' !in a && ',' !in b
    ensures Split(a + [','] + b, ',') == [a, b]
  {
    SplitFirst(a, b, ',');
    SplitSingle(b, ',');
  }

  lemma CommaBetween(a: string, b: string)
    ensures ',' in a + [','] + b
  {
    assert (a + [','] + b)[|a|] == ',';
  }

  /** A status parameter that splits into two pieces asks for the two pieces, trimmed. */
  lemma TwoPiecesAsked(status: string, a: string, b: string, s: string)
    requires ',' in status && Split(status, ',') == [a, b]
    ensures StatusAsked(status, s) <==> s == Trim(a) || s == Trim(b)
  {
    var pieces := Split(status, ',');
    assert pieces[0] == a;
    assert pieces[1] == b;
  }

  /** Two status names without commas or surrounding white space, joined by a comma, ask for
      exactly those two names. */
  lemma TwoStatusesAsked(a: string, b: string, s: string)
    requires ',' !in a && ',' !in b
    requires Trim(a) == a && Trim(b) == b
    ensures StatusAsked(a + [','] + b, s) <==> s == a || s == b
  {
    SplitTwo(a, b);
    CommaBetween(a, b);
    TwoPiecesAsked(a + [','] + b, a, b, s);
  }

  /** A request for one teacher's homework in either of two plain statuses, joined by a comma,
      selects exactly the homework of that teacher's subjects in one of the two. */
  lemma TwoStatusRequest(teacherId: string, a: string, b: string, h: StoredHomework)
    requires teacherId != ""
    requires ',' !in a && ',' !in b
    requires a != [] && !IsSpace(a[0]) && !IsSpace(a[|a| - 1])
    requires b != [] && !IsSpace(b[0]) && !IsSpace(b[|b| - 1])
    ensures Asked(QueryParams(None, Some(teacherId), Some(a + [','] + b), None, None), h)
            <==> h.subjectTeacherId == teacherId && (h.status == a || h.status == b)
  {
    TrimUnchanged(a);
    TrimUnchanged(b);
    CommaBetween(a, b);
    TwoStatusesAsked(a, b, h.status);
  }

  // ---------------------------------------------------------------- POST

  /** The JSON body of POST; a field is `None` when missing or null. */
  datatype PostBody = PostBody(
    title: Option<string>,
    description: Option<string>,
    content: Option<string>,
    dueDate: Option<string>,
    studentId: Option<string>,
    subjectId: Option<string>)

  /** The record POST asks the store to create. `dueDate` is the date text given, which the
      handler turns into a `Date`. */
  datatype NewHomework = NewHomework(
    title: string,
    description: Option<string>,
    content: string,
    dueDate: Option<string>,
    studentId: string,
    subjectId: string,
    status: string)

  /** The four fields a new homework must have. */
  predicate Complete(b: PostBody) {
    Truthy(b.title) && Truthy(b.content) && Truthy(b.studentId) && Truthy(b.subjectId)
  }

  /** The handler. `body` is `None` when the request body is not JSON; `stored` is whether the
      store accepts the new record. */
  function Post(body: Option<PostBody>, stored: bool): (r: Response<NewHomework>)
    ensures body.None? ==> r == Error(500, "Failed to create homework")
    ensures body.Some? && !Complete(body.value) <==> r == Error(400, "Missing required fields")
    ensures body.Some? && Complete(body.value) && !stored ==> r == Error(500, "Failed to create homework")
    ensures r.Ok? <==> body.Some? && Complete(body.value) && stored
    ensures r.Ok? ==>
      var b := body.value;
      && r.code == 201
      && r.body.status == "SUBMITTED"
      && Some(r.body.title) == b.title && Some(r.body.content) == b.content
      && Some(r.body.studentId) == b.studentId && Some(r.body.subjectId) == b.subjectId
      && r.body.description == b.description
      && (r.body.dueDate.Some? <==> Truthy(b.dueDate))
      && (r.body.dueDate.Some? ==> r.body.dueDate == b.dueDate)
  {
    match body
    case None => Error(500, "Failed to create homework")
    case Some(b) =>
      if !Complete(b) then Error(400, "Missing required fields")
      else if !stored then Error(500, "Failed to create homework")
      else
        Ok(201, NewHomework(
          b.title.value,
          b.description,
          b.content.value,
          if Truthy(b.dueDate) then b.dueDate else None,
          b.studentId.value,
          b.subjectId.value,
          "SUBMITTED"))
  }
}
