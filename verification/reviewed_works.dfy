/** The teacher's reviewed-works page: it asks the homework route for the approved and rejected
    homework of the teacher's subjects, keeps what has been reviewed, and shows it filtered by a
    search term and sorted by a chosen column. */
module ReviewedWorks {
  import opened Wrappers
  import opened Text
  import opened Aggregates
  import opened Listing
  import HomeworkRoute

  /** A homework as the page receives it. Times are milliseconds since the epoch. */
  datatype Homework = Homework(
    id: string,
    title: string,
    studentName: string,
    studentEmail: string,
    subjectName: string,
    status: string,
    grade: Option<string>,
    feedback: Option<string>,
    createdAt: int,
    updatedAt: int)

  /** The columns the list can be sorted by. */
  datatype SortField = Subject | Title | Student | CreatedAt | UpdatedAt | Status

  /** The sort field `clearFilters` and the first render select. */
  const DefaultField: SortField := UpdatedAt

  // ---------------------------------------------------------------- the request

  /** The status list the page puts in its request: `APPROVED,REJECTED`. */
  const ReviewedStatuses: string := APPROVED + "," + REJECTED

  /** The page's request `teacherId=T&status=APPROVED,REJECTED` selects the approved and
      rejected homework of the subjects that teacher teaches. */
  lemma ReviewedWorksRequest(teacherId: string, h: HomeworkRoute.StoredHomework)
    requires teacherId != ""
    ensures HomeworkRoute.Asked(
              HomeworkRoute.QueryParams(None, Some(teacherId), Some(ReviewedStatuses), None, None), h)
            <==> h.subjectTeacherId == teacherId && (h.status == APPROVED || h.status == REJECTED)
  {
    HomeworkRoute.TwoStatusRequest(teacherId, APPROVED, REJECTED, h);
  }

  // ---------------------------------------------------------------- the response filter

  /** A homework counts as reviewed when it was approved or rejected, or has a grade or
      feedback. */
  predicate IsReviewed(h: Homework) {
    h.status == APPROVED || h.status == REJECTED || Truthy(h.grade) || Truthy(h.feedback)
  }

  /** The list the page keeps from the response. */
  function Reviewed(data: seq<Homework>): (r: seq<Homework>)
    ensures forall h :: h in r <==>
      (h in data && (h.status == APPROVED || h.status == REJECTED || Truthy(h.grade) || Truthy(h.feedback)))
    ensures forall h :: multiset(r)[h] == if IsReviewed(h) then multiset(data)[h] else 0
  {
    FilterCount(data, IsReviewed);
    Filter(data, IsReviewed)
  }

  // ---------------------------------------------------------------- search

  /** The search test: the lower-cased subject name or student name includes the lower-cased
      term. */
  predicate MatchesSearch(term: string, h: Homework) {
    Contains(Lower(h.subjectName), Lower(term)) || Contains(Lower(h.studentName), Lower(term))
  }

  function SearchTest(term: string): Homework -> bool {
    h => MatchesSearch(term, h)
  }

  /** The search step: everything when the term is empty, otherwise the homework whose subject
      or student name includes the term, ignoring case. */
  function Search(hs: seq<Homework>, term: string): (r: seq<Homework>)
    ensures term == "" ==> r == hs
    ensures forall h :: h in r <==> (h in hs &&
      (term == "" || Contains(Lower(h.subjectName), Lower(term)) || Contains(Lower(h.studentName), Lower(term))))
    ensures forall h :: multiset(r)[h] == if term == "" || MatchesSearch(term, h) then multiset(hs)[h] else 0
  {
    if term != "" then
      FilterCount(hs, SearchTest(term));
      Filter(hs, SearchTest(term))
    else hs
  }

  /** The search keeps the homework in the order the response listed them: searching a
      concatenation searches each part and concatenates the results. */
  lemma SearchAppend(a: seq<Homework>, b: seq<Homework>, term: string)
    ensures Search(a + b, term) == Search(a, term) + Search(b, term)
  {
    if term != "" {
      FilterAppend(a, b, SearchTest(term));
    }
  }

  /** The empty-term branch is a shortcut: every name includes the empty string, so the search
      test would keep everything anyway. */
  lemma EmptyTermKeepsAll(hs: seq<Homework>)
    ensures Filter(hs, SearchTest("")) == hs
  {
    forall h | h in hs ensures SearchTest("")(h) {
      assert Contains(Lower(h.subjectName), "");
    }
    FilterAll(hs, SearchTest(""));
  }

  /** The search ignores the case of the term. */
  lemma SearchIgnoresCase(hs: seq<Homework>, term: string)
    ensures Search(hs, Lower(term)) == Search(hs, term)
  {
    LowerIdempotent(term);
    if term != "" {
      FilterSame(hs, SearchTest(Lower(term)), SearchTest(term));
    }
  }

  // ---------------------------------------------------------------- sort

  /** The value the comparator reads for a column: the lower-cased text, or the time. */
  function KeyOf(f: SortField, h: Homework): (k: Key)
    ensures k.Time? <==> f == CreatedAt || f == UpdatedAt
    ensures k.Str? ==> Lower(k.s) == k.s
  {
    match f
    case Subject => Str(Lower(h.subjectName))
    case Title => Str(Lower(h.title))
    case Student => Str(Lower(h.studentName))
    case CreatedAt => Time(h.createdAt)
    case UpdatedAt => Time(h.updatedAt)
    case Status => Str(Lower(h.status))
  }

  function KeyFn(f: SortField): Homework -> Key {
    h => KeyOf(f, h)
  }

  /** All keys of one column are of one kind (times for the two date columns, texts for the
      rest), and in every text column two values that differ only in letter case sort level. */
  lemma KeyOfProperties(f: SortField, a: Homework, b: Homework)
    ensures KeyOf(f, a).Time? == KeyOf(f, b).Time? == (f == CreatedAt || f == UpdatedAt)
    ensures || (f == Subject && Lower(a.subjectName) == Lower(b.subjectName))
            || (f == Title && Lower(a.title) == Lower(b.title))
            || (f == Student && Lower(a.studentName) == Lower(b.studentName))
            || (f == Status && Lower(a.status) == Lower(b.status))
            ==> Compare(KeyOf(f, a), KeyOf(f, b), Asc) == 0
  {
    CompareProperties(KeyOf(f, a), KeyOf(f, b), Asc);
  }

  /** `filteredAndSortedHomeworks`: the search result, sorted by the chosen column in the
      chosen direction. */
  function FilteredAndSorted(hs: seq<Homework>, c: Controls<SortField>): (r: seq<Homework>)
    ensures multiset(r) == multiset(Search(hs, c.searchTerm))
    ensures forall h :: h in r <==> h in Search(hs, c.searchTerm)
  {
    var r := Sort(Search(hs, c.searchTerm), KeyFn(c.sortField), c.sortOrder);
    SameMembers(r, Search(hs, c.searchTerm));
    r
  }

  /** Ascending, each shown homework's key is at most the next one's; descending, at least. */
  lemma FilteredAndSortedOrdered(hs: seq<Homework>, c: Controls<SortField>)
    ensures var r := FilteredAndSorted(hs, c);
      forall i :: 0 <= i < |r| - 1 ==>
        && (c.sortOrder == Asc ==> !Less(KeyOf(c.sortField, r[i + 1]), KeyOf(c.sortField, r[i])))
        && (c.sortOrder == Desc ==> !Less(KeyOf(c.sortField, r[i]), KeyOf(c.sortField, r[i + 1])))
  {
    var r := FilteredAndSorted(hs, c);
    SortSorted(Search(hs, c.searchTerm), KeyFn(c.sortField), c.sortOrder);
    forall i | 0 <= i < |r| - 1
      ensures c.sortOrder == Asc ==> !Less(KeyOf(c.sortField, r[i + 1]), KeyOf(c.sortField, r[i]))
      ensures c.sortOrder == Desc ==> !Less(KeyOf(c.sortField, r[i]), KeyOf(c.sortField, r[i + 1]))
    {
      assert Cmp(KeyFn(c.sortField), c.sortOrder, r[i], r[i + 1]) <= 0;
      CompareDirection(KeyOf(c.sortField, r[i]), KeyOf(c.sortField, r[i + 1]));
    }
  }

  /** Homework with the same key keep the order they had in the search result. */
  lemma FilteredAndSortedStable(hs: seq<Homework>, c: Controls<SortField>, k: Key)
    ensures WithKey(FilteredAndSorted(hs, c), KeyFn(c.sortField), k)
            == WithKey(Search(hs, c.searchTerm), KeyFn(c.sortField), k)
  {
    SortStable(Search(hs, c.searchTerm), KeyFn(c.sortField), c.sortOrder, k);
  }

  // ---------------------------------------------------------------- page state

  /** The page's state: the homework kept from the last response and the list controls. */
  class Page {
    var homeworks: seq<Homework>
    var searchTerm: string
    var sortField: SortField
    var sortOrder: Order

    function State(): Controls<SortField>
      reads this
    {
      Controls(searchTerm, sortField, sortOrder)
    }

    /** The list as shown. Reading it changes no state: the sort works on a copy. */
    function Visible(): seq<Homework>
      reads this
    {
      FilteredAndSorted(homeworks, State())
    }

    /** The first render: nothing loaded, empty term, newest update first. */
    constructor()
      ensures homeworks == [] && State() == Cleared(DefaultField)
    {
      homeworks := [];
      searchTerm := "";
      sortField := DefaultField;
      sortOrder := Desc;
    }

    /** A successful response: the reviewed homework of `data` replaces the list. */
    method Receive(data: seq<Homework>)
      modifies this
      ensures homeworks == Reviewed(data) && State() == old(State())
    {
      homeworks := Reviewed(data);
    }

    /** Typing in the search box. */
    method SetSearchTerm(term: string)
      modifies this
      ensures State() == old(State()).(searchTerm := term) && homeworks == old(homeworks)
    {
      searchTerm := term;
    }

    /** Choosing a column in the sort-field selector. */
    method SetSortField(f: SortField)
      modifies this
      ensures State() == old(State()).(sortField := f) && homeworks == old(homeworks)
    {
      sortField := f;
    }

    /** Choosing a direction in the sort-order selector. */
    method SetSortOrder(o: Order)
      modifies this
      ensures State() == old(State()).(sortOrder := o) && homeworks == old(homeworks)
    {
      sortOrder := o;
    }

    /** `handleSort(field)`, a click on a column header. */
    method HandleSort(field: SortField)
      modifies this
      ensures State() == Click(old(State()), field) && homeworks == old(homeworks)
      ensures multiset(Visible()) == multiset(old(Visible()))
    {
      if sortField == field {
        sortOrder := if sortOrder == Asc then Desc else Asc;
      } else {
        sortField := field;
        sortOrder := Desc;
      }
    }

    /** `clearFilters()`. */
    method ClearFilters()
      modifies this
      ensures State() == Cleared(DefaultField) && homeworks == old(homeworks)
    {
      searchTerm := "";
      sortField := DefaultField;
      sortOrder := Desc;
    }
  }
}
