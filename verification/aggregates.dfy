/** The counting and averaging that both analytics routes apply to a list of homework rows:
    `rows.filter(h => h.status === S).length`, and the mean of the grades that are present,
    where a grade that `parseFloat` cannot read counts as 0. */
module Aggregates {
  import opened Wrappers
  import opened Listing

  /** The statuses a homework record can have. */
  const PENDING: string := "PENDING"
  const SUBMITTED: string := "SUBMITTED"
  const UNDER_REVIEW: string := "UNDER_REVIEW"
  const APPROVED: string := "APPROVED"
  const REJECTED: string := "REJECTED"
  const NEEDS_REVISION: string := "NEEDS_REVISION"

  /** The part of a homework record the aggregation reads: its id, status and grade. */
  datatype HomeworkRow = HomeworkRow(id: string, status: string, grade: Option<string>)

  /** The statuses of the rows, in order. */
  function Statuses(rows: seq<HomeworkRow>): (r: seq<string>)
    ensures |r| == |rows|
    ensures forall i :: 0 <= i < |rows| ==> r[i] == rows[i].status
  {
    seq(|rows|, i requires 0 <= i < |rows| => rows[i].status)
  }

  /** The number of rows whose status is exactly `status`. */
  function StatusCount(rows: seq<HomeworkRow>, status: string): (n: nat)
    ensures n <= |rows|
    ensures n == multiset(Statuses(rows))[status]
    decreases |rows|
  {
    if rows == [] then 0
    else
      var rest := StatusCount(rows[1..], status);
      assert Statuses(rows) == [rows[0].status] + Statuses(rows[1..]);
      (if rows[0].status == status then 1 else 0) + rest
  }

  /** A status other than the four the subject summary counts. */
  predicate Uncounted(status: string) {
    status != PENDING && status != SUBMITTED && status != APPROVED && status != REJECTED
  }

  /** The four per-status counts of the subject summary, added up. */
  function CountedTotal(rows: seq<HomeworkRow>): nat {
    StatusCount(rows, PENDING) + StatusCount(rows, SUBMITTED)
    + StatusCount(rows, APPROVED) + StatusCount(rows, REJECTED)
  }

  /** No row has a status outside the four. */
  predicate AllCounted(rows: seq<HomeworkRow>) {
    forall i :: 0 <= i < |rows| ==> !Uncounted(rows[i].status)
  }

  lemma CountedTotalCons(rows: seq<HomeworkRow>)
    requires rows != []
    ensures CountedTotal(rows) == (if Uncounted(rows[0].status) then 0 else 1) + CountedTotal(rows[1..])
  {
  }

  lemma AllCountedCons(rows: seq<HomeworkRow>)
    requires rows != []
    ensures AllCounted(rows) <==> !Uncounted(rows[0].status) && AllCounted(rows[1..])
  {
    if !Uncounted(rows[0].status) && AllCounted(rows[1..]) {
      forall i | 0 <= i < |rows| ensures !Uncounted(rows[i].status) {
        if i > 0 {
          assert rows[i] == rows[1..][i - 1];
        }
      }
    }
    if AllCounted(rows) {
      forall i | 0 <= i < |rows[1..]| ensures !Uncounted(rows[1..][i].status) {
        assert rows[1..][i] == rows[i + 1];
      }
    }
  }

  /** The four per-status counts of the subject summary never exceed the number of rows, and
      they add up to it exactly when no row has another status (UNDER_REVIEW, NEEDS_REVISION). */
  lemma {:induction false} FourCountsBound(rows: seq<HomeworkRow>)
    ensures StatusCount(rows, PENDING) + StatusCount(rows, SUBMITTED)
            + StatusCount(rows, APPROVED) + StatusCount(rows, REJECTED) <= |rows|
    ensures StatusCount(rows, PENDING) + StatusCount(rows, SUBMITTED)
            + StatusCount(rows, APPROVED) + StatusCount(rows, REJECTED) == |rows|
            <==> forall i :: 0 <= i < |rows| ==> !Uncounted(rows[i].status)
    decreases |rows|
  {
    if rows != [] {
      FourCountsBound(rows[1..]);
      CountedTotalCons(rows);
      AllCountedCons(rows);
    }
    assert CountedTotal(rows) <= |rows| && (CountedTotal(rows) == |rows| <==> AllCounted(rows));
  }

  // ---------------------------------------------------------------- grades

  /** `parseFloat(g) || 0`: the number `parse` reads from the grade, or 0 when it reads
      none (NaN is falsy). */
  function GradeValue(g: string, parse: string -> Option<real>): (v: real)
    ensures parse(g).Some? ==> v == parse(g).value
    ensures v == 0.0 <==> parse(g).None? || parse(g).value == 0.0
  {
    match parse(g)
    case Some(v) => v
    case None => 0.0
  }

  /** A row whose grade is present (neither null nor undefined). */
  predicate HasGrade(h: HomeworkRow) {
    h.grade.Some?
  }

  /** `filter(h => h.grade !== null && h.grade !== undefined)`: the rows whose grade is present,
      in order, each as often as it occurs. */
  function Graded(rows: seq<HomeworkRow>): (r: seq<HomeworkRow>)
    ensures |r| <= |rows|
    ensures forall i :: 0 <= i < |r| ==> r[i].grade.Some?
    ensures forall x :: x in r <==> x in rows && x.grade.Some?
    ensures forall x :: multiset(r)[x] == if x.grade.Some? then multiset(rows)[x] else 0
    ensures |r| == 0 <==> forall i :: 0 <= i < |rows| ==> rows[i].grade.None?
  {
    var r := Filter(rows, HasGrade);
    FilterCount(rows, HasGrade);
    assert forall i :: 0 <= i < |r| ==> r[i] in r;
    assert forall i :: 0 <= i < |rows| ==> rows[i] in rows;
    r
  }

  /** The sum the `reduce` builds over graded rows: each contributes `GradeValue`. */
  function GradeTotal(graded: seq<HomeworkRow>, parse: string -> Option<real>): real
    requires forall i :: 0 <= i < |graded| ==> graded[i].grade.Some?
    decreases |graded|
  {
    if graded == [] then 0.0
    else GradeValue(graded[0].grade.value, parse) + GradeTotal(graded[1..], parse)
  }

  /** The average grade: the sum of the graded rows' values over their number, or `None`
      (JSON null) when no row has a grade. */
  function AverageGrade(rows: seq<HomeworkRow>, parse: string -> Option<real>): (avg: Option<real>)
    ensures avg.None? <==> forall i :: 0 <= i < |rows| ==> rows[i].grade.None?
  {
    var graded := Graded(rows);
    if |graded| > 0 then Some(GradeTotal(graded, parse) / (|graded| as real)) else None
  }

  /** Every value a graded row contributes lies in `[lo, hi]`. */
  predicate GradesWithin(rows: seq<HomeworkRow>, parse: string -> Option<real>, lo: real, hi: real) {
    forall i :: 0 <= i < |rows| && rows[i].grade.Some? ==>
      lo <= GradeValue(rows[i].grade.value, parse) <= hi
  }

  /** A sum of `n` values each in `[lo, hi]` lies in `[n * lo, n * hi]`. */
  lemma {:induction false} GradeTotalWithin(graded: seq<HomeworkRow>, parse: string -> Option<real>, lo: real, hi: real)
    requires forall i :: 0 <= i < |graded| ==> graded[i].grade.Some?
    requires GradesWithin(graded, parse, lo, hi)
    ensures (|graded| as real) * lo <= GradeTotal(graded, parse) <= (|graded| as real) * hi
    decreases |graded|
  {
    if graded != [] {
      var rest := graded[1..];
      GradesWithinTail(graded, parse, lo, hi);
      GradeTotalWithin(rest, parse, lo, hi);
      SumWithin(GradeValue(graded[0].grade.value, parse), GradeTotal(rest, parse), |rest| as real, lo, hi);
    }
  }

  /** One more value in `[lo, hi]` moves the bounds of a sum of `n` such values by one step. */
  lemma SumWithin(x: real, total: real, n: real, lo: real, hi: real)
    requires lo <= x <= hi && n * lo <= total <= n * hi
    ensures (n + 1.0) * lo <= x + total <= (n + 1.0) * hi
  {
    assert (n + 1.0) * lo == n * lo + lo && (n + 1.0) * hi == n * hi + hi;
  }

  lemma GradesWithinTail(graded: seq<HomeworkRow>, parse: string -> Option<real>, lo: real, hi: real)
    requires graded != [] && GradesWithin(graded, parse, lo, hi)
    ensures GradesWithin(graded[1..], parse, lo, hi)
    ensures graded[0].grade.Some? ==> lo <= GradeValue(graded[0].grade.value, parse) <= hi
  {
    forall i | 0 <= i < |graded[1..]| && graded[1..][i].grade.Some?
      ensures lo <= GradeValue(graded[1..][i].grade.value, parse) <= hi
    {
      assert graded[1..][i] == graded[i + 1];
    }
  }

  /** A mean lies between the bounds of what it averages. */
  lemma MeanWithin(total: real, n: real, lo: real, hi: real)
    requires n > 0.0 && n * lo <= total <= n * hi
    ensures lo <= total / n <= hi
  {
    var q := total / n;
    assert q * n == total;
    assert (q - lo) * n == total - n * lo;
    assert (hi - q) * n == n * hi - total;
    NonNegativeFactor(q - lo, n);
    NonNegativeFactor(hi - q, n);
  }

  lemma NonNegativeFactor(x: real, n: real)
    requires n > 0.0 && x * n >= 0.0
    ensures x >= 0.0
  {
  }

  /** Keeping only the graded rows keeps the bound on their values. */
  lemma GradedWithin(rows: seq<HomeworkRow>, parse: string -> Option<real>, lo: real, hi: real)
    requires GradesWithin(rows, parse, lo, hi)
    ensures GradesWithin(Graded(rows), parse, lo, hi)
  {
    var graded := Graded(rows);
    forall i | 0 <= i < |graded| && graded[i].grade.Some?
      ensures lo <= GradeValue(graded[i].grade.value, parse) <= hi
    {
      assert graded[i] in rows;
      var j :| 0 <= j < |rows| && rows[j] == graded[i];
    }
  }

  /** The mean of graded rows whose values lie in `[lo, hi]` lies in `[lo, hi]`. */
  lemma MeanOfGradedWithin(graded: seq<HomeworkRow>, parse: string -> Option<real>, lo: real, hi: real)
    requires |graded| > 0
    requires forall i :: 0 <= i < |graded| ==> graded[i].grade.Some?
    requires GradesWithin(graded, parse, lo, hi)
    ensures lo <= GradeTotal(graded, parse) / (|graded| as real) <= hi
  {
    GradeTotalWithin(graded, parse, lo, hi);
    MeanWithin(GradeTotal(graded, parse), |graded| as real, lo, hi);
  }

  /** When every grade present contributes a value in `[lo, hi]`, the average does too. */
  lemma AverageWithin(rows: seq<HomeworkRow>, parse: string -> Option<real>, lo: real, hi: real)
    requires GradesWithin(rows, parse, lo, hi)
    ensures AverageGrade(rows, parse).Some? ==> lo <= AverageGrade(rows, parse).value <= hi
  {
    var graded := Graded(rows);
    if |graded| > 0 {
      GradedWithin(rows, parse, lo, hi);
      MeanOfGradedWithin(graded, parse, lo, hi);
    }
  }

  /** A sum over grades none of which parses is 0. */
  lemma {:induction false} GradeTotalUnparsable(graded: seq<HomeworkRow>, parse: string -> Option<real>)
    requires forall i :: 0 <= i < |graded| ==> graded[i].grade.Some? && parse(graded[i].grade.value).None?
    ensures GradeTotal(graded, parse) == 0.0
    decreases |graded|
  {
    if graded != [] {
      GradeTotalUnparsable(graded[1..], parse);
    }
  }

  /** The `reduce` adds one more row's value at the end. */
  lemma {:induction false} GradeTotalSnoc(graded: seq<HomeworkRow>, u: HomeworkRow, parse: string -> Option<real>)
    requires forall i :: 0 <= i < |graded| ==> graded[i].grade.Some?
    requires u.grade.Some?
    ensures GradeTotal(graded + [u], parse) == GradeTotal(graded, parse) + GradeValue(u.grade.value, parse)
    decreases |graded|
  {
    if graded == [] {
      assert [] + [u] == [u] && [u][1..] == [];
    } else {
      assert (graded + [u])[1..] == graded[1..] + [u];
      GradeTotalSnoc(graded[1..], u, parse);
    }
  }

  /** An unparsable grade among any others still counts: the row joins the graded rows, so the
      average's denominator grows by one, while the sum stays the same. */
  lemma AddUnparsable(rows: seq<HomeworkRow>, u: HomeworkRow, parse: string -> Option<real>)
    requires u.grade.Some? && parse(u.grade.value).None?
    ensures Graded(rows + [u]) == Graded(rows) + [u]
    ensures |Graded(rows + [u])| == |Graded(rows)| + 1
    ensures GradeTotal(Graded(rows + [u]), parse) == GradeTotal(Graded(rows), parse)
  {
    FilterAppend(rows, [u], HasGrade);
    FilterFront([u], HasGrade);
    assert [u][1..] == [];
    GradeTotalSnoc(Graded(rows), u, parse);
  }

  /** Grades "90" and "abc" average to 45: the unparsable grade adds 0 but is counted. */
  lemma MixedGradesExample(parse: string -> Option<real>)
    requires parse("90") == Some(90.0) && parse("abc") == None
    ensures AverageGrade([HomeworkRow("h1", APPROVED, Some("90")), HomeworkRow("h2", REJECTED, Some("abc"))], parse)
            == Some(45.0)
  {
    var first := [HomeworkRow("h1", APPROVED, Some("90"))];
    var u := HomeworkRow("h2", REJECTED, Some("abc"));
    FilterFront(first, HasGrade);
    assert first[1..] == [];
    assert Graded(first) == first;
    assert GradeTotal(first, parse) == 90.0 by {
      assert GradeValue("90", parse) == 90.0;
    }
    AddUnparsable(first, u, parse);
    assert first + [u] == [HomeworkRow("h1", APPROVED, Some("90")), u];
  }

  /** A grade that is present but unparsable still counts in the denominator: when some grade
      is present and none parses, the average is 0, not null. */
  lemma AverageOfUnparsable(rows: seq<HomeworkRow>, parse: string -> Option<real>)
    requires exists i :: 0 <= i < |rows| && rows[i].grade.Some?
    requires forall i :: 0 <= i < |rows| && rows[i].grade.Some? ==> parse(rows[i].grade.value).None?
    ensures AverageGrade(rows, parse) == Some(0.0)
  {
    var graded := Graded(rows);
    forall i | 0 <= i < |graded|
      ensures graded[i].grade.Some? && parse(graded[i].grade.value).None?
    {
      assert graded[i] in rows;
    }
    GradeTotalUnparsable(graded, parse);
    var j :| 0 <= j < |rows| && rows[j].grade.Some?;
    assert rows[j] in graded;
    assert 0.0 / (|graded| as real) == 0.0;
  }

}
