/** GET /api/analytics/subjects: for every subject, its homework counted by status and the
    average of its grades. */
module SubjectAnalytics {
  import opened Wrappers
  import opened Aggregates
  import opened Listing

  /** The teacher who owns a subject, as the query selects it. */
  datatype Teacher = Teacher(id: string, name: string, email: string)

  /** A subject as the query returns it: its own fields, its teacher and its homework rows. */
  datatype Subject = Subject(
    id: string,
    name: string,
    description: Option<string>,
    teacher: Teacher,
    homeworks: seq<HomeworkRow>)

  /** One element of the route's JSON array. */
  datatype SubjectStats = SubjectStats(
    subjectId: string,
    subjectName: string,
    subjectDescription: Option<string>,
    teacherId: string,
    teacherName: string,
    teacherEmail: string,
    totalHomeworks: nat,
    pendingHomeworks: nat,
    submittedHomeworks: nat,
    approvedHomeworks: nat,
    rejectedHomeworks: nat,
    averageGrade: Option<real>)

  /** The statistics of one subject. */
  function StatsOf(s: Subject, parse: string -> Option<real>): (r: SubjectStats)
    ensures r.subjectId == s.id && r.subjectName == s.name && r.subjectDescription == s.description
    ensures r.teacherId == s.teacher.id && r.teacherName == s.teacher.name && r.teacherEmail == s.teacher.email
    ensures r.totalHomeworks == |s.homeworks|
    ensures r.pendingHomeworks == multiset(Statuses(s.homeworks))[PENDING]
    ensures r.submittedHomeworks == multiset(Statuses(s.homeworks))[SUBMITTED]
    ensures r.approvedHomeworks == multiset(Statuses(s.homeworks))[APPROVED]
    ensures r.rejectedHomeworks == multiset(Statuses(s.homeworks))[REJECTED]
    ensures r.pendingHomeworks + r.submittedHomeworks + r.approvedHomeworks + r.rejectedHomeworks
            <= r.totalHomeworks
    ensures r.pendingHomeworks + r.submittedHomeworks + r.approvedHomeworks + r.rejectedHomeworks
            == r.totalHomeworks
            <==> forall i :: 0 <= i < |s.homeworks| ==> !Uncounted(s.homeworks[i].status)
    ensures r.averageGrade.None? <==> forall i :: 0 <= i < |s.homeworks| ==> s.homeworks[i].grade.None?
  {
    var hs := s.homeworks;
    FourCountsBound(hs);
    SubjectStats(
      s.id, s.name, s.description,
      s.teacher.id, s.teacher.name, s.teacher.email,
      |hs|,
      StatusCount(hs, PENDING),
      StatusCount(hs, SUBMITTED),
      StatusCount(hs, APPROVED),
      StatusCount(hs, REJECTED),
      AverageGrade(hs, parse))
  }

  /** When every grade present in a subject contributes a value in `[lo, hi]`, so does the
      subject's average. */
  lemma AverageGradeWithin(s: Subject, parse: string -> Option<real>, lo: real, hi: real)
    requires GradesWithin(s.homeworks, parse, lo, hi)
    ensures StatsOf(s, parse).averageGrade.Some? ==> lo <= StatsOf(s, parse).averageGrade.value <= hi
  {
    AverageWithin(s.homeworks, parse, lo, hi);
  }

  /** The handler. `hasSession` is whether the request carries a session; `query` is what the
      subject query returned, `None` when it threw. */
  function Get(hasSession: bool, query: Option<seq<Subject>>, parse: string -> Option<real>)
    : (r: Response<seq<SubjectStats>>)
    ensures !hasSession <==> r == Error(401, "Unauthorized")
    ensures hasSession && query.None? ==> r == Error(500, "Failed to fetch subject statistics")
    ensures hasSession && query.Some? ==>
      && r.Ok? && r.code == 200
      && |r.body| == |query.value|
      && forall i :: 0 <= i < |r.body| ==> r.body[i] == StatsOf(query.value[i], parse)
  {
    if !hasSession then Error(401, "Unauthorized")
    else match query
      case None => Error(500, "Failed to fetch subject statistics")
      case Some(subjects) =>
        Ok(200, seq(|subjects|, i requires 0 <= i < |subjects| => StatsOf(subjects[i], parse)))
  }

  /** A subject with one approved homework graded "90", one rejected graded "40" and one
      pending without a grade: three homeworks, one of each of those statuses, average 65. */
  lemma ThreeHomeworkExample(parse: string -> Option<real>, t: Teacher)
    requires parse("90") == Some(90.0) && parse("40") == Some(40.0)
    ensures var s := Subject("s1", "Math", None, t, [
                      HomeworkRow("h1", APPROVED, Some("90")),
                      HomeworkRow("h2", REJECTED, Some("40")),
                      HomeworkRow("h3", PENDING, None)]);
            var st := StatsOf(s, parse);
            && st.totalHomeworks == 3
            && st.approvedHomeworks == 1 && st.rejectedHomeworks == 1 && st.pendingHomeworks == 1
            && st.submittedHomeworks == 0
            && st.averageGrade == Some(65.0)
  {
    var rows := [HomeworkRow("h1", APPROVED, Some("90")),
                 HomeworkRow("h2", REJECTED, Some("40")),
                 HomeworkRow("h3", PENDING, None)];
    GradedFirstTwo(rows);
    GradeTotalOfTwo(rows[..2], parse);
    assert GradeValue("90", parse) == 90.0 && GradeValue("40", parse) == 40.0;
    assert rows[1..] == [rows[1], rows[2]];
    assert rows[2..] == [rows[2]];
    assert Statuses(rows) == [APPROVED, REJECTED, PENDING];
  }

  /** Of three rows of which only the first two are graded, the graded rows are those two. */
  lemma GradedFirstTwo(rows: seq<HomeworkRow>)
    requires |rows| == 3 && rows[0].grade.Some? && rows[1].grade.Some? && rows[2].grade.None?
    ensures Graded(rows) == rows[..2]
  {
    FilterFront(rows[2..], HasGrade);
    assert rows[2..][1..] == [];
    FilterFront(rows[1..], HasGrade);
    assert rows[1..][1..] == rows[2..];
    FilterFront(rows, HasGrade);
  }

  /** The sum over two graded rows is the sum of their values. */
  lemma GradeTotalOfTwo(graded: seq<HomeworkRow>, parse: string -> Option<real>)
    requires |graded| == 2 && graded[0].grade.Some? && graded[1].grade.Some?
    ensures GradeTotal(graded, parse)
            == GradeValue(graded[0].grade.value, parse) + GradeValue(graded[1].grade.value, parse)
  {
    var rest := graded[1..];
    assert rest[0] == graded[1] && rest[1..] == [];
    assert GradeTotal(rest[1..], parse) == 0.0;
    assert GradeTotal(rest, parse) == GradeValue(graded[1].grade.value, parse);
  }

}
