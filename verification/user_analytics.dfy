/** GET /api/analytics/users: for every user, their submitted homework counted by status,
    their average grade, a role-dependent homework total and subject count, and a success rate. */
module UserAnalytics {
  import opened Wrappers
  import opened Aggregates

  /** The account roles. */
  datatype Role = STUDENT | TEACHER | ADMIN

  /** A homework the user submitted, with the subject it belongs to. */
  datatype Submission = Submission(
    id: string,
    status: string,
    grade: Option<string>,
    subjectId: string,
    subjectName: string)

  /** A subject the user teaches, with the ids of its homework. */
  datatype TaughtSubject = TaughtSubject(id: string, name: string, homeworkIds: seq<string>)

  /** A user as the query returns them. */
  datatype User = User(
    id: string,
    name: string,
    email: string,
    role: Role,
    createdAt: int,
    submittedHomeworks: seq<Submission>,
    subjects: seq<TaughtSubject>)

  /** One element of the route's JSON array. */
  datatype UserStats = UserStats(
    userId: string,
    userName: string,
    userEmail: string,
    userRole: Role,
    totalHomeworks: nat,
    approvedHomeworks: nat,
    rejectedHomeworks: nat,
    pendingHomeworks: nat,
    underReviewHomeworks: nat,
    averageGrade: Option<real>,
    subjectsCount: nat,
    successRate: real,
    memberSince: int)

  /** The submissions seen as the rows the aggregation reads. */
  function Rows(subs: seq<Submission>): (rows: seq<HomeworkRow>)
    ensures |rows| == |subs|
    ensures forall i :: 0 <= i < |subs| ==>
      rows[i].status == subs[i].status && rows[i].grade == subs[i].grade
  {
    seq(|subs|, i requires 0 <= i < |subs| => HomeworkRow(subs[i].id, subs[i].status, subs[i].grade))
  }

  // ---------------------------------------------------------------- distinct subjects

  /** `new Set(homeworks.map(h => h.subject.id))`: the subjects the user submitted to. */
  function SubjectIds(subs: seq<Submission>): set<string> {
    set i | 0 <= i < |subs| :: subs[i].subjectId
  }

  /** No two submissions belong to the same subject. */
  predicate OnePerSubject(subs: seq<Submission>) {
    forall i, j :: 0 <= i < j < |subs| ==> subs[i].subjectId != subs[j].subjectId
  }

  lemma SubjectIdsCons(subs: seq<Submission>)
    requires |subs| > 0
    ensures SubjectIds(subs) == {subs[0].subjectId} + SubjectIds(subs[1..])
  {
    var tail := subs[1..];
    forall x | x in SubjectIds(subs) ensures x in {subs[0].subjectId} + SubjectIds(tail) {
      var i :| 0 <= i < |subs| && subs[i].subjectId == x;
      if i > 0 {
        assert tail[i - 1] == subs[i];
      }
    }
    forall x | x in SubjectIds(tail) ensures x in SubjectIds(subs) {
      var i :| 0 <= i < |tail| && tail[i].subjectId == x;
      assert subs[i + 1] == tail[i];
    }
  }

  /** Each submission is to a different subject exactly when the first one's subject recurs
      nowhere after it and the rest are each to a different subject. */
  lemma OnePerSubjectCons(subs: seq<Submission>)
    requires |subs| > 0
    ensures OnePerSubject(subs) <==> subs[0].subjectId !in SubjectIds(subs[1..]) && OnePerSubject(subs[1..])
  {
    var tail := subs[1..];
    if OnePerSubject(subs) {
      forall i, j | 0 <= i < j < |tail| ensures tail[i].subjectId != tail[j].subjectId {
        assert tail[i] == subs[i + 1] && tail[j] == subs[j + 1];
      }
    }
    if subs[0].subjectId !in SubjectIds(tail) && OnePerSubject(tail) {
      forall i, j | 0 <= i < j < |subs| ensures subs[i].subjectId != subs[j].subjectId {
        assert subs[j] == tail[j - 1];
        if i > 0 {
          assert subs[i] == tail[i - 1];
        }
      }
    }
  }

  /** There are never more distinct subjects than submissions, none exactly when there are no
      submissions, and as many exactly when each submission is to a different subject. */
  lemma {:induction false} SubjectIdsCount(subs: seq<Submission>)
    ensures |SubjectIds(subs)| <= |subs|
    ensures |SubjectIds(subs)| == 0 <==> subs == []
    ensures |SubjectIds(subs)| == |subs| <==> OnePerSubject(subs)
    decreases |subs|
  {
    if subs == [] {
      assert SubjectIds(subs) == {};
    } else {
      var tail := subs[1..];
      SubjectIdsCons(subs);
      SubjectIdsCount(tail);
      OnePerSubjectCons(subs);
      var x := subs[0].subjectId;
      assert x in SubjectIds(subs);
    }
  }

  // ---------------------------------------------------------------- homework in taught subjects

  /** `subjects.reduce((sum, subject) => sum + subject.homeworks.length, 0)`, folded from the
      left as `reduce` does. */
  function HomeworksInSubjects(subjects: seq<TaughtSubject>): (total: nat)
    ensures forall i :: 0 <= i < |subjects| ==> |subjects[i].homeworkIds| <= total
    ensures total == 0 <==> forall i :: 0 <= i < |subjects| ==> subjects[i].homeworkIds == []
    decreases |subjects|
  {
    if subjects == [] then 0
    else HomeworksInSubjects(subjects[..|subjects| - 1]) + |subjects[|subjects| - 1].homeworkIds|
  }

  /** The homework total of two lists of subjects is the sum of their totals. */
  lemma {:induction false} HomeworksInSubjectsAppend(a: seq<TaughtSubject>, b: seq<TaughtSubject>)
    ensures HomeworksInSubjects(a + b) == HomeworksInSubjects(a) + HomeworksInSubjects(b)
    decreases |b|
  {
    if b == [] {
      assert a + b == a;
    } else {
      var b' := b[..|b| - 1];
      assert (a + b)[..|a + b| - 1] == a + b';
      HomeworksInSubjectsAppend(a, b');
    }
  }

  /** The total counts every homework id of every taught subject. */
  lemma {:induction false} HomeworksInSubjectsFront(subjects: seq<TaughtSubject>)
    requires |subjects| > 0
    ensures HomeworksInSubjects(subjects) == |subjects[0].homeworkIds| + HomeworksInSubjects(subjects[1..])
  {
    assert subjects == [subjects[0]] + subjects[1..];
    HomeworksInSubjectsAppend([subjects[0]], subjects[1..]);
    assert [subjects[0]][..0] == [];
  }

  // ---------------------------------------------------------------- success rate

  /** `submitted > 0 ? (approved / submitted) * 100 : 0`: the share of approved submissions as
      a percentage, 0 when nothing was submitted. */
  function SuccessRate(approved: nat, submitted: nat): (rate: real)
    ensures submitted == 0 ==> rate == 0.0
    ensures submitted > 0 ==> rate * (submitted as real) == (approved as real) * 100.0
    ensures approved <= submitted ==> 0.0 <= rate <= 100.0
    ensures submitted > 0 && approved == submitted ==> rate == 100.0
  {
    if submitted > 0 then ((approved as real) / (submitted as real)) * 100.0 else 0.0
  }

  // ---------------------------------------------------------------- per user

  /** The statistics of one user. */
  function StatsOf(u: User, parse: string -> Option<real>): (r: UserStats)
    ensures r.userId == u.id && r.userName == u.name && r.userEmail == u.email
    ensures r.userRole == u.role && r.memberSince == u.createdAt
    ensures r.approvedHomeworks == multiset(Statuses(Rows(u.submittedHomeworks)))[APPROVED]
    ensures r.rejectedHomeworks == multiset(Statuses(Rows(u.submittedHomeworks)))[REJECTED]
    ensures r.pendingHomeworks == multiset(Statuses(Rows(u.submittedHomeworks)))[PENDING]
    ensures r.underReviewHomeworks == multiset(Statuses(Rows(u.submittedHomeworks)))[UNDER_REVIEW]
    ensures u.role == STUDENT ==>
      r.totalHomeworks == |u.submittedHomeworks| && r.subjectsCount == |SubjectIds(u.submittedHomeworks)|
    ensures u.role == STUDENT ==> r.subjectsCount <= r.totalHomeworks
    ensures u.role != STUDENT ==>
      r.totalHomeworks == HomeworksInSubjects(u.subjects) && r.subjectsCount == |u.subjects|
    ensures r.averageGrade.None? <==>
      forall i :: 0 <= i < |u.submittedHomeworks| ==> u.submittedHomeworks[i].grade.None?
    ensures r.successRate == SuccessRate(r.approvedHomeworks, |u.submittedHomeworks|)
    ensures 0.0 <= r.successRate <= 100.0
    ensures u.submittedHomeworks == [] ==> r.successRate == 0.0
  {
    var rows := Rows(u.submittedHomeworks);
    var submitted := |rows|;
    var approved := StatusCount(rows, APPROVED);
    SubjectIdsCount(u.submittedHomeworks);
    UserStats(
      u.id, u.name, u.email, u.role,
      if u.role == STUDENT then submitted else HomeworksInSubjects(u.subjects),
      approved,
      StatusCount(rows, REJECTED),
      StatusCount(rows, PENDING),
      StatusCount(rows, UNDER_REVIEW),
      AverageGrade(rows, parse),
      if u.role == STUDENT then |SubjectIds(u.submittedHomeworks)| else |u.subjects|,
      SuccessRate(approved, submitted),
      u.createdAt)
  }

  /** The handler. `hasSession` is whether the request carries a session; `query` is what the
      user query returned (newest account first), `None` when it threw. */
  function Get(hasSession: bool, query: Option<seq<User>>, parse: string -> Option<real>)
    : (r: Response<seq<UserStats>>)
    ensures !hasSession <==> r == Error(401, "Unauthorized")
    ensures hasSession && query.None? ==> r == Error(500, "Failed to fetch user performance")
    ensures hasSession && query.Some? ==>
      && r.Ok? && r.code == 200
      && |r.body| == |query.value|
      && forall i :: 0 <= i < |r.body| ==> r.body[i] == StatsOf(query.value[i], parse)
  {
    if !hasSession then Error(401, "Unauthorized")
    else match query
      case None => Error(500, "Failed to fetch user performance")
      case Some(users) =>
        Ok(200, seq(|users|, i requires 0 <= i < |users| => StatsOf(users[i], parse)))
  }

  /** A student who has submitted nothing: no homework, no average, no subjects, rate 0. */
  lemma NewStudentExample(u: User, parse: string -> Option<real>)
    requires u.role == STUDENT && u.submittedHomeworks == []
    ensures var st := StatsOf(u, parse);
            st.totalHomeworks == 0 && st.averageGrade == None && st.subjectsCount == 0
            && st.successRate == 0.0
  {
    SubjectIdsCount(u.submittedHomeworks);
  }

  /** A teacher of two subjects with 3 and 5 homeworks: 8 homeworks in 2 subjects. */
  lemma TwoSubjectTeacherExample(u: User, parse: string -> Option<real>)
    requires u.role == TEACHER && |u.subjects| == 2
    requires |u.subjects[0].homeworkIds| == 3 && |u.subjects[1].homeworkIds| == 5
    ensures StatsOf(u, parse).totalHomeworks == 8 && StatsOf(u, parse).subjectsCount == 2
  {
    var s := u.subjects;
    assert HomeworksInSubjects(s[..1]) == 3 by {
      assert s[..1][..0] == [];
    }
    assert HomeworksInSubjects(s) == 8;
  }
}
