/** The teacher's student reports: one report per registered student with completed attempts
    on the teacher's exams, a search over names and emails, three sort orders, a performance
    badge and the overall figures. */
module StudentReports {
  import opened Wrappers
  import opened Types
  import opened Records
  import opened Sorting
  import opened Stats
  import opened Text
  import Auth
  import Storage
  import Analytics
  import MyResults

  datatype ExamDetail = ExamDetail(exam: Exam, attempt: ExamAttempt)

  datatype StudentReport = StudentReport(
    student: User,
    totalAttempts: nat,
    averageScore: int,
    highestScore: int,
    lowestScore: int,
    completedExams: nat,
    totalTimeTaken: int,
    recentAttempts: seq<ExamAttempt>,
    examDetails: seq<ExamDetail>)

  // ---------------------------------------------------------------- the students

  predicate IsStudent(u: Auth.StoredUser) {
    u.role == Student
  }

  /** `getStoredUsers()` over the registry: its students, without their passwords. */
  function Students(registry: seq<Auth.StoredUser>): (r: seq<User>)
    ensures |r| == |Filter(registry, IsStudent)| <= |registry|
    ensures forall i :: 0 <= i < |r| ==> r[i] == Auth.Public(Filter(registry, IsStudent)[i])
    ensures forall u :: u in r <==> exists s :: s in registry && IsStudent(s) && u == Auth.Public(s)
    ensures forall u :: u in r ==> u.role == Student
  {
    var s := Filter(registry, IsStudent);
    var r := seq(|s|, i requires 0 <= i < |s| => Auth.Public(s[i]));
    assert forall u :: u in r <==> exists x :: x in registry && IsStudent(x) && u == Auth.Public(x) by {
      forall u ensures u in r <==> exists x :: x in registry && IsStudent(x) && u == Auth.Public(x) {
        if u in r {
          var i :| 0 <= i < |r| && r[i] == u;
          assert s[i] in s;
        }
        if exists x :: x in registry && IsStudent(x) && u == Auth.Public(x) {
          var x :| x in registry && IsStudent(x) && u == Auth.Public(x);
          assert x in s;
          var i :| 0 <= i < |s| && s[i] == x;
          assert r[i] == u;
        }
      }
    }
    r
  }

  /** Registered emails are unique, so no student is listed twice. */
  lemma StudentsDistinct(registry: seq<Auth.StoredUser>)
    requires UniqueKeys(registry, Auth.EmailOf)
    ensures UniqueKeys(Students(registry), UserEmail)
  {
    FilterKeepsUnique(registry, Auth.EmailOf, IsStudent);
  }

  // ---------------------------------------------------------------- one report

  /** The attempts a report counts: the student's, completed, on one of the exams. */
  function CountsFor(exams: seq<Exam>, studentId: string): ExamAttempt -> bool {
    (a: ExamAttempt) => a.student_id == studentId && IsCompleted(a) && a.exam_id in Keys(exams, ExamKey)
  }

  /** `a.time_taken || 0`. */
  function TimeOf(a: ExamAttempt): int {
    if a.time_taken.Some? then a.time_taken.value else 0
  }

  function TotalTime(attempts: seq<ExamAttempt>): (t: int)
    ensures (forall i :: 0 <= i < |attempts| ==> TimeOf(attempts[i]) >= 0) ==> t >= 0
  {
    if attempts == [] then 0 else TotalTime(attempts[..|attempts| - 1]) + TimeOf(attempts[|attempts| - 1])
  }

  function ExamIds(attempts: seq<ExamAttempt>): (ids: seq<string>)
    ensures |ids| == |attempts| && forall i :: 0 <= i < |attempts| ==> ids[i] == attempts[i].exam_id
  {
    Keys(attempts, ExamOf)
  }

  /** The date order of the page: later completion first. */
  predicate DetailLaterFirst(a: ExamDetail, b: ExamDetail) {
    MyResults.LaterFirst(a.attempt, b.attempt)
  }

  function AttemptOf(d: ExamDetail): ExamAttempt {
    d.attempt
  }

  /** `studentAttempts.map(attempt => ({ exam: teacherExams.find(...)!, attempt }))`. */
  function Details(exams: seq<Exam>, attempts: seq<ExamAttempt>): (ds: seq<ExamDetail>)
    requires forall i :: 0 <= i < |attempts| ==> attempts[i].exam_id in Keys(exams, ExamKey)
    ensures |ds| == |attempts|
    ensures forall i :: 0 <= i < |ds| ==>
              ds[i].attempt == attempts[i] && ds[i].exam in exams && ds[i].exam.id == attempts[i].exam_id
  {
    seq(|attempts|, i requires 0 <= i < |attempts| => ExamDetail(Find(exams, ExamKey, attempts[i].exam_id).value, attempts[i]))
  }

  lemma DetailLaterFirstTotal()
    ensures TotalPreorder(DetailLaterFirst)
  {
  }

  function Min(a: int, b: int): int {
    if a <= b then a else b
  }

  /** An element missing from a prefix sits past it. */
  lemma PastPrefix<T>(s: seq<T>, k: nat, j: nat)
    requires k <= |s| && j < |s| && s[j] !in s[..k]
    ensures k <= j
  {
  }

  lemma PrefixMultiset<T>(s: seq<T>, k: nat)
    requires k <= |s|
    ensures multiset(s[..k]) <= multiset(s)
  {
    assert s == s[..k] + s[k..];
  }

  /** `studentAttempts.sort(later first).slice(0, 5)`: the five latest counted attempts. */
  function Recent(mine: seq<ExamAttempt>): (recent: seq<ExamAttempt>)
    ensures |recent| == Min(5, |mine|)
    ensures Sorted(recent, MyResults.LaterFirst)
    ensures multiset(recent) <= multiset(mine)
    ensures forall a, b :: a in recent && b in mine && b !in recent ==> MyResults.LaterFirst(a, b)
  {
    var sorted := SortBy(mine, MyResults.LaterFirst);
    MyResults.LaterFirstTotal();
    SortBySorted(mine, MyResults.LaterFirst);
    var k := Min(5, |sorted|);
    var recent := sorted[..k];
    PrefixMultiset(sorted, k);
    assert forall a :: a in sorted <==> a in mine by {
      assert forall a :: a in sorted <==> a in multiset(mine);
    }
    assert forall a, b :: a in recent && b in mine && b !in recent ==> MyResults.LaterFirst(a, b) by {
      forall a, b | a in recent && b in mine && b !in recent ensures MyResults.LaterFirst(a, b) {
        var i :| 0 <= i < k && recent[i] == a;
        var j :| 0 <= j < |sorted| && sorted[j] == b;
        PastPrefix(sorted, k, j);
        assert sorted[i] == a;
      }
    }
    recent
  }

  /** `examDetails.sort(later first)`: every counted attempt with its exam, latest first. */
  function SortedDetails(exams: seq<Exam>, mine: seq<ExamAttempt>): (ds: seq<ExamDetail>)
    requires forall i :: 0 <= i < |mine| ==> mine[i].exam_id in Keys(exams, ExamKey)
    ensures |ds| == |mine|
    ensures Sorted(ds, DetailLaterFirst)
    ensures multiset(ds) == multiset(Details(exams, mine))
    ensures forall d :: d in ds ==> d.exam in exams && d.exam.id == d.attempt.exam_id && d.attempt in mine
  {
    var details := Details(exams, mine);
    DetailLaterFirstTotal();
    SortBySorted(details, DetailLaterFirst);
    var ds := SortBy(details, DetailLaterFirst);
    assert forall d :: d in ds ==> d in details by {
      forall d | d in ds ensures d in details {
        assert d in multiset(details);
      }
    }
    ds
  }

  /** The report of one student, or none when no attempt counts; its figures are stated
      by ReportFigures. */
  function ReportFor(exams: seq<Exam>, attempts: seq<ExamAttempt>, student: User): (r: Option<StudentReport>)
    ensures r.None? <==> Filter(attempts, CountsFor(exams, student.id)) == []
    ensures r.Some? ==> r.value.student == student && r.value.totalAttempts >= 1
  {
    var mine := Filter(attempts, CountsFor(exams, student.id));
    if mine == [] then None
    else
      var scores := Analytics.Scores(mine);
      var ids := ExamIds(mine);
      CountedOnExams(exams, mine);
      Some(StudentReport(student, |mine|, RoundedMean(scores), MaxOf(scores), MinOf(scores),
                         |Distinct(ids)|, TotalTime(mine), Recent(mine), SortedDetails(exams, mine)))
  }

  lemma CountedOnExams(exams: seq<Exam>, mine: seq<ExamAttempt>)
    requires forall a :: a in mine ==> a.exam_id in Keys(exams, ExamKey)
    ensures forall i :: 0 <= i < |mine| ==> mine[i].exam_id in Keys(exams, ExamKey)
  {
    forall i | 0 <= i < |mine| ensures mine[i].exam_id in Keys(exams, ExamKey) {
      assert mine[i] in mine;
    }
  }

  /** The figures of a report: the counted attempts, their rounded mean between the lowest
      and highest score, the distinct exams (at least one, at most one per attempt), the
      total time, the five latest attempts and every attempt with its exam. */
  lemma ReportFigures(exams: seq<Exam>, attempts: seq<ExamAttempt>, student: User)
    requires ReportFor(exams, attempts, student).Some?
    ensures var mine := Filter(attempts, CountsFor(exams, student.id));
            var rep := ReportFor(exams, attempts, student).value;
            var scores := Analytics.Scores(mine);
            && rep.totalAttempts == |mine| >= 1
            && rep.averageScore == RoundedMean(scores)
            && rep.highestScore == MaxOf(scores) && rep.lowestScore == MinOf(scores)
            && rep.lowestScore <= rep.averageScore <= rep.highestScore
            && rep.completedExams == |Distinct(ExamIds(mine))|
            && 1 <= rep.completedExams <= rep.totalAttempts
            && rep.totalTimeTaken == TotalTime(mine)
            && rep.recentAttempts == Recent(mine)
            && (forall i :: 0 <= i < |mine| ==> mine[i].exam_id in Keys(exams, ExamKey))
            && rep.examDetails == SortedDetails(exams, mine)
  {
    var mine := Filter(attempts, CountsFor(exams, student.id));
    var scores := Analytics.Scores(mine);
    RoundedMeanBetween(scores);
    var ids := ExamIds(mine);
    DistinctBound(ids);
    assert ids[0] in Distinct(ids);
    CountedOnExams(exams, mine);
  }

  /** The report of a student, if any; named so that quantifiers over students stay small. */
  predicate ReportOf(exams: seq<Exam>, attempts: seq<ExamAttempt>, u: User, r: StudentReport) {
    ReportFor(exams, attempts, u) == Some(r)
  }

  lemma InInitOrLast<T>(s: seq<T>, x: T)
    requires x in s
    ensures x in s[..|s| - 1] || x == s[|s| - 1]
  {
    var i :| 0 <= i < |s| && s[i] == x;
    if i < |s| - 1 {
      assert s[..|s| - 1][i] == x;
    }
  }

  /** The reports of the students that have one, in registry order. */
  function Reports(exams: seq<Exam>, attempts: seq<ExamAttempt>, students: seq<User>): (rs: seq<StudentReport>)
    ensures |rs| <= |students|
  {
    if students == [] then []
    else
      var n := |students| - 1;
      var rest := Reports(exams, attempts, students[..n]);
      match ReportFor(exams, attempts, students[n])
      case Some(r) => rest + [r]
      case None => rest
  }

  /** Whether a student has a report. */
  function HasReport(exams: seq<Exam>, attempts: seq<ExamAttempt>): User -> bool {
    (u: User) => ReportFor(exams, attempts, u).Some?
  }

  /** The student a report is for, by email. */
  function ReportEmail(r: StudentReport): string {
    r.student.email
  }

  /** The reports are, in order, those of the students that have one. */
  lemma {:induction false} ReportsInOrder(exams: seq<Exam>, attempts: seq<ExamAttempt>, students: seq<User>)
    ensures var active := Filter(students, HasReport(exams, attempts));
            var rs := Reports(exams, attempts, students);
            |rs| == |active| && forall i :: 0 <= i < |rs| ==> ReportOf(exams, attempts, active[i], rs[i])
  {
    if students != [] {
      var n := |students| - 1;
      var x := students[n];
      ReportsInOrder(exams, attempts, students[..n]);
      var active0, rs0 := Filter(students[..n], HasReport(exams, attempts)), Reports(exams, attempts, students[..n]);
      var active, rs := Filter(students, HasReport(exams, attempts)), Reports(exams, attempts, students);
      if ReportFor(exams, attempts, x).Some? {
        assert active == active0 + [x] && rs == rs0 + [ReportFor(exams, attempts, x).value];
        forall i | 0 <= i < |rs| ensures ReportOf(exams, attempts, active[i], rs[i]) {
          if i < |rs0| {
            assert active[i] == active0[i] && rs[i] == rs0[i];
          }
        }
      } else {
        assert active == active0 && rs == rs0;
      }
    }
  }

  /** Every report listed is the report of a listed student, and every listed student that
      has a report has it listed, once per listing, in the students' order; distinct
      students give reports of distinct students. */
  lemma ReportsMembers(exams: seq<Exam>, attempts: seq<ExamAttempt>, students: seq<User>)
    ensures forall r :: r in Reports(exams, attempts, students) ==> exists u :: u in students && ReportOf(exams, attempts, u, r)
    ensures forall u :: u in students && ReportFor(exams, attempts, u).Some? ==>
              ReportFor(exams, attempts, u).value in Reports(exams, attempts, students)
    ensures var active := Filter(students, HasReport(exams, attempts));
            var rs := Reports(exams, attempts, students);
            |rs| == |active| && forall i :: 0 <= i < |rs| ==> ReportOf(exams, attempts, active[i], rs[i])
    ensures UniqueKeys(students, UserEmail) ==> UniqueKeys(Reports(exams, attempts, students), ReportEmail)
  {
    ReportsInOrder(exams, attempts, students);
    var active := Filter(students, HasReport(exams, attempts));
    var rs := Reports(exams, attempts, students);
    forall r | r in rs ensures exists u :: u in students && ReportOf(exams, attempts, u, r) {
      var i :| 0 <= i < |rs| && rs[i] == r;
      assert active[i] in active;
    }
    forall u | u in students && ReportFor(exams, attempts, u).Some? ensures ReportFor(exams, attempts, u).value in rs {
      assert u in active;
      var i :| 0 <= i < |active| && active[i] == u;
      assert ReportOf(exams, attempts, active[i], rs[i]);
    }
    if UniqueKeys(students, UserEmail) {
      FilterKeepsUnique(students, UserEmail, HasReport(exams, attempts));
      forall i | 0 <= i < |rs| ensures ReportEmail(rs[i]) == UserEmail(active[i]) {
        assert ReportOf(exams, attempts, active[i], rs[i]);
      }
    }
  }

  /** `loadStudentReports()`: nothing without a signed-in user with an id; otherwise the
      reports over the teacher's exams and all stored attempts. */
  function LoadStudentReports(store: Storage.RecordStore, registry: seq<Auth.StoredUser>, user: Option<User>): (rs: seq<StudentReport>)
    reads store
    ensures user.None? || user.value.id == "" ==> rs == []
    ensures user.Some? && user.value.id != "" ==>
              var exams := store.GetExams(Some(user.value.id));
              && (forall r :: r in rs ==> exists u :: u in Students(registry) && ReportOf(exams, store.attempts, u, r))
              && (forall u :: u in Students(registry) && ReportFor(exams, store.attempts, u).Some? ==>
                    ReportFor(exams, store.attempts, u).value in rs)
    ensures user.Some? && user.value.id != "" ==>
              var exams := store.GetExams(Some(user.value.id));
              var active := Filter(Students(registry), HasReport(exams, store.attempts));
              |rs| == |active| && forall i :: 0 <= i < |rs| ==> ReportOf(exams, store.attempts, active[i], rs[i])
    ensures UniqueKeys(registry, Auth.EmailOf) ==> UniqueKeys(rs, ReportEmail)
    ensures forall r :: r in rs ==> r.totalAttempts >= 1 && r.student.role == Student
  {
    if user.None? || user.value.id == "" then []
    else
      ReportsMembers(store.GetExams(Some(user.value.id)), store.attempts, Students(registry));
      assert UniqueKeys(registry, Auth.EmailOf) ==> UniqueKeys(Students(registry), UserEmail) by {
        if UniqueKeys(registry, Auth.EmailOf) {
          StudentsDistinct(registry);
        }
      }
      Reports(store.GetExams(Some(user.value.id)), store.attempts, Students(registry))
  }

  /** A counted attempt on the teacher's exams always gives its student a report. */
  lemma EveryActiveStudentReported(exams: seq<Exam>, attempts: seq<ExamAttempt>, students: seq<User>, i: nat, a: ExamAttempt)
    requires i < |students| && a in attempts && CountsFor(exams, students[i].id)(a)
    ensures exists r :: r in Reports(exams, attempts, students) && r.student == students[i]
  {
    assert a in Filter(attempts, CountsFor(exams, students[i].id));
    ReportsMembers(exams, attempts, students);
    var r := ReportFor(exams, attempts, students[i]).value;
    assert ReportOf(exams, attempts, students[i], r);
    assert students[i] in students;
  }

  // ---------------------------------------------------------------- search and sort

  /** `report.student.name/email.toLowerCase().includes(query.toLowerCase())`, with a blank
      query matching every report. */
  function MatchesQuery(query: string): StudentReport -> bool {
    (r: StudentReport) =>
      Trim(query) == "" || Contains(Lower(r.student.name), Lower(query)) || Contains(Lower(r.student.email), Lower(query))
  }

  datatype SortKey = ByName | ByScore | ByAttempts

  /** The three comparators, each as its `<= 0`. */
  predicate NameOrder(a: StudentReport, b: StudentReport) {
    LexLe(a.student.name, b.student.name)
  }

  predicate ScoreOrder(a: StudentReport, b: StudentReport) {
    b.averageScore <= a.averageScore
  }

  predicate AttemptsOrder(a: StudentReport, b: StudentReport) {
    b.totalAttempts <= a.totalAttempts
  }

  function OrderOf(key: SortKey): (StudentReport, StudentReport) -> bool {
    match key
    case ByName => NameOrder
    case ByScore => ScoreOrder
    case ByAttempts => AttemptsOrder
  }

  lemma OrdersTotal(key: SortKey)
    ensures TotalPreorder(OrderOf(key))
  {
    if key == ByName {
      forall a: StudentReport, b: StudentReport ensures NameOrder(a, b) || NameOrder(b, a) {
        LexLeTotal(a.student.name, b.student.name);
      }
      forall a: StudentReport, b: StudentReport, c: StudentReport | NameOrder(a, b) && NameOrder(b, c) ensures NameOrder(a, c) {
        LexLeTransitive(a.student.name, b.student.name, c.student.name);
      }
    }
  }

  /** `filterAndSortReports()`: the matching reports, ordered by the chosen key. */
  function FilterAndSort(reports: seq<StudentReport>, query: string, key: SortKey): (r: seq<StudentReport>)
    ensures multiset(r) == multiset(Filter(reports, MatchesQuery(query)))
    ensures Sorted(r, OrderOf(key))
    ensures Blank(query) ==> multiset(r) == multiset(reports)
    ensures forall x :: x in r <==> x in reports && MatchesQuery(query)(x)
  {
    var f := Filter(reports, MatchesQuery(query));
    OrdersTotal(key);
    SortBySorted(f, OrderOf(key));
    var r := SortBy(f, OrderOf(key));
    assert forall x :: x in r <==> x in f by {
      assert forall x :: x in r <==> x in multiset(f);
    }
    assert Blank(query) ==> f == reports by {
      if Blank(query) {
        TrimEmptyIffBlank(query);
        assert forall i :: 0 <= i < |reports| ==> MatchesQuery(query)(reports[i]);
        FilterAll(reports, MatchesQuery(query));
      }
    }
    r
  }

  // ---------------------------------------------------------------- badges and overall figures

  datatype Variant = Success | Primary | Warning | Error

  datatype Badge = Badge(variant: Variant, caption: string)

  /** `getPerformanceBadge(score)`. */
  function PerformanceBadge(score: int): (b: Badge)
    ensures b.caption == "Excellent" <==> score >= 90
    ensures b.caption == "Good" <==> 75 <= score < 90
    ensures b.caption == "Average" <==> 60 <= score < 75
    ensures b.caption == "Needs Improvement" <==> score < 60
    ensures b.variant == Variant.Success <==> b.caption == "Excellent"
  {
    if score >= 90 then Badge(Variant.Success, "Excellent")
    else if score >= 75 then Badge(Primary, "Good")
    else if score >= 60 then Badge(Warning, "Average")
    else Badge(Error, "Needs Improvement")
  }

  function BadgeRank(b: Badge): nat {
    match b.variant
    case Success => 3
    case Primary => 2
    case Warning => 1
    case Error => 0
  }

  /** A higher score never earns a lower badge. */
  lemma BadgeMonotone(p: int, q: int)
    requires p <= q
    ensures BadgeRank(PerformanceBadge(p)) <= BadgeRank(PerformanceBadge(q))
  {
  }

  datatype OverallStats = OverallStats(totalStudents: nat, averageScore: int, totalAttempts: int, excellentStudents: nat)

  function AverageScores(reports: seq<StudentReport>): (s: seq<int>)
    ensures |s| == |reports| && forall i :: 0 <= i < |reports| ==> s[i] == reports[i].averageScore
  {
    seq(|reports|, i requires 0 <= i < |reports| => reports[i].averageScore)
  }

  function AttemptSum(reports: seq<StudentReport>): int {
    if reports == [] then 0 else AttemptSum(reports[..|reports| - 1]) + reports[|reports| - 1].totalAttempts
  }

  predicate Excellent(r: StudentReport) {
    r.averageScore >= 90
  }

  /** `calculateOverallStats()`. */
  function OverallStatsOf(reports: seq<StudentReport>): (s: OverallStats)
    ensures s.totalStudents == |reports|
    ensures reports == [] ==> s == OverallStats(0, 0, 0, 0)
    ensures reports != [] ==> s.averageScore == RoundedMean(AverageScores(reports))
    ensures reports != [] ==> MinOf(AverageScores(reports)) <= s.averageScore <= MaxOf(AverageScores(reports))
    ensures s.totalAttempts == AttemptSum(reports)
    ensures s.excellentStudents == |Filter(reports, Excellent)| <= s.totalStudents
  {
    if reports == [] then OverallStats(0, 0, 0, 0)
    else
      RoundedMeanBetween(AverageScores(reports));
      OverallStats(|reports|, RoundedMean(AverageScores(reports)), AttemptSum(reports), |Filter(reports, Excellent)|)
  }

  /** Every report has an attempt, so there are at least as many attempts as students. */
  lemma {:induction false} AttemptsAtLeastStudents(reports: seq<StudentReport>)
    requires forall r :: r in reports ==> r.totalAttempts >= 1
    ensures OverallStatsOf(reports).totalAttempts >= OverallStatsOf(reports).totalStudents
  {
    if reports != [] {
      var n := |reports| - 1;
      assert forall r :: r in reports[..n] ==> r in reports;
      AttemptsAtLeastStudents(reports[..n]);
      assert reports[n] in reports;
    }
  }

  /** The excellent students are exactly those whose badge reads "Excellent". */
  lemma ExcellentIsBadge(r: StudentReport)
    ensures Excellent(r) <==> PerformanceBadge(r.averageScore).caption == "Excellent"
  {
  }
}
