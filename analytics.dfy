/** The teacher's analytics page: the completed attempts on the teacher's exams, the totals
    over them, the per-exam figures and the distribution of scores over five bands. */
module Analytics {
  import opened Wrappers
  import opened Types
  import opened Records
  import opened Stats
  import Storage

  // ---------------------------------------------------------------- the counted attempts

  /** The test the page's list amounts to over all stored attempts: completed, and on one
      of the exams. */
  function OnExams(exams: seq<Exam>): ExamAttempt -> bool {
    (a: ExamAttempt) => IsCompleted(a) && a.exam_id in Keys(exams, ExamKey)
  }

  /** The completed attempts of each exam in turn: `exams.flatMap(exam =>
      getAttempts(exam.id).filter(a => a.completed_at))`. */
  function CompletedAttemptsOf(store: Storage.RecordStore, exams: seq<Exam>): (r: seq<ExamAttempt>)
    reads store
    ensures forall a :: a in r <==> IsCompleted(a) && exists i :: 0 <= i < |exams| && a in store.GetAttempts(Some(exams[i].id))
  {
    if exams == [] then []
    else
      var n := |exams| - 1;
      assert forall i :: 0 <= i < n ==> exams[..n][i] == exams[i];
      CompletedAttemptsOf(store, exams[..n]) + Filter(store.GetAttempts(Some(exams[n].id)), IsCompleted)
  }

  /** With distinct, non-empty exam ids every completed stored attempt on those exams is
      listed exactly as often as it is stored. */
  lemma {:induction false} CompletedAttemptsOnce(store: Storage.RecordStore, exams: seq<Exam>)
    requires UniqueKeys(exams, ExamKey) && forall i :: 0 <= i < |exams| ==> exams[i].id != ""
    ensures multiset(CompletedAttemptsOf(store, exams)) == multiset(Filter(store.attempts, OnExams(exams)))
  {
    if exams == [] {
      FilterNone(store.attempts, OnExams(exams));
    } else {
      var n := |exams| - 1;
      assert forall i :: 0 <= i < n ==> exams[..n][i] == exams[i];
      CompletedAttemptsOnce(store, exams[..n]);
      CompletedStep(store, exams);
    }
  }

  /** Adding the last exam adds exactly its completed attempts to what the test keeps. */
  lemma CompletedStep(store: Storage.RecordStore, exams: seq<Exam>)
    requires exams != [] && UniqueKeys(exams, ExamKey)
    requires forall i :: 0 <= i < |exams| ==> exams[i].id != ""
    ensures var n := |exams| - 1;
            multiset(Filter(store.attempts, OnExams(exams))) ==
            multiset(Filter(store.attempts, OnExams(exams[..n])))
            + multiset(Filter(store.GetAttempts(Some(exams[n].id)), IsCompleted))
  {
    var n := |exams| - 1;
    var k := exams[n].id;
    var here := (a: ExamAttempt) => IsCompleted(a) && a.exam_id == k;
    FilterFilter(store.attempts, KeyIs(ExamOf, k), IsCompleted, here);
    assert exams == exams[..n] + [exams[n]];
    KeysSnoc(exams[..n], exams[n], ExamKey);
    assert k !in Keys(exams[..n], ExamKey) by {
      forall i | 0 <= i < n ensures Keys(exams[..n], ExamKey)[i] != k {
        assert exams[..n][i] == exams[i];
      }
    }
    FilterSplit(store.attempts, OnExams(exams[..n]), here, OnExams(exams));
  }

  /** The page's load effect: nothing without a signed-in user with an id. */
  function CountedAttempts(store: Storage.RecordStore, user: Option<User>): (r: seq<ExamAttempt>)
    reads store
    ensures user.None? || user.value.id == "" ==> r == []
    ensures user.Some? && user.value.id != "" ==>
              forall a :: a in r ==> a in store.attempts && IsCompleted(a)
  {
    if user.None? || user.value.id == "" then []
    else CompletedAttemptsOf(store, store.GetExams(Some(user.value.id)))
  }

  /** Completed, and on one of the exams the teacher created. */
  function TeachersCompleted(exams: seq<Exam>, teacher: string): ExamAttempt -> bool {
    (a: ExamAttempt) => IsCompleted(a) && exists e :: e in exams && e.created_by == teacher && e.id == a.exam_id
  }

  /** When the teacher's exams have non-empty ids, an attempt is counted exactly when it is
      completed and belongs to one of them. (`getAttempts('')` would return every attempt.)
      With unique stored exam ids, each such stored attempt is counted as often as it is stored. */
  lemma CountedAttemptsAreTheTeachers(store: Storage.RecordStore, user: User)
    requires user.id != ""
    requires forall e :: e in store.exams ==> e.id != ""
    ensures forall a :: a in CountedAttempts(store, Some(user)) <==>
              && a in store.attempts && IsCompleted(a)
              && exists e :: e in store.exams && e.created_by == user.id && e.id == a.exam_id
    ensures store.Valid() ==>
              multiset(CountedAttempts(store, Some(user))) == multiset(Filter(store.attempts, TeachersCompleted(store.exams, user.id)))
    ensures store.Valid() ==>
              |CountedAttempts(store, Some(user))| == |Filter(store.attempts, TeachersCompleted(store.exams, user.id))|
  {
    CountedMembers(store, user);
    if store.Valid() {
      CountedOncePerStored(store, user);
    }
  }

  lemma CountedMembers(store: Storage.RecordStore, user: User)
    requires user.id != ""
    requires forall e :: e in store.exams ==> e.id != ""
    ensures forall a :: a in CountedAttempts(store, Some(user)) <==>
              && a in store.attempts && IsCompleted(a)
              && exists e :: e in store.exams && e.created_by == user.id && e.id == a.exam_id
  {
    var exams := store.GetExams(Some(user.id));
    forall a ensures a in CountedAttempts(store, Some(user)) <==>
              && a in store.attempts && IsCompleted(a)
              && exists e :: e in store.exams && e.created_by == user.id && e.id == a.exam_id
    {
      if a in store.attempts && IsCompleted(a) && exists e :: e in store.exams && e.created_by == user.id && e.id == a.exam_id {
        var e :| e in store.exams && e.created_by == user.id && e.id == a.exam_id;
        var i :| 0 <= i < |exams| && exams[i] == e;
        assert a in store.GetAttempts(Some(exams[i].id));
      }
    }
  }

  lemma CountedOncePerStored(store: Storage.RecordStore, user: User)
    requires user.id != "" && store.Valid()
    requires forall e :: e in store.exams ==> e.id != ""
    ensures multiset(CountedAttempts(store, Some(user))) == multiset(Filter(store.attempts, TeachersCompleted(store.exams, user.id)))
    ensures |CountedAttempts(store, Some(user))| == |Filter(store.attempts, TeachersCompleted(store.exams, user.id))|
  {
    var exams := store.GetExams(Some(user.id));
    assert exams == Filter(store.exams, KeyIs(ExamCreator, user.id));
    FilterKeepsUnique(store.exams, ExamKey, KeyIs(ExamCreator, user.id));
    assert forall i :: 0 <= i < |exams| ==> exams[i].id != "" by {
      forall i | 0 <= i < |exams| ensures exams[i].id != "" {
        assert exams[i] in exams;
      }
    }
    CompletedAttemptsOnce(store, exams);
    SameTest(store, user.id, exams);
    FilterSame(store.attempts, OnExams(exams), TeachersCompleted(store.exams, user.id));
    var r := CountedAttempts(store, Some(user));
    var f := Filter(store.attempts, TeachersCompleted(store.exams, user.id));
    assert |multiset(r)| == |r| && |multiset(f)| == |f|;
  }

  /** The teacher's exams, as listed, give the same test as their creator field. */
  lemma SameTest(store: Storage.RecordStore, teacher: string, exams: seq<Exam>)
    requires forall e :: e in exams <==> e in store.exams && e.created_by == teacher
    ensures forall a :: OnExams(exams)(a) <==> TeachersCompleted(store.exams, teacher)(a)
  {
    forall a ensures OnExams(exams)(a) <==> TeachersCompleted(store.exams, teacher)(a) {
      if a.exam_id in Keys(exams, ExamKey) {
        var i :| 0 <= i < |exams| && Keys(exams, ExamKey)[i] == a.exam_id;
        assert exams[i] in exams;
      }
      if exists e :: e in store.exams && e.created_by == teacher && e.id == a.exam_id {
        var e :| e in store.exams && e.created_by == teacher && e.id == a.exam_id;
        var i :| 0 <= i < |exams| && exams[i] == e;
        assert Keys(exams, ExamKey)[i] == a.exam_id;
      }
    }
  }

  // ---------------------------------------------------------------- totals

  function Scores(attempts: seq<ExamAttempt>): (s: seq<int>)
    ensures |s| == |attempts| && forall i :: 0 <= i < |attempts| ==> s[i] == attempts[i].score
  {
    seq(|attempts|, i requires 0 <= i < |attempts| => attempts[i].score)
  }

  function StudentIds(attempts: seq<ExamAttempt>): (ids: seq<string>)
    ensures |ids| == |attempts| && forall i :: 0 <= i < |attempts| ==> ids[i] == attempts[i].student_id
  {
    Keys(attempts, StudentOf)
  }

  /** `a.score >= 60`. */
  predicate Passed(a: ExamAttempt) {
    a.score >= 60
  }

  datatype Overview = Overview(totalAttempts: nat, uniqueStudents: nat, averageScore: int, passRate: int)

  /** The four summary cards. */
  function OverviewOf(attempts: seq<ExamAttempt>): (o: Overview)
    ensures o.totalAttempts == |attempts|
    ensures o.uniqueStudents == |Distinct(StudentIds(attempts))| <= o.totalAttempts
    ensures attempts != [] ==> o.uniqueStudents >= 1
    ensures attempts == [] ==> o.averageScore == 0 && o.passRate == 0
    ensures attempts != [] ==> MinOf(Scores(attempts)) <= o.averageScore <= MaxOf(Scores(attempts))
    ensures attempts != [] ==> o.averageScore == RoundedMean(Scores(attempts))
    ensures 0 <= o.passRate <= 100 && o.passRate == Percent(|Filter(attempts, Passed)|, |attempts|)
  {
    DistinctBound(StudentIds(attempts));
    assert attempts != [] ==> StudentIds(attempts)[0] in Distinct(StudentIds(attempts));
    assert attempts != [] ==> MinOf(Scores(attempts)) <= RoundedMean(Scores(attempts)) <= MaxOf(Scores(attempts)) by {
      if attempts != [] {
        RoundedMeanBetween(Scores(attempts));
      }
    }
    var avg := if attempts == [] then 0 else RoundedMean(Scores(attempts));
    Overview(|attempts|, |Distinct(StudentIds(attempts))|, avg, Percent(|Filter(attempts, Passed)|, |attempts|))
  }

  /** The pass rate is 100 when everyone passed and 0 when nobody did. */
  lemma PassRateExtremes(attempts: seq<ExamAttempt>)
    ensures attempts != [] && (forall i :: 0 <= i < |attempts| ==> Passed(attempts[i])) ==> OverviewOf(attempts).passRate == 100
    ensures (forall i :: 0 <= i < |attempts| ==> !Passed(attempts[i])) ==> OverviewOf(attempts).passRate == 0
  {
    if attempts != [] && forall i :: 0 <= i < |attempts| ==> Passed(attempts[i]) {
      FilterAll(attempts, Passed);
      RoundDivExact(100, |attempts|);
      assert 100 * |attempts| == |attempts| * 100;
    }
    if forall i :: 0 <= i < |attempts| ==> !Passed(attempts[i]) {
      FilterNone(attempts, Passed);
      if attempts != [] {
        RoundDivExact(0, |attempts|);
      }
    }
  }

  // ---------------------------------------------------------------- per exam

  datatype ExamAnalytics = ExamAnalytics(attempts: nat, avgScore: int, passRate: int, highestScore: int, lowestScore: int)

  /** `getExamAnalytics(exam)`: nothing for an exam without counted attempts. */
  function ExamAnalyticsOf(attempts: seq<ExamAttempt>, exam: Exam): (r: Option<ExamAnalytics>)
    ensures r.None? <==> forall a :: a in attempts ==> a.exam_id != exam.id
    ensures r.Some? ==>
              var mine := Filter(attempts, KeyIs(ExamOf, exam.id));
              && r.value.attempts == |mine| > 0
              && r.value.highestScore == MaxOf(Scores(mine)) && r.value.lowestScore == MinOf(Scores(mine))
              && r.value.lowestScore <= r.value.avgScore <= r.value.highestScore
              && r.value.avgScore == RoundedMean(Scores(mine))
              && 0 <= r.value.passRate <= 100 && r.value.passRate == Percent(|Filter(mine, Passed)|, |mine|)
  {
    var mine := Filter(attempts, KeyIs(ExamOf, exam.id));
    if |mine| == 0 then
      None
    else
      assert mine[0] in mine && KeyIs(ExamOf, exam.id)(mine[0]);
      RoundedMeanBetween(Scores(mine));
      Some(ExamAnalytics(|mine|, RoundedMean(Scores(mine)), Percent(|Filter(mine, Passed)|, |mine|),
                         MaxOf(Scores(mine)), MinOf(Scores(mine))))
  }

  // ---------------------------------------------------------------- score distribution

  datatype ScoreRange = ScoreRange(caption: string, min: int, max: int, count: nat)

  /** The five bands, with their counts at zero. */
  const Ranges: seq<ScoreRange> := [
    ScoreRange("0-20%", 0, 20, 0),
    ScoreRange("21-40%", 21, 40, 0),
    ScoreRange("41-60%", 41, 60, 0),
    ScoreRange("61-80%", 61, 80, 0),
    ScoreRange("81-100%", 81, 100, 0)
  ]

  predicate InRange(r: ScoreRange, score: int) {
    r.min <= score <= r.max
  }

  /** `ranges.find(r => score >= r.min && score <= r.max)`, as an index. */
  function FindRange(ranges: seq<ScoreRange>, score: int): (r: Option<nat>)
    ensures r.Some? ==> r.value < |ranges| && InRange(ranges[r.value], score)
    ensures r.Some? ==> forall j :: 0 <= j < r.value ==> !InRange(ranges[j], score)
    ensures r.None? <==> forall j :: 0 <= j < |ranges| ==> !InRange(ranges[j], score)
  {
    if ranges == [] then None
    else if InRange(ranges[0], score) then Some(0)
    else
      var r := FindRange(ranges[1..], score);
      assert forall j :: 1 <= j < |ranges| ==> ranges[j] == ranges[1..][j - 1];
      if r.None? then None else Some(r.value + 1)
  }

  /** The bands split 0..100 exactly: every score in it is in exactly one band, and no
      other score is in any. */
  lemma RangesPartition(score: int)
    ensures FindRange(Ranges, score).Some? <==> 0 <= score <= 100
    ensures forall b, c :: 0 <= b < c < |Ranges| ==> !(InRange(Ranges[b], score) && InRange(Ranges[c], score))
  {
    if 0 <= score <= 100 {
      var b := if score <= 20 then 0 else if score <= 40 then 1 else if score <= 60 then 2 else if score <= 80 then 3 else 4;
      assert InRange(Ranges[b], score);
    } else {
      assert forall j :: 0 <= j < |Ranges| ==> !InRange(Ranges[j], score);
    }
  }

  /** How many of the attempts fall into band b. */
  function CountInRange(attempts: seq<ExamAttempt>, b: nat): (n: nat)
    ensures n <= |attempts|
  {
    if attempts == [] then 0
    else
      var n := |attempts| - 1;
      CountInRange(attempts[..n], b) + if FindRange(Ranges, attempts[n].score) == Some(b) then 1 else 0
  }

  /** The ranges hold the five bands with the counts over the given attempts. */
  predicate Counted(ranges: seq<ScoreRange>, attempts: seq<ExamAttempt>) {
    |ranges| == |Ranges| && forall b :: 0 <= b < |ranges| ==> ranges[b] == Ranges[b].(count := CountInRange(attempts, b))
  }

  predicate SameBounds(ranges: seq<ScoreRange>, others: seq<ScoreRange>) {
    |ranges| == |others| && forall b :: 0 <= b < |ranges| ==> ranges[b].min == others[b].min && ranges[b].max == others[b].max
  }

  /** Which band is found depends only on the bands' bounds, not on their counts. */
  lemma {:induction false} FindRangeBounds(ranges: seq<ScoreRange>, others: seq<ScoreRange>, score: int)
    requires SameBounds(ranges, others)
    ensures FindRange(ranges, score) == FindRange(others, score)
  {
    if ranges != [] && !InRange(ranges[0], score) {
      FindRangeBounds(ranges[1..], others[1..], score);
    }
  }

  lemma CountInRangeSnoc(seen: seq<ExamAttempt>, x: ExamAttempt, b: nat)
    ensures CountInRange(seen + [x], b) == CountInRange(seen, b) + if FindRange(Ranges, x.score) == Some(b) then 1 else 0
  {
    assert (seen + [x])[..|seen|] == seen;
  }

  /** One turn of the `forEach`: bumping the band found for the next attempt counts it. */
  lemma CountStep(before: seq<ScoreRange>, after: seq<ScoreRange>, attempts: seq<ExamAttempt>, i: nat)
    requires i < |attempts| && Counted(before, attempts[..i])
    requires var found := FindRange(before, attempts[i].score);
             after == if found.Some? then before[found.value := before[found.value].(count := before[found.value].count + 1)]
                      else before
    ensures Counted(after, attempts[..i + 1])
  {
    var x, seen := attempts[i], attempts[..i];
    PrefixSnoc(attempts, i);
    FindRangeBounds(before, Ranges, x.score);
    var found := FindRange(Ranges, x.score);
    forall b | 0 <= b < |Ranges| ensures after[b] == Ranges[b].(count := CountInRange(seen + [x], b)) {
      CountInRangeSnoc(seen, x, b);
      if found == Some(b) {
        assert after[b] == before[b].(count := before[b].count + 1);
      } else {
        assert after[b] == before[b];
      }
    }
  }

  /** `getScoreDistribution()`: each attempt bumps the count of the first band holding its score. */
  method ScoreDistribution(attempts: seq<ExamAttempt>) returns (ranges: seq<ScoreRange>)
    ensures |ranges| == |Ranges|
    ensures forall b :: 0 <= b < |ranges| ==> ranges[b] == Ranges[b].(count := CountInRange(attempts, b))
  {
    ranges := Ranges;
    for i := 0 to |attempts|
      invariant Counted(ranges, attempts[..i])
    {
      ghost var before := ranges;
      var found := FindRange(ranges, attempts[i].score);
      if found.Some? {
        var b := found.value;
        ranges := ranges[b := ranges[b].(count := ranges[b].count + 1)];
      }
      CountStep(before, ranges, attempts, i);
    }
    assert attempts[..|attempts|] == attempts;
  }

  function CountTotal(attempts: seq<ExamAttempt>): nat {
    CountInRange(attempts, 0) + CountInRange(attempts, 1) + CountInRange(attempts, 2) + CountInRange(attempts, 3) + CountInRange(attempts, 4)
  }

  predicate ScoreInPercentRange(a: ExamAttempt) {
    0 <= a.score <= 100
  }

  /** The band counts add up to the number of attempts with a score from 0 to 100 (all of
      them, for scores the exam page computes). */
  lemma {:induction false} DistributionTotal(attempts: seq<ExamAttempt>)
    ensures CountTotal(attempts) == |Filter(attempts, ScoreInPercentRange)|
  {
    if attempts != [] {
      var n := |attempts| - 1;
      DistributionTotal(attempts[..n]);
      RangesPartition(attempts[n].score);
    }
  }

  /** `Math.max(...counts, 1)`: the bar scale, at least 1 and at least every count. */
  function MaxDistCount(ranges: seq<ScoreRange>): (m: nat)
    ensures m >= 1 && forall b :: 0 <= b < |ranges| ==> ranges[b].count <= m
    ensures m == 1 || exists b :: 0 <= b < |ranges| && ranges[b].count == m
  {
    if ranges == [] then 1
    else
      var rest := MaxDistCount(ranges[1..]);
      assert forall b :: 1 <= b < |ranges| ==> ranges[b] == ranges[1..][b - 1];
      if ranges[0].count > rest then ranges[0].count else rest
  }
}
