/** A student's results page: their completed attempts, latest first, and one summary per
    exam (attempt count, best score, latest attempt), the summaries ordered by their latest
    attempt date. */
module MyResults {
  import opened Wrappers
  import opened Types
  import opened Records
  import opened Sorting
  import opened Stats
  import Storage

  const UnknownExam: string := "Unknown Exam"

  datatype AttemptWithExam = AttemptWithExam(attempt: ExamAttempt, examTitle: string)

  datatype ExamSummary = ExamSummary(examId: string, examTitle: string, attemptCount: nat, bestScore: int,
                                     latestScore: int, latestAttemptId: string, lastAttemptDate: int)

  // ---------------------------------------------------------------- the completed attempts

  /** `completed_at!` as a timestamp. */
  function DateOf(a: ExamAttempt): int {
    if a.completed_at.Some? then a.completed_at.value else 0
  }

  /** `a.student_id === studentId && a.completed_at`. */
  function CompletedBy(studentId: string): ExamAttempt -> bool {
    (a: ExamAttempt) => a.student_id == studentId && a.completed_at.Some?
  }

  /** The comparator `date(b) - date(a)`: later attempts first. */
  predicate LaterFirst(a: ExamAttempt, b: ExamAttempt) {
    DateOf(b) <= DateOf(a)
  }

  lemma LaterFirstTotal()
    ensures TotalPreorder(LaterFirst)
  {
  }

  /** `exam?.title || 'Unknown Exam'`. */
  function TitleOf(store: Storage.RecordStore, examId: string): (t: string)
    reads store
    ensures t != ""
    ensures store.GetExam(examId).Some? && store.GetExam(examId).value.title != "" ==> t == store.GetExam(examId).value.title
    ensures store.GetExam(examId).None? || store.GetExam(examId).value.title == "" ==> t == UnknownExam
  {
    match store.GetExam(examId)
    case Some(e) => if e.title != "" then e.title else UnknownExam
    case None => UnknownExam
  }

  function WithTitles(store: Storage.RecordStore, attempts: seq<ExamAttempt>): (ws: seq<AttemptWithExam>)
    reads store
    ensures |ws| == |attempts|
    ensures forall i :: 0 <= i < |ws| ==> ws[i] == AttemptWithExam(attempts[i], TitleOf(store, attempts[i].exam_id))
  {
    seq(|attempts|, i requires 0 <= i < |attempts| reads store =>
      AttemptWithExam(attempts[i], TitleOf(store, attempts[i].exam_id)))
  }

  function AttemptsOf(ws: seq<AttemptWithExam>): (as_: seq<ExamAttempt>)
    ensures |as_| == |ws| && forall i :: 0 <= i < |ws| ==> as_[i] == ws[i].attempt
  {
    seq(|ws|, i requires 0 <= i < |ws| => ws[i].attempt)
  }

  function ExamIdOf(w: AttemptWithExam): string {
    w.attempt.exam_id
  }

  // ---------------------------------------------------------------- what one summary holds

  /** Position i of ws is an attempt at exam k. */
  predicate InGroup(ws: seq<AttemptWithExam>, k: string, i: int) {
    0 <= i < |ws| && ws[i].attempt.exam_id == k
  }

  /** The number of attempts at exam k. */
  function CountExam(ws: seq<AttemptWithExam>, k: string): nat {
    if ws == [] then 0
    else CountExam(ws[..|ws| - 1], k) + (if ws[|ws| - 1].attempt.exam_id == k then 1 else 0)
  }

  /** The latest-attempt fields of s are those of w. */
  predicate LatestIs(s: ExamSummary, w: AttemptWithExam) {
    s.latestScore == w.attempt.score && s.latestAttemptId == w.attempt.id && s.lastAttemptDate == DateOf(w.attempt)
  }

  /** Position i holds the first attempt at exam k with the greatest date. */
  ghost predicate FirstLatest(ws: seq<AttemptWithExam>, k: string, i: int) {
    && InGroup(ws, k, i)
    && (forall j :: InGroup(ws, k, j) ==> DateOf(ws[j].attempt) <= DateOf(ws[i].attempt))
    && (forall j :: 0 <= j < i && InGroup(ws, k, j) ==> DateOf(ws[j].attempt) < DateOf(ws[i].attempt))
  }

  /** title is the title of the first attempt at exam k. */
  ghost predicate FirstTitle(ws: seq<AttemptWithExam>, k: string, title: string) {
    exists i :: InGroup(ws, k, i) && title == ws[i].examTitle && forall j :: 0 <= j < i ==> !InGroup(ws, k, j)
  }

  /** best is the greatest score of the attempts at exam k. */
  ghost predicate BestScore(ws: seq<AttemptWithExam>, k: string, best: int) {
    && (exists i :: InGroup(ws, k, i) && best == ws[i].attempt.score)
    && (forall i :: InGroup(ws, k, i) ==> ws[i].attempt.score <= best)
  }

  /** The latest-attempt fields of s are those of the first attempt at exam k with the latest date. */
  ghost predicate LatestOf(ws: seq<AttemptWithExam>, k: string, s: ExamSummary) {
    exists i :: FirstLatest(ws, k, i) && LatestIs(s, ws[i])
  }

  /** s is the summary of exam k over the attempts ws: its id, the number of attempts, the
      title of the first one, the best score, and the first attempt with the latest date. */
  ghost predicate SummaryOf(ws: seq<AttemptWithExam>, k: string, s: ExamSummary) {
    && s.examId == k
    && s.attemptCount == CountExam(ws, k)
    && FirstTitle(ws, k, s.examTitle)
    && BestScore(ws, k, s.bestScore)
    && LatestOf(ws, k, s)
  }

  /** The entry a first attempt at an exam creates. */
  function NewSummary(w: AttemptWithExam): ExamSummary {
    ExamSummary(w.attempt.exam_id, w.examTitle, 1, w.attempt.score, w.attempt.score, w.attempt.id, DateOf(w.attempt))
  }

  /** The in-place update a further attempt makes: one more attempt, the larger best score,
      and the latest fields replaced only by a strictly later attempt. */
  function Updated(s: ExamSummary, w: AttemptWithExam): ExamSummary {
    var s' := s.(attemptCount := s.attemptCount + 1,
                 bestScore := if s.bestScore >= w.attempt.score then s.bestScore else w.attempt.score);
    if DateOf(w.attempt) > s.lastAttemptDate
    then s'.(latestScore := w.attempt.score, latestAttemptId := w.attempt.id, lastAttemptDate := DateOf(w.attempt))
    else s'
  }

  lemma {:induction false} CountExamZero(ws: seq<AttemptWithExam>, k: string)
    requires forall i :: 0 <= i < |ws| ==> ws[i].attempt.exam_id != k
    ensures CountExam(ws, k) == 0
  {
    if ws != [] {
      CountExamZero(ws[..|ws| - 1], k);
    }
  }

  lemma InGroupAppend(ws: seq<AttemptWithExam>, w: AttemptWithExam, k: string)
    ensures forall i :: 0 <= i < |ws| ==> (InGroup(ws + [w], k, i) <==> InGroup(ws, k, i))
    ensures forall i :: 0 <= i < |ws| ==> (ws + [w])[i] == ws[i]
    ensures InGroup(ws + [w], k, |ws|) <==> w.attempt.exam_id == k
    ensures CountExam(ws + [w], k) == CountExam(ws, k) + (if w.attempt.exam_id == k then 1 else 0)
  {
    assert (ws + [w])[..|ws|] == ws;
  }

  /** A later attempt never changes which attempt at exam k came first. */
  lemma FirstTitleAppend(ws: seq<AttemptWithExam>, w: AttemptWithExam, k: string, title: string)
    requires FirstTitle(ws, k, title)
    ensures FirstTitle(ws + [w], k, title)
  {
    InGroupAppend(ws, w, k);
    var t :| InGroup(ws, k, t) && title == ws[t].examTitle && forall j :: 0 <= j < t ==> !InGroup(ws, k, j);
    assert InGroup(ws + [w], k, t) && title == (ws + [w])[t].examTitle;
  }

  /** The best score after one more attempt: the larger of the two for its own exam. */
  lemma BestScoreAppend(ws: seq<AttemptWithExam>, w: AttemptWithExam, k: string, best: int)
    requires BestScore(ws, k, best)
    ensures BestScore(ws + [w], k, if k == w.attempt.exam_id && best < w.attempt.score then w.attempt.score else best)
  {
    InGroupAppend(ws, w, k);
    var b :| InGroup(ws, k, b) && best == ws[b].attempt.score;
    assert InGroup(ws + [w], k, b) && (ws + [w])[b] == ws[b];
    assert k == w.attempt.exam_id ==> InGroup(ws + [w], k, |ws|) && (ws + [w])[|ws|] == w;
  }

  /** The latest attempt after one more: the new one only when it is strictly later. */
  lemma LatestAppend(ws: seq<AttemptWithExam>, w: AttemptWithExam, k: string, s: ExamSummary)
    requires LatestOf(ws, k, s)
    ensures k != w.attempt.exam_id || DateOf(w.attempt) <= s.lastAttemptDate ==> LatestOf(ws + [w], k, s)
    ensures k == w.attempt.exam_id && DateOf(w.attempt) > s.lastAttemptDate ==> FirstLatest(ws + [w], k, |ws|)
  {
    InGroupAppend(ws, w, k);
    var l :| FirstLatest(ws, k, l) && LatestIs(s, ws[l]);
    if k != w.attempt.exam_id || DateOf(w.attempt) <= s.lastAttemptDate {
      assert FirstLatest(ws + [w], k, l) && LatestIs(s, (ws + [w])[l]);
    } else {
      assert (ws + [w])[|ws|] == w;
    }
  }

  /** An attempt at another exam leaves a summary as it is. */
  lemma SummaryOther(ws: seq<AttemptWithExam>, w: AttemptWithExam, k: string, s: ExamSummary)
    requires SummaryOf(ws, k, s) && w.attempt.exam_id != k
    ensures SummaryOf(ws + [w], k, s)
  {
    InGroupAppend(ws, w, k);
    FirstTitleAppend(ws, w, k, s.examTitle);
    BestScoreAppend(ws, w, k, s.bestScore);
    LatestAppend(ws, w, k, s);
  }

  /** The first attempt at an exam creates its summary. */
  lemma SummaryNew(ws: seq<AttemptWithExam>, w: AttemptWithExam)
    requires forall i :: 0 <= i < |ws| ==> ws[i].attempt.exam_id != w.attempt.exam_id
    ensures SummaryOf(ws + [w], w.attempt.exam_id, NewSummary(w))
  {
    var k := w.attempt.exam_id;
    InGroupAppend(ws, w, k);
    CountExamZero(ws, k);
    var v := ws + [w];
    assert InGroup(v, k, |ws|) && v[|ws|] == w;
    assert FirstLatest(v, k, |ws|);
  }

  /** A further attempt at an exam updates its summary in place. */
  lemma SummaryUpdate(ws: seq<AttemptWithExam>, w: AttemptWithExam, s: ExamSummary)
    requires SummaryOf(ws, w.attempt.exam_id, s)
    ensures SummaryOf(ws + [w], w.attempt.exam_id, Updated(s, w))
  {
    var k := w.attempt.exam_id;
    InGroupAppend(ws, w, k);
    FirstTitleAppend(ws, w, k, s.examTitle);
    BestScoreAppend(ws, w, k, s.bestScore);
    LatestAppend(ws, w, k, s);
    var u := Updated(s, w);
    if DateOf(w.attempt) > s.lastAttemptDate {
      assert LatestIs(u, (ws + [w])[|ws|]);
    } else {
      var l :| FirstLatest(ws + [w], k, l) && LatestIs(s, (ws + [w])[l]);
      assert LatestIs(u, (ws + [w])[l]);
    }
  }

  // ---------------------------------------------------------------- grouping

  /** The state after the `forEach` has seen ws: the keys in insertion order, and the
      summary of each exam seen. */
  ghost predicate Grouped(ws: seq<AttemptWithExam>, examMap: map<string, ExamSummary>, order: seq<string>) {
    && order == Dedup(Keys(ws, ExamIdOf))
    && KeysMatch(examMap, order)
    && Summaries(ws, examMap)
  }

  /** The map's keys are the ids listed in order. */
  ghost predicate KeysMatch(examMap: map<string, ExamSummary>, order: seq<string>) {
    forall k :: k in examMap <==> k in order
  }

  /** Every entry of the map is the summary of its exam over ws. */
  ghost predicate Summaries(ws: seq<AttemptWithExam>, examMap: map<string, ExamSummary>) {
    forall k :: k in examMap ==> SummaryOf(ws, k, examMap[k])
  }

  /** No attempt in ws is at an exam missing from the ids of ws. */
  lemma NotSeen(ws: seq<AttemptWithExam>, k: string)
    requires k !in Keys(ws, ExamIdOf)
    ensures forall j :: 0 <= j < |ws| ==> ws[j].attempt.exam_id != k
  {
    forall j | 0 <= j < |ws| ensures ws[j].attempt.exam_id != k {
      assert Keys(ws, ExamIdOf)[j] == ws[j].attempt.exam_id;
    }
  }

  /** The insertion order grows by an exam id exactly when the exam is new. */
  lemma OrderStep(ws: seq<AttemptWithExam>, w: AttemptWithExam)
    ensures Dedup(Keys(ws + [w], ExamIdOf)) ==
            if w.attempt.exam_id in Keys(ws, ExamIdOf) then Dedup(Keys(ws, ExamIdOf))
            else Dedup(Keys(ws, ExamIdOf)) + [w.attempt.exam_id]
  {
    KeysSnoc(ws, w, ExamIdOf);
    DedupStep(Keys(ws, ExamIdOf), w.attempt.exam_id);
  }

  /** After one turn of the `forEach` the other exams' entries still describe their exams, and
      the entry set for the attempt's exam is the one given. */
  lemma SummariesStep(ws: seq<AttemptWithExam>, w: AttemptWithExam, examMap: map<string, ExamSummary>, s: ExamSummary,
                       m: map<string, ExamSummary>)
    requires Summaries(ws, examMap)
    requires SummaryOf(ws + [w], w.attempt.exam_id, s) && m == examMap[w.attempt.exam_id := s]
    ensures Summaries(ws + [w], m)
  {
    forall k | k in m ensures SummaryOf(ws + [w], k, m[k]) {
      if k != w.attempt.exam_id {
        SummaryOther(ws, w, k, examMap[k]);
      }
    }
  }

  /** One turn of the `forEach` on an exam not seen yet: a new entry. */
  lemma GroupStepNew(ws: seq<AttemptWithExam>, w: AttemptWithExam, examMap: map<string, ExamSummary>, order: seq<string>)
    requires Grouped(ws, examMap, order) && w.attempt.exam_id !in examMap
    ensures Grouped(ws + [w], examMap[w.attempt.exam_id := NewSummary(w)], order + [w.attempt.exam_id])
  {
    OrderStep(ws, w);
    NotSeen(ws, w.attempt.exam_id);
    SummaryNew(ws, w);
    SummariesStep(ws, w, examMap, NewSummary(w), examMap[w.attempt.exam_id := NewSummary(w)]);
  }

  /** One turn of the `forEach` on an exam already seen: its entry is updated in place. */
  lemma GroupStepUpdate(ws: seq<AttemptWithExam>, w: AttemptWithExam, examMap: map<string, ExamSummary>, order: seq<string>)
    requires Grouped(ws, examMap, order) && w.attempt.exam_id in examMap
    ensures Grouped(ws + [w], examMap[w.attempt.exam_id := Updated(examMap[w.attempt.exam_id], w)], order)
  {
    OrderStep(ws, w);
    SummaryUpdate(ws, w, examMap[w.attempt.exam_id]);
    var k := w.attempt.exam_id;
    SummariesStep(ws, w, examMap, Updated(examMap[k], w), examMap[k := Updated(examMap[k], w)]);
  }

  /** The `examMap` filled by the `forEach` over the attempts, with its keys in insertion order. */
  method GroupByExam(ws: seq<AttemptWithExam>) returns (examMap: map<string, ExamSummary>, order: seq<string>)
    ensures order == Dedup(Keys(ws, ExamIdOf))
    ensures forall k :: k in examMap <==> k in order
    ensures forall k :: k in examMap ==> SummaryOf(ws, k, examMap[k])
  {
    examMap, order := map[], [];
    for i := 0 to |ws|
      invariant Grouped(ws[..i], examMap, order)
    {
      var w := ws[i];
      var k := w.attempt.exam_id;
      assert ws[..i + 1] == ws[..i] + [w];
      if k !in examMap {
        GroupStepNew(ws[..i], w, examMap, order);
        examMap := examMap[k := NewSummary(w)];
        order := order + [k];
      } else {
        GroupStepUpdate(ws[..i], w, examMap, order);
        examMap := examMap[k := Updated(examMap[k], w)];
      }
    }
    assert ws[..|ws|] == ws;
  }

  /** The total of the attempt counts of a list of summaries. */
  function AttemptTotal(rs: seq<ExamSummary>): nat {
    if rs == [] then 0 else AttemptTotal(rs[..|rs| - 1]) + rs[|rs| - 1].attemptCount
  }

  lemma {:induction false} AttemptTotalAppend(a: seq<ExamSummary>, b: seq<ExamSummary>)
    ensures AttemptTotal(a + b) == AttemptTotal(a) + AttemptTotal(b)
  {
    if b != [] {
      assert (a + b)[..|a + b| - 1] == a + b[..|b| - 1];
      AttemptTotalAppend(a, b[..|b| - 1]);
    } else {
      assert a + b == a;
    }
  }

  /** Reordering summaries keeps their total. */
  lemma {:induction false} AttemptTotalPermutation(a: seq<ExamSummary>, b: seq<ExamSummary>)
    requires multiset(a) == multiset(b)
    ensures AttemptTotal(a) == AttemptTotal(b)
  {
    if a != [] {
      var n := |a| - 1;
      var x := a[n];
      assert a == a[..n] + [x];
      assert x in multiset(b);
      var j :| 0 <= j < |b| && b[j] == x;
      assert b == b[..j] + [x] + b[j + 1..];
      var b' := b[..j] + b[j + 1..];
      assert multiset(b') == multiset(b) - multiset{x};
      assert multiset(a[..n]) == multiset(a) - multiset{x};
      AttemptTotalPermutation(a[..n], b');
      AttemptTotalAppend(b[..j] + [x], b[j + 1..]);
      AttemptTotalAppend(b[..j], [x]);
      AttemptTotalAppend(b[..j], b[j + 1..]);
    } else {
      assert |b| == |multiset(b)|;
    }
  }

  /** The summaries of ks over ws, counted. */
  function CountsOver(ws: seq<AttemptWithExam>, ks: seq<string>): nat {
    if ks == [] then 0 else CountsOver(ws, ks[..|ks| - 1]) + CountExam(ws, ks[|ks| - 1])
  }

  lemma {:induction false} CountsOverStep(ws: seq<AttemptWithExam>, w: AttemptWithExam, ks: seq<string>)
    requires forall i, j :: 0 <= i < j < |ks| ==> ks[i] != ks[j]
    ensures CountsOver(ws + [w], ks) == CountsOver(ws, ks) + (if w.attempt.exam_id in ks then 1 else 0)
  {
    if ks != [] {
      var p := ks[..|ks| - 1];
      CountsOverStep(ws, w, p);
      InGroupAppend(ws, w, ks[|ks| - 1]);
      assert w.attempt.exam_id in ks <==> w.attempt.exam_id in p || w.attempt.exam_id == ks[|ks| - 1];
    }
  }

  /** Every attempt is counted in exactly one summary. */
  lemma {:induction false} CountsCoverAll(ws: seq<AttemptWithExam>)
    ensures CountsOver(ws, Dedup(Keys(ws, ExamIdOf))) == |ws|
  {
    if ws != [] {
      var p, w := ws[..|ws| - 1], ws[|ws| - 1];
      var k := w.attempt.exam_id;
      Snoc(ws);
      OrderStep(p, w);
      CountsCoverAll(p);
      var d := Dedup(Keys(p, ExamIdOf));
      CountsOverStep(p, w, d);
      if k !in Keys(p, ExamIdOf) {
        NotSeen(p, k);
        CountExamZero(p, k);
        InGroupAppend(p, w, k);
        assert (d + [k])[..|d|] == d;
      }
    }
  }

  /** The summaries in key order carry the counts of their keys. */
  lemma {:induction false} TotalOfValues(ws: seq<AttemptWithExam>, examMap: map<string, ExamSummary>, order: seq<string>)
    requires forall k :: k in order ==> k in examMap && examMap[k].attemptCount == CountExam(ws, k)
    ensures AttemptTotal(ValuesOf(examMap, order)) == CountsOver(ws, order)
  {
    if order != [] {
      var p := order[..|order| - 1];
      TotalOfValues(ws, examMap, p);
      var vs, ps := ValuesOf(examMap, order), ValuesOf(examMap, p);
      assert forall i :: 0 <= i < |ps| ==> vs[..|p|][i] == ps[i];
      assert vs[..|p|] == ps;
    }
  }

  function SummaryId(s: ExamSummary): string {
    s.examId
  }

  /** `Array.from(examMap.values())`: the summaries in key insertion order. */
  function ValuesOf(examMap: map<string, ExamSummary>, order: seq<string>): (vs: seq<ExamSummary>)
    requires forall k :: k in order ==> k in examMap
    ensures |vs| == |order| && forall i :: 0 <= i < |order| ==> vs[i] == examMap[order[i]]
  {
    seq(|order|, i requires 0 <= i < |order| => examMap[order[i]])
  }

  /** The grouped summaries in insertion order: one per exam attempted, each describing its
      exam. */
  lemma ValuesFacts(ws: seq<AttemptWithExam>, examMap: map<string, ExamSummary>, order: seq<string>)
    requires order == Dedup(Keys(ws, ExamIdOf))
    requires forall k :: k in examMap <==> k in order
    requires forall k :: k in examMap ==> SummaryOf(ws, k, examMap[k])
    ensures Keys(ValuesOf(examMap, order), SummaryId) == order
    ensures UniqueKeys(ValuesOf(examMap, order), SummaryId)
    ensures forall r :: r in ValuesOf(examMap, order) ==> SummaryOf(ws, r.examId, r)
  {
    var vs := ValuesOf(examMap, order);
    assert forall k :: k in examMap ==> examMap[k].examId == k;
    assert Keys(vs, SummaryId) == order;
  }

  /** A list holding the same summaries as the insertion-ordered values has one summary for
      every exam attempted and no other. */
  lemma IdsCovered(ws: seq<AttemptWithExam>, values: seq<ExamSummary>, results: seq<ExamSummary>)
    requires Keys(values, SummaryId) == Dedup(Keys(ws, ExamIdOf))
    requires forall r :: r in results <==> r in values
    ensures forall k :: (exists r :: r in results && r.examId == k) <==> k in Keys(ws, ExamIdOf)
  {
    forall k | k in Keys(ws, ExamIdOf) ensures exists r :: r in results && r.examId == k {
      var i :| 0 <= i < |values| && Keys(values, SummaryId)[i] == k;
      assert values[i] in results;
    }
    forall r | r in results ensures r.examId in Keys(ws, ExamIdOf) {
      var i :| 0 <= i < |values| && values[i] == r;
      assert Keys(values, SummaryId)[i] == r.examId;
    }
  }

  // ---------------------------------------------------------------- the page

  /** The comparator on summaries: later `lastAttemptDate` first. */
  predicate LastDateFirst(a: ExamSummary, b: ExamSummary) {
    b.lastAttemptDate <= a.lastAttemptDate
  }

  lemma LastDateFirstTotal()
    ensures TotalPreorder(LastDateFirst)
  {
  }

  /** The summaries of `loadResults()`: `examMap`'s values ordered by latest attempt date. */
  method SummariseByExam(completed: seq<AttemptWithExam>) returns (results: seq<ExamSummary>)
    ensures forall k :: (exists r :: r in results && r.examId == k) <==> k in Keys(completed, ExamIdOf)
    ensures forall i, j :: 0 <= i < j < |results| ==> results[i].examId != results[j].examId
    ensures forall r :: r in results ==> SummaryOf(completed, r.examId, r)
    ensures AttemptTotal(results) == |completed|
    ensures Sorted(results, LastDateFirst)
  {
    var examMap, order := GroupByExam(completed);
    var values := ValuesOf(examMap, order);
    ValuesFacts(completed, examMap, order);
    TotalOfValues(completed, examMap, order);
    CountsCoverAll(completed);
    LastDateFirstTotal();
    SortBySorted(values, LastDateFirst);
    results := SortBy(values, LastDateFirst);
    PermutationKeepsUniqueKeys(values, results, SummaryId);
    forall r ensures r in results <==> r in values {
      assert r in results <==> r in multiset(results);
    }
    AttemptTotalPermutation(values, results);
    IdsCovered(completed, values, results);
  }

  /** `loadResults()`: nothing without a signed-in user id; otherwise the student's
      completed attempts with their exam titles, latest first, and their summaries. */
  method LoadResults(store: Storage.RecordStore, userId: Option<string>)
    returns (completed: seq<AttemptWithExam>, results: seq<ExamSummary>)
    ensures !Truthy(userId) ==> completed == [] && results == []
    ensures Truthy(userId) ==>
              && multiset(AttemptsOf(completed)) == multiset(Filter(store.attempts, CompletedBy(userId.value)))
              && Sorted(AttemptsOf(completed), LaterFirst)
              && forall i :: 0 <= i < |completed| ==>
                   completed[i].examTitle == TitleOf(store, completed[i].attempt.exam_id)
    ensures forall k :: (exists r :: r in results && r.examId == k) <==> k in Keys(completed, ExamIdOf)
    ensures forall i, j :: 0 <= i < j < |results| ==> results[i].examId != results[j].examId
    ensures forall r :: r in results ==> SummaryOf(completed, r.examId, r)
    ensures AttemptTotal(results) == |completed|
    ensures Sorted(results, LastDateFirst)
  {
    if !Truthy(userId) {
      return [], [];
    }
    var mine := Filter(store.attempts, CompletedBy(userId.value));
    LaterFirstTotal();
    SortBySorted(mine, LaterFirst);
    var sorted := SortBy(mine, LaterFirst);
    completed := WithTitles(store, sorted);
    assert AttemptsOf(completed) == sorted;
    results := SummariseByExam(completed);
  }

  // ---------------------------------------------------------------- badges and the average

  /** `getScoreVariant(score)`. */
  function ScoreVariant(score: int): (v: string)
    ensures v == "success" <==> score >= 70
    ensures v == "warning" <==> 50 <= score < 70
    ensures v == "error" <==> score < 50
  {
    if score >= 70 then "success" else if score >= 50 then "warning" else "error"
  }

  function ScoresOf(ws: seq<AttemptWithExam>): (s: seq<int>)
    ensures |s| == |ws| && forall i :: 0 <= i < |ws| ==> s[i] == ws[i].attempt.score
  {
    seq(|ws|, i requires 0 <= i < |ws| => ws[i].attempt.score)
  }

  /** `avgScore`: the rounded mean score, or 0 without attempts. */
  function AvgScore(completed: seq<AttemptWithExam>): (r: int)
    ensures completed == [] ==> r == 0
    ensures completed != [] ==> MinOf(ScoresOf(completed)) <= r <= MaxOf(ScoresOf(completed))
    ensures completed != [] ==> r == RoundedMean(ScoresOf(completed))
  {
    if |completed| > 0 then
      RoundedMeanBetween(ScoresOf(completed));
      RoundedMean(ScoresOf(completed))
    else 0
  }
}
