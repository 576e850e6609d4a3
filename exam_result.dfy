/** The result page of one attempt: the exam title, the correct-answer count, the
    percentage, the time taken, and for every question of the exam the answer given and the
    correct answer. */
module ExamResult {
  import opened Wrappers
  import opened Types
  import opened Records
  import opened Text
  import opened Stats
  import Score
  import Storage
  import TakeExam

  const AttemptNotFound: string := "Attempt not found"
  const ExamNotFound: string := "Exam not found"
  const NotAnswered: string := "Not answered"
  const Unknown: string := "Unknown"

  datatype ResultDetail = ResultDetail(question: string, userAnswer: string, correctAnswer: string, isCorrect: bool)

  datatype ResultView = ResultView(examTitle: string, score: int, total: int, percentage: int,
                                   timeTaken: int, results: seq<ResultDetail>)

  /** `${option_letter}. ${text}`: never one of the two placeholder texts. */
  function OptionLabel(o: AnswerOption): (s: string)
    ensures s != NotAnswered && s != Unknown
  {
    var s := [o.option_letter] + ". " + o.text;
    assert s[1] == '.';
    s
  }

  /** The option shown as the answer to question qid: the first answer for qid, then the
      first option carrying the id it selected. */
  function AnsweredOption(answers: seq<StudentAnswer>, options: seq<AnswerOption>, qid: string): (r: Option<AnswerOption>)
    ensures r.Some? ==> r.value in options
    ensures r.Some? ==> exists a :: a in answers && a.question_id == qid && a.selected_option_id == r.value.id
    ensures (forall a :: a in answers ==> a.question_id != qid) ==> r == None
    ensures UniqueKeys(answers, AnswerQuestion) ==>
              (r.None? <==> forall a, o :: a in answers && a.question_id == qid && o in options ==> o.id != a.selected_option_id)
  {
    var r := match Find(answers, AnswerQuestion, qid)
      case None => None
      case Some(a) => Find(options, OptionKey, a.selected_option_id);
    assert UniqueKeys(answers, AnswerQuestion) && r.None? ==>
             forall a, o :: a in answers && a.question_id == qid && o in options ==> o.id != a.selected_option_id by {
      if UniqueKeys(answers, AnswerQuestion) && r.None? {
        forall a, o | a in answers && a.question_id == qid && o in options ensures o.id != a.selected_option_id {
          var i :| 0 <= i < |answers| && answers[i] == a;
          FindUnique(answers, AnswerQuestion, i);
          var j :| 0 <= j < |options| && options[j] == o;
          assert Keys(options, OptionKey)[j] == o.id;
        }
      }
    }
    r
  }

  /** One row of the result list for question q, given the attempt's answers and q's options. */
  function DetailFor(answers: seq<StudentAnswer>, options: seq<AnswerOption>, q: Question): (d: ResultDetail)
    ensures d.question == q.text
    ensures d.userAnswer == NotAnswered <==> AnsweredOption(answers, options, q.id).None?
    ensures d.userAnswer != NotAnswered ==> d.userAnswer == OptionLabel(AnsweredOption(answers, options, q.id).value)
    ensures d.correctAnswer == Unknown <==> forall i :: 0 <= i < |options| ==> !options[i].is_correct
    ensures d.correctAnswer != Unknown ==>
              exists i :: 0 <= i < |options| && options[i].is_correct && d.correctAnswer == OptionLabel(options[i])
                       && forall j :: 0 <= j < i ==> !options[j].is_correct
    ensures d.isCorrect ==> exists a :: a in answers && a.question_id == q.id && a.is_correct
    ensures UniqueKeys(answers, AnswerQuestion) ==>
              (d.isCorrect <==> exists a :: a in answers && a.question_id == q.id && a.is_correct)
  {
    var answer := Find(answers, AnswerQuestion, q.id);
    var selected := AnsweredOption(answers, options, q.id);
    var correct := FirstWhere(options, IsCorrectOption);
    var d := ResultDetail(
      q.text,
      if selected.Some? then OptionLabel(selected.value) else NotAnswered,
      if correct.Some? then OptionLabel(correct.value) else Unknown,
      answer.Some? && answer.value.is_correct);
    assert UniqueKeys(answers, AnswerQuestion) && !d.isCorrect ==>
             forall a :: a in answers && a.question_id == q.id ==> !a.is_correct by {
      if UniqueKeys(answers, AnswerQuestion) && !d.isCorrect {
        forall a | a in answers && a.question_id == q.id ensures !a.is_correct {
          var i :| 0 <= i < |answers| && answers[i] == a;
          FindUnique(answers, AnswerQuestion, i);
        }
      }
    }
    d
  }

  /** The rows for the questions qs, each with its own options from the store. */
  function Details(store: Storage.RecordStore, answers: seq<StudentAnswer>, qs: seq<Question>): (r: seq<ResultDetail>)
    reads store
    ensures |r| == |qs|
    ensures forall i :: 0 <= i < |qs| ==> r[i] == DetailFor(answers, store.GetAnswerOptions(Some(qs[i].id)), qs[i])
  {
    seq(|qs|, i requires 0 <= i < |qs| reads store => DetailFor(answers, store.GetAnswerOptions(Some(qs[i].id)), qs[i]))
  }

  // ---------------------------------------------------------------- the correct-answer count

  /** The count as the page computes it, `Math.round(score / 100 * total_questions)`. */
  function ShownCorrectAsWritten(attempt: ExamAttempt): (n: int)
    ensures 200 * n - 100 <= 2 * (attempt.score * attempt.total_questions) < 200 * n + 100
  {
    RoundDiv(attempt.score * attempt.total_questions, 100)
  }

  /** Up to 100 questions the count read back from the rounded percentage is the count that
      was scored. */
  lemma ShownCorrectExactUpTo100(c: int, t: int)
    requires 1 <= t <= 100 && 0 <= c <= t
    ensures ShownCorrectAsWritten(ExamAttempt("", "", "", Score.CalculateScore(c, t), t, 0, None, None)) == c
  {
    var s := Score.CalculateScore(c, t);
    assert 2 * t * s - t <= 200 * c < 2 * t * s + t;
    assert 2 * t * s == 2 * (s * t);
    if t == 100 {
      assert s <= c;
    }
    RoundDivUnique(s * t, 100, c);
  }

  /** With 101 questions the percentage no longer determines the count: 50 and 51 correct
      answers both score 50, and the page shows 51 correct for a score of 50. */
  lemma ShownCorrectOffAt101()
    ensures Score.CalculateScore(50, 101) == 50 && Score.CalculateScore(51, 101) == 50
    ensures ShownCorrectAsWritten(ExamAttempt("", "", "", Score.CalculateScore(50, 101), 101, 0, None, None)) == 51
  {
    RoundDivUnique(100 * 50, 101, 50);
    RoundDivUnique(100 * 51, 101, 50);
    RoundDivUnique(50 * 101, 100, 51);
  }

  /** The corrected count: the attempt's answer records marked correct. */
  function CorrectCount(answers: seq<StudentAnswer>): (n: nat)
    ensures n <= |answers|
    ensures n == 0 <==> forall i :: 0 <= i < |answers| ==> !answers[i].is_correct
  {
    var f := Filter(answers, IsCorrectAnswer);
    assert (forall i :: 0 <= i < |answers| ==> !answers[i].is_correct) ==> f == [] by {
      if forall i :: 0 <= i < |answers| ==> !answers[i].is_correct {
        FilterNone(answers, IsCorrectAnswer);
      }
    }
    assert (exists i :: 0 <= i < |answers| && answers[i].is_correct) ==> |f| > 0 by {
      if i :| 0 <= i < |answers| && answers[i].is_correct {
        assert answers[i] in f;
      }
    }
    |f|
  }

  lemma {:induction false} CorrectRecordsCount(attemptId: string, drafts: seq<TakeExam.AnswerDraft>)
    ensures CorrectCount(TakeExam.AnswerRecords(attemptId, drafts)) == TakeExam.CountCorrect(drafts)
  {
    if drafts != [] {
      var n := |drafts| - 1;
      CorrectRecordsCount(attemptId, drafts[..n]);
      var rs := TakeExam.AnswerRecords(attemptId, drafts);
      assert rs[..n] == TakeExam.AnswerRecords(attemptId, drafts[..n]);
    }
  }

  /** Once a submit has stored its answers under a fresh attempt id, the corrected count of
      that attempt is the number of correct answers its score was computed from. */
  lemma CorrectCountOfSubmit(stored: seq<StudentAnswer>, attemptId: string, drafts: seq<TakeExam.AnswerDraft>)
    requires attemptId != ""
    requires forall i :: 0 <= i < |stored| ==> stored[i].attempt_id != attemptId
    requires forall i :: 0 <= i < |drafts| ==> TaggedId(attemptId, "-ans", i) !in Keys(stored, AnswerKey)
    ensures CorrectCount(Select(UpsertAll(stored, AnswerKey, TakeExam.AnswerRecords(attemptId, drafts)),
                                AnswerAttempt, Some(attemptId)))
            == TakeExam.CountCorrect(drafts)
  {
    var rs := TakeExam.AnswerRecords(attemptId, drafts);
    UpsertAllFresh(stored, AnswerKey, rs);
    SelectAppend(stored, rs, AnswerAttempt, Some(attemptId));
    FilterNone(stored, KeyIs(AnswerAttempt, attemptId));
    FilterAll(rs, KeyIs(AnswerAttempt, attemptId));
    assert Select(stored + rs, AnswerAttempt, Some(attemptId)) == rs;
    CorrectRecordsCount(attemptId, drafts);
  }

  // ---------------------------------------------------------------- loading

  /** `loadResults()` for the route parameter attemptId. */
  function LoadResults(store: Storage.RecordStore, attemptId: Option<string>): (r: Result<ResultView, string>)
    reads store
    ensures !Truthy(attemptId) ==> r == Failure(AttemptNotFound)
    ensures Truthy(attemptId) && Find(store.attempts, AttemptKey, attemptId.value).None? ==> r == Failure(AttemptNotFound)
    ensures Truthy(attemptId) && Find(store.attempts, AttemptKey, attemptId.value).Some? ==>
              var a := Find(store.attempts, AttemptKey, attemptId.value).value;
              (r.Success? <==> store.GetExam(a.exam_id).Some?) &&
              (r.Failure? ==> r.error == ExamNotFound)
    ensures r.Success? ==>
              var a := Find(store.attempts, AttemptKey, attemptId.value).value;
              var answers := store.GetAnswers(attemptId);
              var qs := store.GetQuestions(Some(a.exam_id));
              && a.id == attemptId.value
              && r.value.examTitle == store.GetExam(a.exam_id).value.title
              && r.value.total == a.total_questions && r.value.percentage == a.score
              && r.value.timeTaken == (if a.time_taken.Some? then a.time_taken.value else 0)
              && r.value.score == CorrectCount(answers)
              && |r.value.results| == |qs|
              && forall i :: 0 <= i < |qs| ==>
                   r.value.results[i] == DetailFor(answers, store.GetAnswerOptions(Some(qs[i].id)), qs[i])
  {
    if !Truthy(attemptId) then Failure(AttemptNotFound)
    else
      match Find(store.attempts, AttemptKey, attemptId.value)
      case None => Failure(AttemptNotFound)
      case Some(a) =>
        match store.GetExam(a.exam_id)
        case None => Failure(ExamNotFound)
        case Some(exam) =>
          var answers := store.GetAnswers(attemptId);
          var qs := store.GetQuestions(Some(a.exam_id));
          Success(ResultView(exam.title, CorrectCount(answers), a.total_questions, a.score,
                             if a.time_taken.Some? then a.time_taken.value else 0,
                             Details(store, answers, qs)))
  }

  // ---------------------------------------------------------------- time

  /** The minutes and seconds `formatTime` shows: `Math.floor(seconds / 60)` and `seconds % 60`. */
  function SplitTime(seconds: nat): (t: (nat, nat))
    ensures t.0 * 60 + t.1 == seconds && t.1 < 60
  {
    (seconds / 60, seconds % 60)
  }

  /** `formatTime(seconds)`, `${mins}m ${secs}s`; the page calls it only for a positive time. */
  function FormatTime(seconds: nat): string {
    var t := SplitTime(seconds);
    NatToString(t.0) + "m " + NatToString(t.1) + "s"
  }

  /** Different times are shown differently. */
  lemma FormatTimeInjective(a: nat, b: nat)
    requires FormatTime(a) == FormatTime(b)
    ensures a == b
  {
    var ta, tb := SplitTime(a), SplitTime(b);
    var xa := "m " + NatToString(ta.1) + "s";
    var xb := "m " + NatToString(tb.1) + "s";
    assert FormatTime(a) == NatToString(ta.0) + xa;
    assert FormatTime(b) == NatToString(tb.0) + xb;
    DigitRunUnique(NatToString(ta.0), xa, NatToString(tb.0), xb);
    NatToStringInjective(ta.0, tb.0);
    assert xa == "m " + (NatToString(ta.1) + "s");
    assert xb == "m " + (NatToString(tb.1) + "s");
    PrefixCancel("m ", NatToString(ta.1) + "s", NatToString(tb.1) + "s");
    SuffixCancel(NatToString(ta.1), NatToString(tb.1), "s");
    NatToStringInjective(ta.1, tb.1);
  }
}
