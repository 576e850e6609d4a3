/** Taking an exam: loading its questions in position order with their options in letter
    order, stepping between questions, scoring the selected answers, and saving the attempt
    with one answer record per question. */
module TakeExam {
  import opened Wrappers
  import opened Types
  import opened Records
  import opened Sorting
  import opened Text
  import Score
  import Storage

  datatype QuestionWithOptions = QuestionWithOptions(question: Question, options: seq<AnswerOption>)

  datatype LoadedExam = LoadedExam(title: string, questions: seq<QuestionWithOptions>)

  const ExamNotFound: string := "Exam not found"

  // ---------------------------------------------------------------- loading

  /** `a.position - b.position <= 0`. */
  predicate ByPosition(a: Question, b: Question) {
    a.position <= b.position
  }

  /** `a.option_letter.localeCompare(b.option_letter) <= 0`, on code points. */
  predicate ByLetter(a: AnswerOption, b: AnswerOption) {
    a.option_letter <= b.option_letter
  }

  lemma ByPositionTotal()
    ensures TotalPreorder(ByPosition)
  {
  }

  lemma ByLetterTotal()
    ensures TotalPreorder(ByLetter)
  {
  }

  function QuestionsOf(ws: seq<QuestionWithOptions>): (qs: seq<Question>)
    ensures |qs| == |ws| && forall i :: 0 <= i < |ws| ==> qs[i] == ws[i].question
  {
    seq(|ws|, i requires 0 <= i < |ws| => ws[i].question)
  }

  /** The question paired with its options (`getAnswerOptions(q.id)`) sorted by letter. */
  function OptionsFor(store: Storage.RecordStore, q: Question): (w: QuestionWithOptions)
    reads store
    ensures w.question == q
    ensures Sorted(w.options, ByLetter)
    ensures multiset(w.options) == multiset(store.GetAnswerOptions(Some(q.id)))
  {
    var options := store.GetAnswerOptions(Some(q.id));
    ByLetterTotal();
    SortBySorted(options, ByLetter);
    QuestionWithOptions(q, SortBy(options, ByLetter))
  }

  /** Each question paired with its options sorted by letter, in question order. */
  function WithOptions(store: Storage.RecordStore, qs: seq<Question>): (r: seq<QuestionWithOptions>)
    reads store
    ensures QuestionsOf(r) == qs
    ensures forall i :: 0 <= i < |r| ==> Sorted(r[i].options, ByLetter)
    ensures forall i :: 0 <= i < |r| ==> multiset(r[i].options) == multiset(store.GetAnswerOptions(Some(qs[i].id)))
  {
    seq(|qs|, i requires 0 <= i < |qs| reads store => OptionsFor(store, qs[i]))
  }

  /** `loadExam()` for the route parameter id. */
  function LoadExam(store: Storage.RecordStore, id: Option<string>): (r: Result<LoadedExam, string>)
    reads store
    ensures !Truthy(id) ==> r == Failure(ExamNotFound)
    ensures Truthy(id) && store.GetExam(id.value).None? ==> r == Failure(ExamNotFound)
    ensures r.Success? <==> Truthy(id) && store.GetExam(id.value).Some?
    ensures r.Success? ==> r.value.title == store.GetExam(id.value).value.title
    ensures r.Success? ==> Sorted(QuestionsOf(r.value.questions), ByPosition)
    ensures r.Success? ==> multiset(QuestionsOf(r.value.questions)) == multiset(store.GetQuestions(id))
    ensures r.Success? ==> forall i :: 0 <= i < |r.value.questions| ==>
              && Sorted(r.value.questions[i].options, ByLetter)
              && multiset(r.value.questions[i].options)
                 == multiset(store.GetAnswerOptions(Some(r.value.questions[i].question.id)))
  {
    if !Truthy(id) then Failure(ExamNotFound)
    else
      match store.GetExam(id.value)
      case None => Failure(ExamNotFound)
      case Some(exam) =>
        var qs := SortBy(store.GetQuestions(id), ByPosition);
        ByPositionTotal();
        SortBySorted(store.GetQuestions(id), ByPosition);
        Success(LoadedExam(exam.title, WithOptions(store, qs)))
  }

  // ---------------------------------------------------------------- navigation

  /** `handleNext`: one question forward unless already on the last one. */
  function HandleNext(current: int, total: int): (r: int)
    ensures r == current || r == current + 1
    ensures r == current + 1 <==> current < total - 1
    ensures 0 <= current < total ==> 0 <= r < total
  {
    if current < total - 1 then current + 1 else current
  }

  /** `handlePrevious`: one question back unless already on the first one. */
  function HandlePrevious(current: int, total: int): (r: int)
    ensures r == current || r == current - 1
    ensures r == current - 1 <==> current > 0
    ensures 0 <= current < total ==> 0 <= r < total
  {
    if current > 0 then current - 1 else current
  }

  // ---------------------------------------------------------------- scoring

  /** An answer before it gets its id and attempt id. */
  datatype AnswerDraft = AnswerDraft(question_id: string, selected_option_id: string, is_correct: bool)

  /** The option the student picked for q: the first of q's options with the selected id. */
  function SelectedOption(q: QuestionWithOptions, selected: map<string, string>): (r: Option<AnswerOption>)
    ensures q.question.id !in selected ==> r == None
    ensures r.Some? ==> r.value in q.options && r.value.id == selected[q.question.id]
    ensures q.question.id in selected ==>
              (r.None? <==> forall o :: o in q.options ==> o.id != selected[q.question.id])
    ensures r.Some? ==> exists j :: && 0 <= j < |q.options| && q.options[j] == r.value
                                    && forall i :: 0 <= i < j ==> q.options[i].id != r.value.id
  {
    if q.question.id in selected then
      var k := selected[q.question.id];
      var r := Find(q.options, OptionKey, k);
      assert (exists o :: o in q.options && o.id == k) ==> k in Keys(q.options, OptionKey) by {
        if o :| o in q.options && o.id == k {
          var j :| 0 <= j < |q.options| && q.options[j] == o;
          assert Keys(q.options, OptionKey)[j] == k;
        }
      }
      assert r.Some? ==> exists j :: && 0 <= j < |q.options| && q.options[j] == r.value
                                     && forall i :: 0 <= i < j ==> q.options[i].id != r.value.id by {
        if r.Some? {
          FindFirst(q.options, OptionKey, k);
        }
      }
      r
    else None
  }

  /** The answer recorded for one question: the callback of the `questions.map` of
      `handleSubmit`, without its `correctCount++`. */
  function DraftFor(q: QuestionWithOptions, selected: map<string, string>): (d: AnswerDraft)
    ensures d.question_id == q.question.id
    ensures q.question.id !in selected ==> d.selected_option_id == "" && !d.is_correct
    ensures q.question.id in selected ==> d.selected_option_id == selected[q.question.id]
    ensures d.is_correct <==> SelectedOption(q, selected).Some? && SelectedOption(q, selected).value.is_correct
  {
    var o := SelectedOption(q, selected);
    AnswerDraft(q.question.id, if q.question.id in selected then selected[q.question.id] else "",
                o.Some? && o.value.is_correct)
  }

  /** A draft is marked correct only when the student picked a correct option of that question,
      and, when the options' ids are unique, always then. */
  lemma DraftCorrectness(q: QuestionWithOptions, selected: map<string, string>)
    ensures DraftFor(q, selected).is_correct ==>
              exists o :: o in q.options && o.id == selected[q.question.id] && o.is_correct
    ensures q.question.id in selected && UniqueKeys(q.options, OptionKey) ==>
              (DraftFor(q, selected).is_correct <==>
               exists o :: o in q.options && o.id == selected[q.question.id] && o.is_correct)
  {
    var d := DraftFor(q, selected);
    if q.question.id in selected && UniqueKeys(q.options, OptionKey) {
      var k := selected[q.question.id];
      if o' :| o' in q.options && o'.id == k && o'.is_correct {
        var j :| 0 <= j < |q.options| && q.options[j] == o';
        FindUnique(q.options, OptionKey, j);
      }
    }
  }

  function Drafts(questions: seq<QuestionWithOptions>, selected: map<string, string>): (ds: seq<AnswerDraft>)
    ensures |ds| == |questions| && forall i :: 0 <= i < |questions| ==> ds[i] == DraftFor(questions[i], selected)
  {
    seq(|questions|, i requires 0 <= i < |questions| => DraftFor(questions[i], selected))
  }

  /** How many drafts are marked correct. */
  function CountCorrect(ds: seq<AnswerDraft>): (n: nat)
    ensures n <= |ds|
  {
    if ds == [] then 0 else CountCorrect(ds[..|ds| - 1]) + (if ds[|ds| - 1].is_correct then 1 else 0)
  }

  lemma CountCorrectSnoc(ds: seq<AnswerDraft>, d: AnswerDraft)
    ensures CountCorrect(ds + [d]) == CountCorrect(ds) + if d.is_correct then 1 else 0
  {
    assert (ds + [d])[..|ds|] == ds;
  }

  lemma DraftsStep(questions: seq<QuestionWithOptions>, selected: map<string, string>, i: nat)
    requires i < |questions|
    ensures Drafts(questions[..i + 1], selected) == Drafts(questions[..i], selected) + [DraftFor(questions[i], selected)]
  {
    var a, b := Drafts(questions[..i + 1], selected), Drafts(questions[..i], selected) + [DraftFor(questions[i], selected)];
    assert forall j :: 0 <= j < |a| ==> a[j] == b[j];
  }

  /** The `questions.map` of `handleSubmit` with its `correctCount++`. */
  method ScoreAnswers(questions: seq<QuestionWithOptions>, selected: map<string, string>)
    returns (drafts: seq<AnswerDraft>, correctCount: nat)
    ensures drafts == Drafts(questions, selected)
    ensures correctCount == CountCorrect(drafts) && correctCount <= |questions|
  {
    drafts, correctCount := [], 0;
    for i := 0 to |questions|
      invariant drafts == Drafts(questions[..i], selected)
      invariant correctCount == CountCorrect(drafts)
    {
      var draft := DraftFor(questions[i], selected);
      if draft.is_correct {
        correctCount := correctCount + 1;
      }
      CountCorrectSnoc(drafts, draft);
      DraftsStep(questions, selected, i);
      drafts := drafts + [draft];
    }
    assert questions[..|questions|] == questions;
  }

  // ---------------------------------------------------------------- saving

  /** `${examId}-${userId}-${Date.now()}`. */
  function AttemptId(examId: string, userId: string, stamp: nat): string {
    examId + "-" + userId + "-" + NatToString(stamp)
  }

  /** The answer records: `${attemptId}-ans${index}`, in question order. */
  function AnswerRecords(attemptId: string, drafts: seq<AnswerDraft>): (rs: seq<StudentAnswer>)
    ensures |rs| == |drafts|
    ensures forall i :: 0 <= i < |drafts| ==>
              rs[i] == StudentAnswer(TaggedId(attemptId, "-ans", i), attemptId, drafts[i].question_id,
                                     drafts[i].selected_option_id, drafts[i].is_correct)
    ensures UniqueKeys(rs, AnswerKey)
  {
    var rs := seq(|drafts|, i requires 0 <= i < |drafts| =>
      StudentAnswer(TaggedId(attemptId, "-ans", i), attemptId, drafts[i].question_id,
                    drafts[i].selected_option_id, drafts[i].is_correct));
    assert UniqueKeys(rs, AnswerKey) by {
      forall i, j | 0 <= i < j < |rs| ensures rs[i].id != rs[j].id {
        if rs[i].id == rs[j].id {
          TaggedIdInjective(attemptId, "-ans", i, j);
        }
      }
    }
    rs
  }

  /** The attempt `handleSubmit` saves, with `Math.round(correct / total * 100)` as its score
      and the elapsed whole seconds as its time. */
  function AttemptFor(attemptId: string, examId: string, userId: string, totalQuestions: nat, correctCount: nat,
                      startTime: int, endTime: int): (a: ExamAttempt)
    requires correctCount <= totalQuestions
    ensures a.id == attemptId && a.exam_id == examId && a.student_id == userId
    ensures a.total_questions == totalQuestions && a.started_at == startTime && a.completed_at == Some(endTime)
    ensures a.time_taken == Some((endTime - startTime) / 1000)
    ensures totalQuestions > 0 ==> 0 <= a.score <= 100
    ensures totalQuestions > 0 ==>
              2 * totalQuestions * a.score - totalQuestions <= 200 * correctCount < 2 * totalQuestions * a.score + totalQuestions
  {
    ExamAttempt(attemptId, examId, userId, Score.CalculateScore(correctCount, totalQuestions), totalQuestions,
                startTime, Some(endTime), Some((endTime - startTime) / 1000))
  }

  /** `studentAnswers.forEach(answer => saveAnswer(answer))`. */
  method SaveAnswerRecords(store: Storage.RecordStore, records: seq<StudentAnswer>)
    modifies store`answers
    ensures store.answers == UpsertAll(old(store.answers), AnswerKey, records)
    ensures old(store.Valid()) ==> store.Valid()
  {
    var before := store.answers;
    assert records[..0] == [];
    for i := 0 to |records|
      invariant store.answers == UpsertAll(before, AnswerKey, records[..i])
      invariant old(store.Valid()) ==> store.Valid()
    {
      UpsertAllPrefixStep(before, AnswerKey, records, i);
      store.SaveAnswer(records[i]);
    }
    assert records[..|records|] == records;
  }

  /** `handleSubmit()`: nothing happens without a signed-in user id and an exam id; otherwise
      the attempt and then each answer are saved. The clock readings and the id stamp are
      parameters. */
  method HandleSubmit(store: Storage.RecordStore, userId: Option<string>, examId: Option<string>,
                      questions: seq<QuestionWithOptions>, selected: map<string, string>,
                      startTime: int, endTime: int, stamp: nat)
    returns (attemptId: Option<string>)
    requires |questions| > 0
    modifies store`attempts, store`answers
    ensures !Truthy(userId) || !Truthy(examId) ==>
              attemptId == None && store.attempts == old(store.attempts) && store.answers == old(store.answers)
    ensures Truthy(userId) && Truthy(examId) ==>
              var aid := AttemptId(examId.value, userId.value, stamp);
              var drafts := Drafts(questions, selected);
              && attemptId == Some(aid)
              && store.attempts == Upsert(old(store.attempts), AttemptKey,
                                          AttemptFor(aid, examId.value, userId.value, |questions|, CountCorrect(drafts),
                                                     startTime, endTime))
              && store.answers == UpsertAll(old(store.answers), AnswerKey, AnswerRecords(aid, drafts))
    ensures old(store.Valid()) ==> store.Valid()
  {
    if !Truthy(userId) || !Truthy(examId) {
      return None;
    }
    var drafts, correctCount := ScoreAnswers(questions, selected);
    var aid := AttemptId(examId.value, userId.value, stamp);
    var attempt := AttemptFor(aid, examId.value, userId.value, |questions|, correctCount, startTime, endTime);
    store.SaveAttempt(attempt);
    SaveAnswerRecords(store, AnswerRecords(aid, drafts));
    attemptId := Some(aid);
  }

  /** After a submit every answer record can be read back by its id, whatever was stored before. */
  lemma SubmittedAnswersReadBack(stored: seq<StudentAnswer>, attemptId: string, drafts: seq<AnswerDraft>)
    ensures var rs := AnswerRecords(attemptId, drafts);
            forall i :: 0 <= i < |rs| ==> Find(UpsertAll(stored, AnswerKey, rs), AnswerKey, rs[i].id) == Some(rs[i])
  {
    var rs := AnswerRecords(attemptId, drafts);
    forall i | 0 <= i < |rs| ensures Find(UpsertAll(stored, AnswerKey, rs), AnswerKey, rs[i].id) == Some(rs[i]) {
      UpsertAllReadBack(stored, AnswerKey, rs, i);
    }
  }
}
