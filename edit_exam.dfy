/** Editing an exam: loading the stored exam into the question form (only for its author)
    and saving the edited form back over the stored records. */
module EditExam {
  import opened Wrappers
  import opened Types
  import opened Records
  import opened Sorting
  import opened Text
  import Storage
  import TakeExam
  import CreateExam

  type QuestionForm = CreateExam.QuestionForm

  const NoPermission := "You do not have permission to edit this exam"
  const UpdateFailed := "Failed to update exam. Please try again."

  /** What the page shows after loading: not found, an error, or the form filled in. */
  datatype Editor = NotFound | Denied(error: string) | Editing(title: string, description: string, forms: seq<QuestionForm>)

  // ---------------------------------------------------------------- loading

  /** `findIndex(opt => opt.is_correct)`: the first correct option, or -1. */
  function FirstCorrect(options: seq<AnswerOption>): (k: int)
    ensures -1 <= k < |options|
    ensures k >= 0 ==> options[k].is_correct && forall j :: 0 <= j < k ==> !options[j].is_correct
    ensures k == -1 <==> forall j :: 0 <= j < |options| ==> !options[j].is_correct
  {
    if options == [] then -1
    else if options[0].is_correct then 0
    else
      var k := FirstCorrect(options[1..]);
      assert forall j :: 1 <= j < |options| ==> options[j] == options[1..][j - 1];
      if k == -1 then -1 else k + 1
  }

  function OptionTexts(options: seq<AnswerOption>): (texts: seq<string>)
    ensures |texts| == |options| && forall j :: 0 <= j < |options| ==> texts[j] == options[j].text
  {
    seq(|options|, j requires 0 <= j < |options| => options[j].text)
  }

  /** A stored question as a form entry: its options in letter order, as texts, and the
      index of the first correct one in that order (-1 when none is). */
  function FormOf(q: Question): (f: QuestionForm)
    ensures f.id == q.id && f.text == q.text && |f.options| == |q.answer_options|
    ensures f.correctAnswer == -1 <==> forall o :: o in q.answer_options ==> !o.is_correct
    ensures 0 <= f.correctAnswer ==>
              f.correctAnswer < |f.options| &&
              exists o :: o in q.answer_options && o.is_correct && o.text == f.options[f.correctAnswer]
    ensures exists s :: && multiset(s) == multiset(q.answer_options) && Sorted(s, TakeExam.ByLetter)
                        && f.options == OptionTexts(s) && f.correctAnswer == FirstCorrect(s)
  {
    var sorted := SortBy(q.answer_options, TakeExam.ByLetter);
    TakeExam.ByLetterTotal();
    SortBySorted(q.answer_options, TakeExam.ByLetter);
    var k := FirstCorrect(sorted);
    assert forall o :: o in q.answer_options <==> o in sorted by {
      assert forall o :: o in q.answer_options <==> o in multiset(sorted);
    }
    assert k >= 0 ==> sorted[k] in q.answer_options;
    CreateExam.QuestionForm(q.id, q.text, OptionTexts(sorted), k)
  }

  /** The page's load effect. The author check compares with the signed-in user's id, so
      without a user the exam is never editable. */
  function LoadForEdit(store: Storage.RecordStore, id: Option<string>, user: Option<User>): (r: Editor)
    reads store
    ensures !Truthy(id) ==> r == NotFound
    ensures Truthy(id) ==> (r == NotFound <==> store.GetExam(id.value).None?)
    ensures Truthy(id) && store.GetExam(id.value).Some? ==>
              var e := store.GetExam(id.value).value;
              && (r.Denied? <==> user.None? || e.created_by != user.value.id)
              && (r.Denied? ==> r.error == NoPermission)
              && (r.Editing? ==> r.title == e.title && r.description == e.description && r.forms != [])
    ensures r.Editing? ==>
              var qs := store.GetQuestions(id);
              if qs == [] then r.forms == [CreateExam.BlankForm("1")]
              else |r.forms| == |qs| && forall i :: 0 <= i < |qs| ==> r.forms[i] == FormOf(qs[i])
  {
    if !Truthy(id) then NotFound
    else match store.GetExam(id.value)
      case None => NotFound
      case Some(e) =>
        if user.None? || e.created_by != user.value.id then Denied(NoPermission)
        else
          var qs := store.GetQuestions(id);
          var forms := seq(|qs|, i requires 0 <= i < |qs| => FormOf(qs[i]));
          Editing(e.title, e.description, if |forms| > 0 then forms else [CreateExam.BlankForm("1")])
  }

  /** Saving a form entry and loading it again gives the entry back, under the saved id and
      with an out-of-range correct index read as -1. */
  lemma FormRoundTrip(examId: string, questionId: string, form: QuestionForm, index: nat)
    requires |form.options| <= CreateExam.MaxOptions
    ensures FormOf(CreateExam.BuildQuestion(examId, questionId, form, index)) ==
            CreateExam.QuestionForm(questionId, form.text, form.options,
                                    if 0 <= form.correctAnswer < |form.options| then form.correctAnswer else -1)
  {
    var opts := CreateExam.BuildOptions(questionId, form.options, form.correctAnswer);
    assert Sorted(opts, TakeExam.ByLetter) by {
      forall i, j | 0 <= i < j < |opts| ensures TakeExam.ByLetter(opts[i], opts[j]) {
        assert opts[i].option_letter as int == 65 + i;
        assert opts[j].option_letter as int == 65 + j;
      }
    }
    SortBySortedIdentity(opts, TakeExam.ByLetter);
    assert OptionTexts(opts) == form.options;
    var k := FirstCorrect(opts);
    if 0 <= form.correctAnswer < |form.options| {
      assert opts[form.correctAnswer].is_correct;
      assert k == form.correctAnswer;
    } else {
      assert k == -1;
    }
  }

  // ---------------------------------------------------------------- question ids on save

  /** `q.id.startsWith(id) ? q.id : `${id}-q${index}``: the id the page gives a form entry. */
  function QuestionIdAsWritten(examId: string, form: QuestionForm, index: nat): string {
    if StartsWith(form.id, examId) then form.id else TaggedId(examId, "-q", index)
  }

  /** Loading two questions, removing the first and adding a new one gives two entries with
      distinct ids that are both saved under `E-q1`: the new question overwrites the kept one. */
  lemma QuestionIdsCollide()
    ensures var forms := [CreateExam.BlankForm("E-q1"), CreateExam.BlankForm("7")];
            && UniqueKeys(forms, CreateExam.FormId)
            && QuestionIdAsWritten("E", forms[0], 0) == QuestionIdAsWritten("E", forms[1], 1) == "E-q1"
  {
    var forms := [CreateExam.BlankForm("E-q1"), CreateExam.BlankForm("7")];
    assert NatToString(1) == "1";
    assert StartsWith("E-q1", "E");
    assert "7"[..1][0] != "E"[0];
  }

  /** The longest id among the form entries. */
  function MaxIdLength(forms: seq<QuestionForm>): (m: nat)
    ensures forall i :: 0 <= i < |forms| ==> |forms[i].id| <= m
  {
    if forms == [] then 0
    else
      var m := MaxIdLength(forms[..|forms| - 1]);
      assert forall i :: 0 <= i < |forms| - 1 ==> forms[i] == forms[..|forms| - 1][i];
      if |forms[|forms| - 1].id| > m then |forms[|forms| - 1].id| else m
  }

  /** The id a form entry is saved under: a kept id stays, and a new entry gets
      `${examId}-q${n}` with n past 10^L, L the longest id in the form, so that a new id is
      longer than every kept one. */
  function QuestionId(examId: string, forms: seq<QuestionForm>, index: nat): (qid: string)
    requires index < |forms|
    ensures StartsWith(forms[index].id, examId) ==> qid == forms[index].id
    ensures !StartsWith(forms[index].id, examId) ==> |qid| > MaxIdLength(forms)
  {
    if StartsWith(forms[index].id, examId) then forms[index].id
    else
      var n := Pow10(MaxIdLength(forms)) + index;
      NatToStringLength(n, MaxIdLength(forms));
      TaggedId(examId, "-q", n)
  }

  /** The question records the page saves, with the ids of QuestionId. */
  function EditedQuestions(examId: string, forms: seq<QuestionForm>): (qs: seq<Question>)
    requires CreateExam.OptionsFit(forms)
    ensures |qs| == |forms|
    ensures forall i :: 0 <= i < |forms| ==>
              qs[i] == CreateExam.BuildQuestion(examId, QuestionId(examId, forms, i), forms[i], i)
  {
    seq(|forms|, i requires 0 <= i < |forms| => CreateExam.BuildQuestion(examId, QuestionId(examId, forms, i), forms[i], i))
  }

  /** A kept id is never the id of a new entry: the new one is longer. */
  lemma KeptIdNotNew(examId: string, forms: seq<QuestionForm>, i: nat, j: nat)
    requires i < |forms| && j < |forms|
    requires StartsWith(forms[i].id, examId) && !StartsWith(forms[j].id, examId)
    ensures QuestionId(examId, forms, i) != QuestionId(examId, forms, j)
  {
    assert |QuestionId(examId, forms, i)| <= MaxIdLength(forms);
  }

  /** Two new entries get different numbers, hence different ids. */
  lemma NewIdsDiffer(examId: string, forms: seq<QuestionForm>, i: nat, j: nat)
    requires i < j < |forms|
    requires !StartsWith(forms[i].id, examId) && !StartsWith(forms[j].id, examId)
    ensures QuestionId(examId, forms, i) != QuestionId(examId, forms, j)
  {
    var P := Pow10(MaxIdLength(forms));
    if QuestionId(examId, forms, i) == QuestionId(examId, forms, j) {
      TaggedIdInjective(examId, "-q", P + i, P + j);
    }
  }

  /** Form entries with distinct ids are saved under distinct question ids. */
  lemma EditedQuestionsUnique(examId: string, forms: seq<QuestionForm>)
    requires CreateExam.OptionsFit(forms) && UniqueKeys(forms, CreateExam.FormId)
    ensures UniqueKeys(EditedQuestions(examId, forms), QuestionKey)
  {
    var qs := EditedQuestions(examId, forms);
    forall i, j | 0 <= i < j < |qs| ensures qs[i].id != qs[j].id {
      assert qs[i].id == QuestionId(examId, forms, i) && qs[j].id == QuestionId(examId, forms, j);
      var ki, kj := StartsWith(forms[i].id, examId), StartsWith(forms[j].id, examId);
      if ki && kj {
        assert forms[i].id != forms[j].id;
      } else if !ki && !kj {
        NewIdsDiffer(examId, forms, i, j);
      } else if ki {
        KeptIdNotNew(examId, forms, i, j);
      } else {
        KeptIdNotNew(examId, forms, j, i);
      }
    }
  }

  // ---------------------------------------------------------------- saving

  /** `getExamById(id)?.created_at || now`. */
  function CreatedAt(stored: Option<Exam>, now: int): (t: int)
    ensures stored.Some? ==> t == stored.value.created_at
    ensures stored.None? ==> t == now
  {
    if stored.Some? then stored.value.created_at else now
  }

  /** `handleSubmit()`. Without an id nothing happens; without a signed-in user `user!.id`
      throws before anything is written and the page shows UpdateFailed; otherwise the exam,
      its questions and all their options are saved. */
  method HandleSubmit(store: Storage.RecordStore, id: Option<string>, user: Option<User>, title: string,
                      description: string, forms: seq<QuestionForm>, now: int)
    returns (error: Option<string>)
    requires CreateExam.OptionsFit(forms)
    modifies store`exams, store`questions, store`answerOptions
    ensures !Truthy(id) || user.None? ==>
              && error == (if Truthy(id) then Some(UpdateFailed) else None)
              && store.exams == old(store.exams) && store.questions == old(store.questions)
              && store.answerOptions == old(store.answerOptions)
    ensures Truthy(id) && user.Some? ==>
              var exam := Exam(id.value, title, description, user.value.id, |forms|,
                               CreatedAt(old(store.GetExam(id.value)), now), None);
              var qs := EditedQuestions(id.value, forms);
              && error == None
              && store.exams == Upsert(old(store.exams), ExamKey, Storage.RecordStore.Stamped(old(store.exams), exam, now))
              && store.questions == UpsertAll(old(store.questions), QuestionKey, qs)
              && store.answerOptions == UpsertAll(old(store.answerOptions), OptionKey, CreateExam.FlatOptions(qs))
    ensures Truthy(id) && user.Some? && old(store.GetExam(id.value)).Some? ==>
              var e := old(store.GetExam(id.value)).value;
              store.GetExam(id.value) == Some(e.(title := title, description := description, created_by := user.value.id,
                                                  questions_count := |forms|, updated_at := Some(now)))
    ensures old(store.Valid()) ==> store.Valid()
  {
    if !Truthy(id) {
      return None;
    }
    if user.None? {
      return Some(UpdateFailed);
    }
    var examId := id.value;
    var stored := store.GetExam(examId);
    var exam := Exam(examId, title, description, user.value.id, |forms|, CreatedAt(stored, now), None);
    if stored.Some? {
      assert examId in Keys(store.exams, ExamKey);
      assert Storage.RecordStore.Stamped(store.exams, exam, now)
             == stored.value.(title := title, description := description, created_by := user.value.id,
                              questions_count := |forms|, updated_at := Some(now));
    }
    store.SaveExam(exam, now);
    var qs := EditedQuestions(examId, forms);
    store.SaveQuestions(qs);
    store.SaveAnswerOptions(CreateExam.FlatOptions(qs));
    error := None;
  }

  /** Saving only adds and overwrites: a stored question of the exam whose id the edited
      form no longer produces keeps its place, so the exam still lists it. */
  lemma RemovedQuestionStays(stored: seq<Question>, examId: string, forms: seq<QuestionForm>, j: nat)
    requires CreateExam.OptionsFit(forms)
    requires j < |stored| && stored[j].exam_id == examId
    requires forall i :: 0 <= i < |forms| ==> QuestionId(examId, forms, i) != stored[j].id
    ensures stored[j] in UpsertAll(stored, QuestionKey, EditedQuestions(examId, forms))
  {
    var qs := EditedQuestions(examId, forms);
    UpsertAllKeepsOthers(stored, QuestionKey, qs);
    assert stored[j].id !in Keys(qs, QuestionKey);
    assert UpsertAll(stored, QuestionKey, qs)[j] == stored[j];
  }
}
