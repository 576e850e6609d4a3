/** Writing a new exam: the question form list (adding and removing questions) and the
    submit that turns the form into an exam, its question records and their option records. */
module CreateExam {
  import opened Wrappers
  import opened Types
  import opened Records
  import opened Text
  import Storage

  /** One question of the form: its option texts and the index of the correct one. */
  datatype QuestionForm = QuestionForm(id: string, text: string, options: seq<string>, correctAnswer: int)

  function FormId(f: QuestionForm): string {
    f.id
  }

  /** A new question: empty text, four empty options, the first one correct. */
  function BlankForm(id: string): QuestionForm {
    QuestionForm(id, "", ["", "", "", ""], 0)
  }

  // ---------------------------------------------------------------- the form list

  /** `addQuestion()`, with `Date.now()` as the parameter stamp. */
  function AddQuestion(questions: seq<QuestionForm>, stamp: nat): (r: seq<QuestionForm>)
    ensures |r| == |questions| + 1 && r[..|questions|] == questions
    ensures r[|questions|] == BlankForm(NatToString(stamp))
  {
    questions + [BlankForm(NatToString(stamp))]
  }

  /** `removeQuestion(id)`: drop the questions with that id, unless only one is left. */
  function RemoveQuestion(questions: seq<QuestionForm>, id: string): (r: seq<QuestionForm>)
    ensures |questions| <= 1 ==> r == questions
    ensures |questions| > 1 ==> IsSubsequence(r, questions) && forall q :: q in r <==> q in questions && q.id != id
    ensures UniqueKeys(questions, FormId) ==> UniqueKeys(r, FormId)
    ensures UniqueKeys(questions, FormId) && questions != [] ==> r != []
  {
    if |questions| > 1 then
      var r := Without(questions, FormId, id);
      assert UniqueKeys(questions, FormId) ==> UniqueKeys(r, FormId) by {
        if UniqueKeys(questions, FormId) {
          WithoutKeepsUnique(questions, FormId, id, FormId);
        }
      }
      assert UniqueKeys(questions, FormId) ==> r != [] by {
        if UniqueKeys(questions, FormId) {
          assert questions[0].id != questions[1].id;
          if questions[0].id != id {
            assert questions[0] in r;
          } else {
            assert questions[1] in r;
          }
        }
      }
      r
    else questions
  }

  // ---------------------------------------------------------------- records from the form

  /** Option letters exist as characters up to this many options. */
  const MaxOptions: nat := 0xD800 - 65

  /** `String.fromCharCode(65 + j)`: 'A', 'B', 'C', ... */
  function Letter(j: nat): (c: char)
    requires j < MaxOptions
    ensures c as int == 65 + j
  {
    (65 + j) as char
  }

  /** The options of the question with id questionId: ids `${questionId}-opt${j}`, letters in
      order, and the option at correctAnswer marked correct. */
  function BuildOptions(questionId: string, options: seq<string>, correctAnswer: int): (r: seq<AnswerOption>)
    requires |options| <= MaxOptions
    ensures |r| == |options|
    ensures forall j :: 0 <= j < |r| ==>
              && r[j].id == TaggedId(questionId, "-opt", j) && r[j].question_id == questionId
              && r[j].text == options[j] && r[j].option_letter == Letter(j)
    ensures forall j :: 0 <= j < |r| ==> (r[j].is_correct <==> j == correctAnswer)
    ensures UniqueKeys(r, OptionKey)
  {
    var r := seq(|options|, j requires 0 <= j < |options| =>
      AnswerOption(TaggedId(questionId, "-opt", j), questionId, options[j], correctAnswer == j, Letter(j)));
    assert UniqueKeys(r, OptionKey) by {
      forall i, j | 0 <= i < j < |r| ensures r[i].id != r[j].id {
        if r[i].id == r[j].id {
          TaggedIdInjective(questionId, "-opt", i, j);
        }
      }
    }
    r
  }

  /** Exactly one option is correct when correctAnswer is in range, and none otherwise. */
  lemma OneCorrectOption(questionId: string, options: seq<string>, correctAnswer: int)
    requires |options| <= MaxOptions
    ensures var r := BuildOptions(questionId, options, correctAnswer);
            && |Filter(r, IsCorrectOption)| == (if 0 <= correctAnswer < |options| then 1 else 0)
            && (0 <= correctAnswer < |options| ==> Filter(r, IsCorrectOption) == [r[correctAnswer]])
  {
    var r := BuildOptions(questionId, options, correctAnswer);
    if 0 <= correctAnswer < |options| {
      FilterOnly(r, IsCorrectOption, correctAnswer);
    } else {
      FilterNone(r, IsCorrectOption);
    }
  }

  /** The question record for one form entry, at position index. */
  function BuildQuestion(examId: string, questionId: string, form: QuestionForm, index: nat): (q: Question)
    requires |form.options| <= MaxOptions
    ensures q.id == questionId && q.exam_id == examId && q.text == form.text && q.position == index
    ensures q.answer_options == BuildOptions(questionId, form.options, form.correctAnswer)
  {
    Question(questionId, examId, form.text, index, BuildOptions(questionId, form.options, form.correctAnswer))
  }

  predicate OptionsFit(forms: seq<QuestionForm>) {
    forall i :: 0 <= i < |forms| ==> |forms[i].options| <= MaxOptions
  }

  /** The `questions.map` of `handleSubmit`: the i-th form becomes `${examId}-q${i}` at position i. */
  function ExamQuestions(examId: string, forms: seq<QuestionForm>): (qs: seq<Question>)
    requires OptionsFit(forms)
    ensures |qs| == |forms|
    ensures forall i :: 0 <= i < |forms| ==> qs[i] == BuildQuestion(examId, TaggedId(examId, "-q", i), forms[i], i)
    ensures UniqueKeys(qs, QuestionKey)
  {
    var qs := seq(|forms|, i requires 0 <= i < |forms| => BuildQuestion(examId, TaggedId(examId, "-q", i), forms[i], i));
    assert UniqueKeys(qs, QuestionKey) by {
      forall i, j | 0 <= i < j < |qs| ensures qs[i].id != qs[j].id {
        if qs[i].id == qs[j].id {
          TaggedIdInjective(examId, "-q", i, j);
        }
      }
    }
    qs
  }

  /** `examQuestions.flatMap(q => q.answer_options)`: every question's options, in question order. */
  function FlatOptions(qs: seq<Question>): (r: seq<AnswerOption>)
    ensures forall o :: o in r <==> exists i :: 0 <= i < |qs| && o in qs[i].answer_options
    ensures qs == [] ==> r == []
    ensures |qs| == 1 ==> r == qs[0].answer_options
  {
    if qs == [] then []
    else
      var n := |qs| - 1;
      var r := FlatOptions(qs[..n]) + qs[n].answer_options;
      assert forall i :: 0 <= i < n ==> qs[..n][i] == qs[i];
      r
  }

  /** Flattening two runs of questions gives the options of the first run, then those of
      the second: each question's options stay together, in question order. */
  lemma {:induction false} FlatOptionsConcat(a: seq<Question>, b: seq<Question>)
    ensures FlatOptions(a + b) == FlatOptions(a) + FlatOptions(b)
  {
    if b == [] {
      assert a + b == a;
    } else {
      var n := |b| - 1;
      assert (a + b)[..|a + b| - 1] == a + b[..n];
      FlatOptionsConcat(a, b[..n]);
    }
  }

  lemma UniqueAppend<T>(a: seq<T>, b: seq<T>, key: T -> string)
    requires UniqueKeys(a, key) && UniqueKeys(b, key)
    requires forall i, j :: 0 <= i < |a| && 0 <= j < |b| ==> key(a[i]) != key(b[j])
    ensures UniqueKeys(a + b, key)
  {
  }

  /** Every option of the first n questions carries the id of one of those questions. */
  lemma OptionOfEarlierQuestion(examId: string, forms: seq<QuestionForm>, n: nat, o: AnswerOption)
    requires OptionsFit(forms) && n <= |forms|
    requires o in FlatOptions(ExamQuestions(examId, forms)[..n])
    ensures exists k, j :: 0 <= k < n && o.id == TaggedId(TaggedId(examId, "-q", k), "-opt", j)
  {
    var qs := ExamQuestions(examId, forms);
    var k :| 0 <= k < n && o in qs[..n][k].answer_options;
    var j :| 0 <= j < |qs[k].answer_options| && qs[k].answer_options[j] == o;
    assert o.id == TaggedId(TaggedId(examId, "-q", k), "-opt", j);
  }

  /** No two saved options share an id: options of different questions differ in their
      question part. */
  lemma {:induction false} FlatOptionsUnique(examId: string, forms: seq<QuestionForm>)
    requires OptionsFit(forms)
    ensures UniqueKeys(FlatOptions(ExamQuestions(examId, forms)), OptionKey)
  {
    if forms != [] {
      var n := |forms| - 1;
      var qs := ExamQuestions(examId, forms);
      assert qs[..n] == ExamQuestions(examId, forms[..n]);
      FlatOptionsUnique(examId, forms[..n]);
      var a, b := FlatOptions(qs[..n]), qs[n].answer_options;
      forall i, j | 0 <= i < |a| && 0 <= j < |b| ensures a[i].id != b[j].id {
        OptionOfEarlierQuestion(examId, forms, n, a[i]);
        var k, ji :| 0 <= k < n && a[i].id == TaggedId(TaggedId(examId, "-q", k), "-opt", ji);
        if a[i].id == b[j].id {
          NestedTaggedIdInjective(examId, k, ji, n, j);
        }
      }
      UniqueAppend(a, b, OptionKey);
    }
  }

  // ---------------------------------------------------------------- submitting

  /** The exam record `handleSubmit` saves. */
  function NewExam(examId: string, title: string, description: string, user: User, forms: seq<QuestionForm>, now: int): (e: Exam)
    ensures e.id == examId && e.created_by == user.id && e.questions_count == |forms| && e.updated_at == None
  {
    Exam(examId, title, description, user.id, |forms|, now, None)
  }

  /** `handleSubmit()`: without a signed-in user nothing is written; otherwise the exam with
      id `Date.now()` (the parameter stamp), then its questions, then all their options. */
  method HandleSubmit(store: Storage.RecordStore, user: Option<User>, title: string, description: string,
                      forms: seq<QuestionForm>, stamp: nat, now: int)
    returns (examId: Option<string>)
    requires OptionsFit(forms)
    modifies store`exams, store`questions, store`answerOptions
    ensures user.None? ==>
              && examId == None && store.exams == old(store.exams)
              && store.questions == old(store.questions) && store.answerOptions == old(store.answerOptions)
    ensures user.Some? ==>
              var id := NatToString(stamp);
              var qs := ExamQuestions(id, forms);
              && examId == Some(id)
              && store.exams == Upsert(old(store.exams), ExamKey,
                                       Storage.RecordStore.Stamped(old(store.exams), NewExam(id, title, description, user.value, forms, now), now))
              && store.questions == UpsertAll(old(store.questions), QuestionKey, qs)
              && store.answerOptions == UpsertAll(old(store.answerOptions), OptionKey, FlatOptions(qs))
    ensures user.Some? ==> store.GetExam(NatToString(stamp)).Some?
    ensures old(store.Valid()) ==> store.Valid()
  {
    if user.None? {
      return None;
    }
    var id := NatToString(stamp);
    store.SaveExam(NewExam(id, title, description, user.value, forms, now), now);
    var qs := ExamQuestions(id, forms);
    store.SaveQuestions(qs);
    store.SaveAnswerOptions(FlatOptions(qs));
    examId := Some(id);
  }

  /** After a submit every question and every option it saved can be read back by its id. */
  lemma SubmittedReadBack(questions: seq<Question>, options: seq<AnswerOption>, examId: string, forms: seq<QuestionForm>)
    requires OptionsFit(forms)
    ensures var qs := ExamQuestions(examId, forms);
            forall i :: 0 <= i < |qs| ==> Find(UpsertAll(questions, QuestionKey, qs), QuestionKey, qs[i].id) == Some(qs[i])
    ensures var os := FlatOptions(ExamQuestions(examId, forms));
            forall i :: 0 <= i < |os| ==> Find(UpsertAll(options, OptionKey, os), OptionKey, os[i].id) == Some(os[i])
  {
    var qs := ExamQuestions(examId, forms);
    forall i | 0 <= i < |qs| ensures Find(UpsertAll(questions, QuestionKey, qs), QuestionKey, qs[i].id) == Some(qs[i]) {
      UpsertAllReadBack(questions, QuestionKey, qs, i);
    }
    var os := FlatOptions(qs);
    FlatOptionsUnique(examId, forms);
    forall i | 0 <= i < |os| ensures Find(UpsertAll(options, OptionKey, os), OptionKey, os[i].id) == Some(os[i]) {
      UpsertAllReadBack(options, OptionKey, os, i);
    }
  }
}
