/** The record store behind every page: five collections (exams, questions, answer options,
    attempts, answers), each an ordered list. Getters filter by an optional foreign key,
    saves upsert by id, and deleting an exam cascades to its questions and attempts. */
module Storage {
  import opened Wrappers
  import opened Types
  import opened Records

  class RecordStore {
    var exams: seq<Exam>
    var questions: seq<Question>
    var answerOptions: seq<AnswerOption>
    var attempts: seq<ExamAttempt>
    var answers: seq<StudentAnswer>

    /** Every collection holds each id at most once. */
    ghost predicate Valid()
      reads this
    {
      && UniqueKeys(exams, ExamKey)
      && UniqueKeys(questions, QuestionKey)
      && UniqueKeys(answerOptions, OptionKey)
      && UniqueKeys(attempts, AttemptKey)
      && UniqueKeys(answers, AnswerKey)
    }

    /** A store where every collection is still empty. */
    constructor ()
      ensures Valid()
      ensures exams == [] && questions == [] && answerOptions == [] && attempts == [] && answers == []
    {
      exams, questions, answerOptions, attempts, answers := [], [], [], [], [];
    }

    /** `getExams(teacherId)`: that teacher's exams in stored order, or all of them. */
    function GetExams(teacherId: Option<string>): (r: seq<Exam>)
      reads this
      ensures !Truthy(teacherId) ==> r == exams
      ensures Truthy(teacherId) ==> IsSubsequence(r, exams)
      ensures Truthy(teacherId) ==> forall e :: e in r <==> e in exams && e.created_by == teacherId.value
    {
      Select(exams, ExamCreator, teacherId)
    }

    /** `getExam(id)` and `getExamById(id)`: the first exam with that id, or null. */
    function GetExam(examId: string): (r: Option<Exam>)
      reads this
      ensures r.Some? <==> exists i :: 0 <= i < |exams| && exams[i].id == examId
      ensures r.Some? ==> exists i :: 0 <= i < |exams| && exams[i] == r.value && r.value.id == examId
                                      && forall j :: 0 <= j < i ==> exams[j].id != examId
    {
      var r := Find(exams, ExamKey, examId);
      assert r.None? ==> forall i :: 0 <= i < |exams| ==> exams[i].id != examId by {
        if r.None? {
          forall i | 0 <= i < |exams| ensures exams[i].id != examId {
            assert Keys(exams, ExamKey)[i] == exams[i].id;
          }
        }
      }
      if r.Some? then FindFirst(exams, ExamKey, examId); r else r
    }

    /** `getQuestions(examId)`. */
    function GetQuestions(examId: Option<string>): (r: seq<Question>)
      reads this
      ensures !Truthy(examId) ==> r == questions
      ensures Truthy(examId) ==> IsSubsequence(r, questions)
      ensures Truthy(examId) ==> forall q :: q in r <==> q in questions && q.exam_id == examId.value
    {
      Select(questions, QuestionExam, examId)
    }

    /** `getAnswerOptions(questionId)`. */
    function GetAnswerOptions(questionId: Option<string>): (r: seq<AnswerOption>)
      reads this
      ensures !Truthy(questionId) ==> r == answerOptions
      ensures Truthy(questionId) ==> IsSubsequence(r, answerOptions)
      ensures Truthy(questionId) ==> forall o :: o in r <==> o in answerOptions && o.question_id == questionId.value
    {
      Select(answerOptions, OptionQuestion, questionId)
    }

    /** `getAttempts(examId)`. */
    function GetAttempts(examId: Option<string>): (r: seq<ExamAttempt>)
      reads this
      ensures !Truthy(examId) ==> r == attempts
      ensures Truthy(examId) ==> IsSubsequence(r, attempts)
      ensures Truthy(examId) ==> forall a :: a in r <==> a in attempts && a.exam_id == examId.value
    {
      Select(attempts, ExamOf, examId)
    }

    /** `getAnswers(attemptId)`. */
    function GetAnswers(attemptId: Option<string>): (r: seq<StudentAnswer>)
      reads this
      ensures !Truthy(attemptId) ==> r == answers
      ensures Truthy(attemptId) ==> IsSubsequence(r, answers)
      ensures Truthy(attemptId) ==> forall a :: a in r <==> a in answers && a.attempt_id == attemptId.value
    {
      Select(answers, AnswerAttempt, attemptId)
    }

    /** What `saveExam` stores: an exam that replaces a stored one is stamped `updated_at`. */
    static function Stamped(stored: seq<Exam>, exam: Exam, now: int): (r: Exam)
      ensures r.id == exam.id
      ensures exam.id in Keys(stored, ExamKey) ==> r == exam.(updated_at := Some(now))
      ensures exam.id !in Keys(stored, ExamKey) ==> r == exam
    {
      if exam.id in Keys(stored, ExamKey) then exam.(updated_at := Some(now)) else exam
    }

    /** `saveExam(exam)` at time now: replace the first exam with that id (stamped), or append. */
    method SaveExam(exam: Exam, now: int)
      modifies this`exams
      ensures exams == Upsert(old(exams), ExamKey, Stamped(old(exams), exam, now))
      ensures exam.id in Keys(old(exams), ExamKey) ==> |exams| == |old(exams)|
      ensures exam.id !in Keys(old(exams), ExamKey) ==> exams == old(exams) + [exam]
      ensures GetExam(exam.id) == Some(Stamped(old(exams), exam, now))
      ensures old(Valid()) ==> Valid()
    {
      var existing := FindIndex(exams, ExamKey, exam.id);
      if existing.Some? {
        exams := exams[existing.value := exam.(updated_at := Some(now))];
      } else {
        exams := exams + [exam];
      }
      assert exams == Upsert(old(exams), ExamKey, Stamped(old(exams), exam, now));
      if old(Valid()) {
        UpsertKeepsUnique(old(exams), ExamKey, Stamped(old(exams), exam, now));
      }
    }

    /** `deleteExam(id)`: drop the exam, its questions and its attempts; answer options and
        answers are left as they are. */
    method DeleteExam(examId: string)
      modifies this`exams, this`questions, this`attempts
      ensures exams == Without(old(exams), ExamKey, examId)
      ensures questions == Without(old(questions), QuestionExam, examId)
      ensures attempts == Without(old(attempts), ExamOf, examId)
      ensures forall e :: e in exams ==> e.id != examId
      ensures forall q :: q in questions ==> q.exam_id != examId
      ensures forall a :: a in attempts ==> a.exam_id != examId
      ensures answerOptions == old(answerOptions) && answers == old(answers)
      ensures old(Valid()) ==> Valid()
    {
      exams := Without(exams, ExamKey, examId);
      questions := Without(questions, QuestionExam, examId);
      attempts := Without(attempts, ExamOf, examId);
      if old(Valid()) {
        WithoutKeepsUnique(old(exams), ExamKey, examId, ExamKey);
        WithoutKeepsUnique(old(questions), QuestionExam, examId, QuestionKey);
        WithoutKeepsUnique(old(attempts), ExamOf, examId, AttemptKey);
      }
    }

    /** `saveQuestions(batch)`: each question of the batch upserted in turn. */
    method SaveQuestions(batch: seq<Question>)
      modifies this`questions
      ensures questions == UpsertAll(old(questions), QuestionKey, batch)
      ensures old(Valid()) ==> Valid()
    {
      var all := questions;
      for i := 0 to |batch|
        invariant all == UpsertAll(old(questions), QuestionKey, batch[..i])
      {
        UpsertAllPrefixStep(old(questions), QuestionKey, batch, i);
        var existing := FindIndex(all, QuestionKey, batch[i].id);
        if existing.Some? {
          all := all[existing.value := batch[i]];
        } else {
          all := all + [batch[i]];
        }
      }
      assert batch[..|batch|] == batch;
      questions := all;
      if old(Valid()) {
        UpsertAllKeepsUnique(old(questions), QuestionKey, batch);
      }
    }

    /** `saveAnswerOptions(batch)`: each option of the batch upserted in turn. */
    method SaveAnswerOptions(batch: seq<AnswerOption>)
      modifies this`answerOptions
      ensures answerOptions == UpsertAll(old(answerOptions), OptionKey, batch)
      ensures old(Valid()) ==> Valid()
    {
      var all := answerOptions;
      for i := 0 to |batch|
        invariant all == UpsertAll(old(answerOptions), OptionKey, batch[..i])
      {
        UpsertAllPrefixStep(old(answerOptions), OptionKey, batch, i);
        var existing := FindIndex(all, OptionKey, batch[i].id);
        if existing.Some? {
          all := all[existing.value := batch[i]];
        } else {
          all := all + [batch[i]];
        }
      }
      assert batch[..|batch|] == batch;
      answerOptions := all;
      if old(Valid()) {
        UpsertAllKeepsUnique(old(answerOptions), OptionKey, batch);
      }
    }

    /** `saveAttempt(attempt)`: replace the attempt with that id, or append. */
    method SaveAttempt(attempt: ExamAttempt)
      modifies this`attempts
      ensures attempts == Upsert(old(attempts), AttemptKey, attempt)
      ensures Find(attempts, AttemptKey, attempt.id) == Some(attempt)
      ensures old(Valid()) ==> Valid()
    {
      var existing := FindIndex(attempts, AttemptKey, attempt.id);
      if existing.Some? {
        attempts := attempts[existing.value := attempt];
      } else {
        attempts := attempts + [attempt];
      }
      assert attempts == Upsert(old(attempts), AttemptKey, attempt);
      if old(Valid()) {
        UpsertKeepsUnique(old(attempts), AttemptKey, attempt);
      }
    }

    /** `saveAnswer(answer)`: replace the answer with that id, or append. */
    method SaveAnswer(answer: StudentAnswer)
      modifies this`answers
      ensures answers == Upsert(old(answers), AnswerKey, answer)
      ensures Find(answers, AnswerKey, answer.id) == Some(answer)
      ensures old(Valid()) ==> Valid()
    {
      var existing := FindIndex(answers, AnswerKey, answer.id);
      if existing.Some? {
        answers := answers[existing.value := answer];
      } else {
        answers := answers + [answer];
      }
      assert answers == Upsert(old(answers), AnswerKey, answer);
      if old(Valid()) {
        UpsertKeepsUnique(old(answers), AnswerKey, answer);
      }
    }

    /** `getTotalStudents()`: how many distinct students have an attempt. */
    function GetTotalStudents(): (n: nat)
      reads this
      ensures n == |set a | a in attempts :: a.student_id|
      ensures n <= |attempts|
      ensures n == 0 <==> attempts == []
    {
      var ks := Keys(attempts, StudentOf);
      assert Distinct(ks) == set a | a in attempts :: a.student_id by {
        forall k | k in Distinct(ks) ensures k in set a | a in attempts :: a.student_id {
          var i :| 0 <= i < |ks| && ks[i] == k;
          assert attempts[i] in attempts;
        }
        forall a | a in attempts ensures a.student_id in Distinct(ks) {
          var i :| 0 <= i < |attempts| && attempts[i] == a;
          assert ks[i] == a.student_id;
        }
      }
      DistinctBound(ks);
      assert attempts != [] ==> ks[0] in Distinct(ks);
      |Distinct(ks)|
    }
  }
}
