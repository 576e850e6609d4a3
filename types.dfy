/** The entities of the exam system: users, exams, questions with their lettered answer
    options, attempts and the answers given in an attempt. Timestamps are integers. */
module Types {
  import opened Wrappers

  datatype Role = Teacher | Student

  /** A signed-in user as the session holds it (no password). */
  datatype User = User(id: string, email: string, name: string, role: Role, created_at: int)

  datatype Exam = Exam(
    id: string,
    title: string,
    description: string,
    created_by: string,
    questions_count: int,
    created_at: int,
    updated_at: Option<int>)

  datatype AnswerOption = AnswerOption(
    id: string,
    question_id: string,
    text: string,
    is_correct: bool,
    option_letter: char)

  /** A question record; it carries the options it was saved with. */
  datatype Question = Question(
    id: string,
    exam_id: string,
    text: string,
    position: int,
    answer_options: seq<AnswerOption>)

  /** One sitting of an exam; `completed_at` is None while unfinished. */
  datatype ExamAttempt = ExamAttempt(
    id: string,
    exam_id: string,
    student_id: string,
    score: int,
    total_questions: int,
    started_at: int,
    completed_at: Option<int>,
    time_taken: Option<int>)

  datatype StudentAnswer = StudentAnswer(
    id: string,
    attempt_id: string,
    question_id: string,
    selected_option_id: string,
    is_correct: bool)

  // Record ids and foreign keys, as key functions for the list operations.

  function ExamKey(e: Exam): string { e.id }
  function QuestionKey(q: Question): string { q.id }
  function OptionKey(o: AnswerOption): string { o.id }
  function AttemptKey(a: ExamAttempt): string { a.id }
  function AnswerKey(a: StudentAnswer): string { a.id }
  function UserEmail(u: User): string { u.email }
  function ExamCreator(e: Exam): string { e.created_by }
  function QuestionExam(q: Question): string { q.exam_id }
  function OptionQuestion(o: AnswerOption): string { o.question_id }
  function AnswerAttempt(a: StudentAnswer): string { a.attempt_id }
  function AnswerQuestion(a: StudentAnswer): string { a.question_id }
  predicate IsCorrectOption(o: AnswerOption) { o.is_correct }
  predicate IsCorrectAnswer(a: StudentAnswer) { a.is_correct }
  function StudentOf(a: ExamAttempt): string { a.student_id }
  function ExamOf(a: ExamAttempt): string { a.exam_id }
  function ScoreOf(a: ExamAttempt): int { a.score }
  /** `a.completed_at` is set (a stored timestamp is never empty). */
  predicate IsCompleted(a: ExamAttempt) { a.completed_at.Some? }
}
