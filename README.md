# Online exam app: a Dafny model of its record store, session and exam pages

The app lets teachers write multiple-choice exams and lets students take them. It keeps five
record collections in browser storage: exams, questions, answer options, exam attempts and
student answers. It also keeps a user registry and a signed-in session. This project models
the following parts in Dafny 4.11:

- **Record store** (`Storage.RecordStore`). A class with one `seq` field per collection.
  - The getters are functions: filters that keep order.
  - The saves and the delete are methods. Each is proved against the generic upsert, batch
    upsert and filter of `Records`.
- **Session store** (`Auth.AuthStore`). A class holding the registry, `user` and
  `isAuthenticated`, with `Login`, `Register` and `Logout` methods.
  - Its invariant `Valid`: the session is signed in exactly when it holds a user.
- **Pure helpers**:
  - score and grade arithmetic (`Score`);
  - form validation (`Validation`);
  - route building (`Routes`);
  - the route guard (`Guard`).
- **Page logic** behind the screens. The rendering is left out.
  - Taking an exam and submitting it (`TakeExam`).
  - The result page (`ExamResult`).
  - The per-exam summary of a student's attempts (`MyResults`).
  - Writing and editing an exam (`CreateExam`, `EditExam`).
  - The teacher's analytics and student reports (`Analytics`, `StudentReports`).

`Math.round(n / d)` is modelled exactly on integers as round-half-up: `Stats.RoundDiv`,
`Stats.Percent`, `Stats.RoundedMean`. Timestamps are integers. The clock and the random or
time-based ids are parameters. Loops in the source are methods with loop invariants:
- the batch saves;
- scoring a submission;
- grouping attempts by exam;
- the score distribution.

## Model

| member | source | states |
|---|---|---|
| Storage.RecordStore.constructor | src/utils/storage.ts:13 | Nothing stored reads as empty collections. An empty store is well formed: every collection has unique ids. |
| Storage.RecordStore.GetExams | src/utils/storage.ts:12-15 | A falsy teacher id returns every exam. Otherwise the result is an order-preserving subsequence holding exactly the exams created by that teacher. |
| Storage.RecordStore.GetExam | src/utils/storage.ts:17-25 | Present exactly when some stored exam has the id. The result is that stored exam. `getExam` and `getExamById` are this one function. |
| Records.FindFirst | src/utils/storage.ts:17-20 | The exam found is the first one with that id in stored order. |
| Storage.RecordStore.GetQuestions | src/utils/storage.ts:51-57 | A falsy exam id returns every question. Otherwise the result is an order-preserving subsequence of exactly the questions of that exam. |
| Storage.RecordStore.GetAnswerOptions | src/utils/storage.ts:74-80 | The same contract for the options of one question. |
| Storage.RecordStore.GetAttempts | src/utils/storage.ts:97-103 | The same contract for the attempts on one exam. |
| Storage.RecordStore.GetAnswers | src/utils/storage.ts:118-124 | The same contract for the answers of one attempt. |
| Storage.RecordStore.Stamped | src/utils/storage.ts:27-38 | A re-saved exam gets `updated_at` set to the clock. A new exam is stored as given. |
| Storage.RecordStore.SaveExam | src/utils/storage.ts:27-38 | The new exams are the old ones with the stamped exam upserted. An existing id keeps the length. A new id is appended at the end. The exam read back is the stamped one. Unique ids stay unique. |
| Storage.RecordStore.DeleteExam | src/utils/storage.ts:40-49 | No exam with that id is left, and no question or attempt of that exam. All other records keep their relative order. Options and answers are untouched. Unique ids stay unique. |
| Storage.RecordStore.SaveQuestions | src/utils/storage.ts:59-72 | The loop leaves the questions equal to the batch upsert of the old questions. Unique ids stay unique. |
| Storage.RecordStore.SaveAnswerOptions | src/utils/storage.ts:82-95 | The loop leaves the options equal to the batch upsert of the old options. Unique ids stay unique. |
| Storage.RecordStore.SaveAttempt | src/utils/storage.ts:105-116 | The attempts are the old ones with this attempt upserted. It reads back by its id. Unique ids stay unique. |
| Storage.RecordStore.SaveAnswer | src/utils/storage.ts:126-137 | The answers are the old ones with this answer upserted. It reads back by its id. Unique ids stay unique. |
| Storage.RecordStore.GetTotalStudents | src/utils/storage.ts:139-143 | The number of distinct student ids among the attempts. It is at most the number of attempts, and 0 exactly when there are none. |
| Records.Upsert | src/utils/storage.ts:105-116 | The record reads back by its id. Other positions are unchanged. A known id keeps the length and a new id is appended. |
| Records.UpsertAllLastWriteWins | src/utils/storage.ts:59-72 | After a batch upsert, a batch id maps to the last batch element with that id. Any other id maps to what it mapped to before. |
| Records.UpsertAllKeepsOthers | src/utils/storage.ts:59-72 | Stored records keep their positions. Those whose id is not in the batch keep their values. |
| Records.UpsertAllAppendsNew | src/utils/storage.ts:59-72 | The records past the old length carry the batch's new ids, once each, in batch order. |
| Records.UpsertKeepsUnique | src/utils/storage.ts:105-116 | Upserting one record keeps the ids unique. |
| Records.UpsertAllKeepsUnique | src/utils/storage.ts:82-95 | A batch upsert keeps the ids unique. |
| Records.UpsertAllReadBack | src/utils/storage.ts:59-72 | Every element of a batch with unique ids reads back after the batch upsert. |
| Auth.FindUser | src/store/authStore.ts:35-38 | Absent exactly when no record matches email, password and role exactly. Otherwise it is the first matching registry record. |
| Auth.UserExists | src/store/authStore.ts:40-43 | Holds exactly when some registry record has that email. |
| Auth.RegisterThenLogin | src/store/authStore.ts:71-98 | A user appended to a registry without their email is found again by logging in with their own credentials. |
| Auth.AuthStore.constructor | src/store/authStore.ts:45-49 | The initial session is anonymous and satisfies the session invariant. |
| Auth.AuthStore.SaveUser | src/store/authStore.ts:29-33 | Appends exactly one record to the registry. |
| Auth.AuthStore.Login | src/store/authStore.ts:51-69 | No match gives the invalid-credentials error and leaves the session unchanged. A match signs in the matched user without the password. The registry is never written. The session invariant is kept. |
| Auth.AuthStore.Register | src/store/authStore.ts:71-98 | A known email gives the duplicate-email error and changes nothing. Otherwise exactly one record with the given fields is appended and the session becomes that user. The session invariant and distinct registry emails are kept. |
| Auth.AuthStore.Logout | src/store/authStore.ts:100-102 | The session ends anonymous from any state. |
| Score.CalculateScore | src/utils/score.ts:1-4 | 0 for no questions. Otherwise 100·c/t rounded half up. It lies in 0..100 when 0 ≤ c ≤ t. |
| Score.CalculatePercentage | src/utils/score.ts:6-9 | The same rounding and bounds as the score. |
| Score.ScoreExtremes | src/utils/score.ts:1-4 | No correct answers scores 0. All correct scores 100. |
| Score.ScoreMonotone | src/utils/score.ts:1-4 | More correct answers never lower the score. |
| Score.GetGrade | src/utils/score.ts:11-17 | A for ≥ 90, B for 80..89, C for 70..79, D for 60..69, F below, each as an if-and-only-if. |
| Score.GradeMonotone | src/utils/score.ts:11-17 | A higher percentage never gets a later letter. |
| Score.GetGradeColor | src/utils/score.ts:19-25 | The colour chosen for each grade band. |
| Score.ColorBandsAreGradeBands | src/utils/score.ts:19-25 | Two percentages get the same colour exactly when they get the same grade. |
| Validation.EmailPatternIff | src/utils/validation.ts:1-4 | The email pattern accepts a string exactly when it has no whitespace, one `@` with text before it, and after it a `.` that is neither first nor last. |
| Validation.EmailRejects | src/utils/validation.ts:1-4 | No `@`, two `@`, or any whitespace is rejected. |
| Validation.ValidatePassword | src/utils/validation.ts:6-17 | Invalid with the length message exactly when shorter than 6. Otherwise valid with no message. |
| Validation.ValidateRequired | src/utils/validation.ts:19-24 | `<field> is required` exactly when the value is empty or whitespace only. |
| Validation.ValidateForm | src/utils/validation.ts:26-40 | An error for key k exactly when k has a rule and the rule gives a truthy message for the value. That message is the entry. Keys come only from the rules. |
| Routes.FillIdAfter | src/utils/routes.ts:1-16 | Replacing `:id` in a template without other colons splices the id in its place. |
| Routes.GetTeacherEditExamRoute | src/utils/routes.ts:18-20 | The edit template with the id filled in. |
| Routes.GetTeacherExamResultsRoute | src/utils/routes.ts:22-24 | The results template with the id filled in. |
| Routes.GetStudentTakeExamRoute | src/utils/routes.ts:26-28 | The take-exam template with the id filled in. |
| Routes.GetStudentExamResultRoute | src/utils/routes.ts:30-32 | The result template with the id filled in. It is the take-exam route followed by `/result`. |
| Routes.RoutesInjective | src/utils/routes.ts:18-32 | Each builder maps distinct ids to distinct paths. |
| Guard.ProtectedRoute | src/components/ProtectedRoute.tsx:10-23 | No session or no user redirects to login. A user of the wrong role goes to their own dashboard. The page renders exactly when signed in with an allowed role or no role restriction. |
| Guard.NoCrossDashboard | src/components/ProtectedRoute.tsx:17-20 | A teacher is never sent to the student dashboard, nor a student to the teacher dashboard. |
| TakeExam.ByPositionTotal | src/pages/student/TakeExam.tsx:52-53 | Ordering questions by position is a total preorder. |
| TakeExam.ByLetterTotal | src/pages/student/TakeExam.tsx:54-56 | Ordering options by letter is a total preorder. |
| TakeExam.OptionsFor | src/pages/student/TakeExam.tsx:54-56 | A question's options are a permutation of its stored options, sorted by letter. |
| TakeExam.WithOptions | src/pages/student/TakeExam.tsx:50-57 | The questions are kept in order, each with its stored options sorted by letter. |
| TakeExam.LoadExam | src/pages/student/TakeExam.tsx:34-61 | A falsy id or an unknown exam gives "Exam not found". It succeeds exactly otherwise. The questions are then a permutation of the stored ones sorted by position, each with its options sorted by letter. |
| TakeExam.HandleNext | src/pages/student/TakeExam.tsx:67-71 | Moves forward by one exactly when not on the last question, else stays. It stays within 0..total−1. |
| TakeExam.HandlePrevious | src/pages/student/TakeExam.tsx:73-77 | Moves back by one exactly when not on the first question, else stays. It stays within 0..total−1. |
| TakeExam.SelectedOption | src/pages/student/TakeExam.tsx:88-99 | The chosen option is the first of the question's options with the selected id. There is none exactly when the question is unanswered or no option has that id. |
| TakeExam.DraftFor | src/pages/student/TakeExam.tsx:88-100 | The answer carries the question id and the student's selected option id. It is correct exactly when the selected option exists and is correct. An unanswered question gets an empty selection and is not correct. |
| TakeExam.DraftCorrectness | src/pages/student/TakeExam.tsx:88-100 | Correct implies the selected id is a correct option of the question. With unique option ids this is an if-and-only-if. |
| TakeExam.CountCorrectSnoc | src/pages/student/TakeExam.tsx:102 | Adding an answer raises the correct count by one exactly when it is correct. |
| TakeExam.ScoreAnswers | src/pages/student/TakeExam.tsx:87-102 | The loop builds one answer per question, in order, and counts the correct ones. The count is at most the number of questions. |
| TakeExam.AnswerRecords | src/pages/student/TakeExam.tsx:118-124 | One answer record per question, in order, with id `${attemptId}-ans${i}` and the attempt's id. The ids are unique. |
| TakeExam.AttemptFor | src/pages/student/TakeExam.tsx:102-114 | The attempt has the question count and is completed. Its time taken is the elapsed milliseconds divided by 1000 and rounded down. Its score lies in 0..100 and is 100·correct/total rounded half up. |
| TakeExam.SaveAnswerRecords | src/pages/student/TakeExam.tsx:118-124 | The loop saves the answers one by one, leaving the batch upsert of the records. Unique ids stay unique. |
| TakeExam.HandleSubmit | src/pages/student/TakeExam.tsx:79-129 | A falsy user or exam id writes nothing. Otherwise the scored attempt and then every answer record are upserted. The store stays well formed. |
| TakeExam.SubmittedAnswersReadBack | src/pages/student/TakeExam.tsx:118-124 | Every saved answer reads back by its id, whatever was stored before. |
| ExamResult.AnsweredOption | src/pages/student/ExamResult.tsx:67-72 | The shown option is one the student selected for this question. There is none without an answer. With one answer per question it is that answer's option. |
| ExamResult.DetailFor | src/pages/student/ExamResult.tsx:67-80 | The row has the question text. The answer is "Not answered" exactly when no selected option is found, else the option's letter and text. The correct answer is "Unknown" exactly when no option is correct, else the first correct one. The row is correct only with a stored correct answer. |
| ExamResult.Details | src/pages/student/ExamResult.tsx:64-80 | One row per stored question of the exam, in stored order. |
| ExamResult.ShownCorrectAsWritten | src/pages/student/ExamResult.tsx:59 | The page's count is score·total/100 rounded half up. |
| ExamResult.ShownCorrectExactUpTo100 | src/pages/student/ExamResult.tsx:59 | With 1..100 questions that count equals the count that was scored. |
| ExamResult.ShownCorrectOffAt101 | src/pages/student/ExamResult.tsx:59 | With 101 questions, 50 and 51 correct both score 50, and the page shows 51. |
| ExamResult.CorrectCount | src/pages/student/ExamResult.tsx:59 | The number of correct stored answers. It is 0 exactly when none is correct. |
| ExamResult.CorrectRecordsCount | src/pages/student/TakeExam.tsx:118-124 | The saved answer records carry exactly the correct count of the submission. |
| ExamResult.CorrectCountOfSubmit | src/pages/student/ExamResult.tsx:59 | Reading back a fresh attempt's answers gives the count it was scored with. |
| ExamResult.LoadResults | src/pages/student/ExamResult.tsx:35-83 | A falsy or unknown attempt gives "Attempt not found". A missing exam gives "Exam not found". Otherwise the view shows the title, the total, the stored percentage, the time and the correct count, with one detail row per question. |
| ExamResult.SplitTime | src/pages/student/ExamResult.tsx:110-114 | Minutes·60 + seconds is the time, with 0 ≤ seconds < 60. |
| ExamResult.FormatTimeInjective | src/pages/student/ExamResult.tsx:110-114 | Different times are shown differently. |
| MyResults.LaterFirstTotal | src/pages/student/MyResults.tsx:49-51 | Ordering by completion date, latest first, is a total preorder. |
| MyResults.TitleOf | src/pages/student/MyResults.tsx:53-62 | The exam's title, or the unknown-exam fallback when the exam is missing or its title is empty. |
| MyResults.WithTitles | src/pages/student/MyResults.tsx:53-62 | Each attempt in order, paired with its exam's title. |
| MyResults.SummaryNew | src/pages/student/MyResults.tsx:68-77 | The first attempt of an exam starts a summary that is correct for the attempts seen so far. |
| MyResults.SummaryUpdate | src/pages/student/MyResults.tsx:78-85 | A later attempt of the same exam keeps the summary correct: its count, best score, and the latest attempt, replaced only by a strictly later date. |
| MyResults.GroupStepNew | src/pages/student/MyResults.tsx:65-87 | One grouping step on an unseen exam keeps the grouping invariant. |
| MyResults.GroupStepUpdate | src/pages/student/MyResults.tsx:65-87 | One grouping step on a seen exam keeps the grouping invariant. |
| MyResults.GroupByExam | src/pages/student/MyResults.tsx:65-87 | The loop yields one summary per distinct exam id, in first-seen order. Each summary is correct for its exam. |
| MyResults.CountsCoverAll | src/pages/student/MyResults.tsx:63-87 | The per-exam counts over the distinct exam ids add up to the number of attempts. |
| MyResults.AttemptTotalPermutation | src/pages/student/MyResults.tsx:89-92 | Reordering the summaries keeps their attempt total. |
| MyResults.SummariseByExam | src/pages/student/MyResults.tsx:63-92 | One summary per distinct exam, with correct figures. The attempt counts add up to the number of attempts. Results are sorted by last attempt date, latest first. |
| MyResults.LoadResults | src/pages/student/MyResults.tsx:46-94 | Only this student's completed attempts are used, latest first. A falsy id yields nothing. The summaries satisfy the properties of SummariseByExam. |
| MyResults.ScoreVariant | src/pages/student/MyResults.tsx:96-100 | success for ≥ 70, warning for 50..69, error below, each as an if-and-only-if. |
| MyResults.AvgScore | src/pages/student/MyResults.tsx:102-104 | 0 without attempts. Otherwise the rounded mean, which lies between the lowest and highest score. |
| Analytics.CompletedAttemptsOf | src/pages/teacher/Analytics.tsx:32-34 | An attempt is listed exactly when it is completed and stored under one of the given exams. |
| Analytics.CompletedAttemptsOnce | src/pages/teacher/Analytics.tsx:32-34 | With distinct, non-empty exam ids, the list holds each completed stored attempt on those exams exactly as often as it is stored (equal multisets). |
| Analytics.CompletedStep | src/pages/teacher/Analytics.tsx:32-34 | Adding one more exam with a new id adds exactly its completed attempts. |
| Analytics.CountedAttempts | src/pages/teacher/Analytics.tsx:27-37 | Nothing without a signed-in teacher. Otherwise only completed stored attempts. |
| Analytics.CountedAttemptsAreTheTeachers | src/pages/teacher/Analytics.tsx:27-37 | An attempt is counted exactly when it is completed and on one of this teacher's exams. In a well-formed store each such stored attempt is counted once per copy stored: same multiset, same count. |
| Analytics.CountedMembers | src/pages/teacher/Analytics.tsx:27-37 | The membership half of CountedAttemptsAreTheTeachers. |
| Analytics.CountedOncePerStored | src/pages/teacher/Analytics.tsx:27-37 | In a well-formed store the counted attempts are the completed stored attempts on the teacher's exams, with multiplicity, so the total is their number. |
| Analytics.SameTest | src/pages/teacher/Analytics.tsx:29-34 | Testing against the listed teacher exams is the same as testing the exam's creator. |
| Analytics.OverviewOf | src/pages/teacher/Analytics.tsx:39-46 | Attempt count. Distinct students, at most the attempts. Rounded mean score between the extremes. Pass rate in 0..100 as rounded 100·passed/n. Both figures are 0 without attempts. |
| Analytics.PassRateExtremes | src/pages/teacher/Analytics.tsx:44-46 | All passing gives 100. None passing gives 0. |
| Analytics.ExamAnalyticsOf | src/pages/teacher/Analytics.tsx:48-63 | Absent exactly when the exam has no counted attempt. Otherwise lowest ≤ average ≤ highest, and the pass rate lies in 0..100. |
| Analytics.FindRange | src/pages/teacher/Analytics.tsx:65-80 | The first band containing the score, or none exactly when no band contains it. |
| Analytics.RangesPartition | src/pages/teacher/Analytics.tsx:65-80 | The five bands are pairwise disjoint. A score lies in some band exactly when it is in 0..100. |
| Analytics.CountStep | src/pages/teacher/Analytics.tsx:72-78 | One loop step keeps every band counting the scores seen so far. |
| Analytics.ScoreDistribution | src/pages/teacher/Analytics.tsx:65-80 | The loop leaves each band with its bounds and the number of attempts whose score falls in it. |
| Analytics.DistributionTotal | src/pages/teacher/Analytics.tsx:65-80 | The band counts add up to the number of attempts scoring within 0..100. |
| Analytics.MaxDistCount | src/pages/teacher/Analytics.tsx:83 | At least 1 and at least every band count. It is 1 or some band's count. |
| StudentReports.Students | src/pages/teacher/StudentReports.tsx:45-56 | The registry's students in registry order, one entry per registry entry, each without its password. |
| StudentReports.StudentsDistinct | src/pages/teacher/StudentReports.tsx:45-56 | With unique registered emails (as registration keeps them), no student is listed twice. |
| StudentReports.TotalTime | src/pages/teacher/StudentReports.tsx:102-105 | The sum of the times taken, a missing time counting 0. Non-negative when every time is. |
| StudentReports.DetailLaterFirstTotal | src/pages/teacher/StudentReports.tsx:111-114 | Ordering exam details latest first is a total preorder. |
| StudentReports.Recent | src/pages/teacher/StudentReports.tsx:106-110 | min(5, n) of the student's attempts, a sub-multiset of them, sorted latest first. No left-out attempt is later than a kept one. |
| StudentReports.SortedDetails | src/pages/teacher/StudentReports.tsx:111-114 | Every attempt with its exam, a permutation of the details sorted latest first. |
| StudentReports.ReportFor | src/pages/teacher/StudentReports.tsx:73-116 | A report exists exactly when the student has a counted attempt. It is for that student, with at least one attempt. |
| StudentReports.ReportFigures | src/pages/teacher/StudentReports.tsx:86-114 | Rounded mean between lowest and highest score. Distinct exams from 1 to the attempt count. Total time. The five latest attempts. The sorted exam details. |
| StudentReports.ReportsInOrder | src/pages/teacher/StudentReports.tsx:73-119 | The i-th report is the report of the i-th student that has one. |
| StudentReports.ReportsMembers | src/pages/teacher/StudentReports.tsx:73-119 | Every report is some listed student's report, and every listed student with counted attempts has theirs. The reports are those students' reports, in their order, one each. Distinct students give reports for distinct students. |
| StudentReports.LoadStudentReports | src/pages/teacher/StudentReports.tsx:66-119 | Nothing without a signed-in teacher. Otherwise, in registry order, one report per student with completed attempts on this teacher's exams. With unique registered emails no student has two reports. |
| StudentReports.EveryActiveStudentReported | src/pages/teacher/StudentReports.tsx:73-84 | A student with a counted attempt appears among the reports. |
| StudentReports.OrdersTotal | src/pages/teacher/StudentReports.tsx:133-144 | Each of the three sort orders is a total preorder. |
| StudentReports.FilterAndSort | src/pages/teacher/StudentReports.tsx:121-147 | A permutation of the reports whose lower-cased name or email contains the lower-cased query, sorted by the chosen key. A blank query keeps every report. |
| StudentReports.PerformanceBadge | src/pages/teacher/StudentReports.tsx:149-154 | Excellent for ≥ 90, Good for 75..89, Average for 60..74, Needs Improvement below, each as an if-and-only-if. |
| StudentReports.BadgeMonotone | src/pages/teacher/StudentReports.tsx:149-154 | A higher average never gets a lower badge. |
| StudentReports.OverallStatsOf | src/pages/teacher/StudentReports.tsx:161-190 | All zero without reports. The student count. The rounded mean of averages, between the extremes. The attempt sum. The number of reports averaging ≥ 90. |
| StudentReports.AttemptsAtLeastStudents | src/pages/teacher/StudentReports.tsx:161-190 | Reports with at least one attempt each total at least as many attempts as students. |
| StudentReports.ExcellentIsBadge | src/pages/teacher/StudentReports.tsx:149-190 | A report counts as excellent exactly when its badge is Excellent. |
| CreateExam.AddQuestion | src/pages/teacher/CreateExam.tsx:39-44 | Appends one blank question (four empty options, the first correct). Earlier entries are unchanged. |
| CreateExam.RemoveQuestion | src/pages/teacher/CreateExam.tsx:46-50 | With more than one entry, exactly the entries with that id are dropped, in order. Otherwise nothing changes. With unique ids the list never becomes empty. The editor's `removeQuestion` (src/pages/teacher/EditExam.tsx:84-88) is the same operation. |
| CreateExam.BuildOptions | src/pages/teacher/CreateExam.tsx:79-85 | Option j gets id `${questionId}-opt${j}`, the question id, the text and letter chr(65+j). It is correct exactly when j is the chosen index. The ids are unique. |
| CreateExam.OneCorrectOption | src/pages/teacher/CreateExam.tsx:83 | Exactly one option is correct when the index is in range, and none otherwise. |
| CreateExam.ExamQuestions | src/pages/teacher/CreateExam.tsx:72-90 | The i-th entry becomes question `${examId}-q${i}` of the exam at position i. The ids are unique. |
| CreateExam.FlatOptions | src/pages/teacher/CreateExam.tsx:91 | Exactly the options of all questions. No questions give none, and one question gives its own options. |
| CreateExam.FlatOptionsConcat | src/pages/teacher/CreateExam.tsx:91 | Flattening distributes over concatenation, so each question's options stay together, in question order. |
| CreateExam.FlatOptionsUnique | src/pages/teacher/CreateExam.tsx:72-91 | The flattened options have unique ids. |
| CreateExam.NewExam | src/pages/teacher/CreateExam.tsx:60-68 | The exam has the new id and the author. Its question count is the number of entries. It has no update stamp. |
| CreateExam.HandleSubmit | src/pages/teacher/CreateExam.tsx:52-101 | No user writes nothing. Otherwise the exam, its questions and all their options are upserted, and the exam is readable by its new id. The store stays well formed. |
| CreateExam.SubmittedReadBack | src/pages/teacher/CreateExam.tsx:72-92 | Every saved question and option reads back by its id. |
| EditExam.FirstCorrect | src/pages/teacher/EditExam.tsx:69 | The index of the first correct option, or −1 exactly when none is correct. |
| EditExam.FormOf | src/pages/teacher/EditExam.tsx:63-70 | The entry has the question's id and text. Its option texts are those of a letter-sorted permutation of the options, and its correct index is the first correct position in that order. The index is −1 exactly when no option is correct. |
| EditExam.LoadForEdit | src/pages/teacher/EditExam.tsx:42-75 | Not found for a falsy id or an unknown exam. Permission denied exactly when the user is not the author. Otherwise the stored title and description, and one entry per stored question, or one blank entry when there are none. |
| EditExam.FormRoundTrip | src/pages/teacher/EditExam.tsx:63-70 | Loading a saved entry gives it back under its saved id. An out-of-range correct index reads as −1. |
| EditExam.QuestionIdAsWritten | src/pages/teacher/EditExam.tsx:110 | A kept id when it starts with the exam id, else `${id}-q${index}`. |
| EditExam.QuestionIdsCollide | src/pages/teacher/EditExam.tsx:110 | Two entries with distinct ids can be given the same question id. |
| EditExam.QuestionId | src/pages/teacher/EditExam.tsx:110 | A kept id stays. A new id is longer than every entry id. |
| EditExam.EditedQuestions | src/pages/teacher/EditExam.tsx:109-125 | One question per entry, at its position, with the ids of QuestionId. |
| EditExam.EditedQuestionsUnique | src/pages/teacher/EditExam.tsx:109-125 | Entries with distinct ids are saved under distinct question ids. |
| EditExam.CreatedAt | src/pages/teacher/EditExam.tsx:104 | The stored creation date when the exam exists, else the clock. |
| EditExam.HandleSubmit | src/pages/teacher/EditExam.tsx:90-139 | No id writes nothing. No user fails before any write. Otherwise the exam keeps its creation date, gets the entry count and the update stamp, and its questions and options are upserted. The store stays well formed. |
| EditExam.RemovedQuestionStays | src/pages/teacher/EditExam.tsx:126 | A stored question whose id no entry gets is still stored after saving. |

## Left out

- Rendering is left out: JSX, React hooks, navigation, `setTimeout` redirects, and the UI and layout components.
- Browser storage and JSON encoding are left out. Each collection and the registry are in-memory sequences. The crash on malformed stored JSON is not modelled.
- The zustand `persist` middleware, promises and the 800 ms delays are left out. Each session operation is one atomic method.
- The clock, `Math.random` and `Date.now()` ids are parameters. Dates are integer timestamps.
- Floating point is not modelled. `Math.round(x / y)` is exact round-half-up on integers. Display-only percentages such as bar widths and the progress bar are left out.
- Unicode is not modelled:
  - `toLowerCase` is ASCII lower-casing.
  - `localeCompare` is code-point order.
  - `\s` and `trim` use a fixed set of whitespace characters.
- `formatDate`, `cn` and the `formatTime` of the student reports page are left out. They only format text for display.
- The login and register form pages, the dashboards, exam management, exam history and `NotFound` are left out. Their logic repeats what is modelled here.
- CreateExam.BuildOptions: option letters are characters, so the model needs at most `MaxOptions` options per question (the JavaScript string has no such limit).
- TakeExam.HandleSubmit: requires at least one question. The page offers submit only on the last question, and with none the source would store a NaN score.
- Storage.RecordStore.GetAttempts: a falsy exam id returns every attempt. So Analytics.CountedAttemptsAreTheTeachers assumes stored exams have non-empty ids.
- EditExam.FormOf: sorting the loaded options in place also reorders the option array held in the loaded record. The model sorts a copy.
- EditExam.HandleSubmit: every form entry whose id does not start with the exam id gets `${id}-q${10^L + index}` (EditExam.QuestionId, L the length of the longest entry id in the form) rather than `${id}-q${index}`, even when no collision would happen. This covers entries added with time-stamp ids and the blank entry with id "1". It is the corrected behaviour in the findings below.
- ExamResult.LoadResults: the correct count shown is ExamResult.CorrectCount over the stored answers, the corrected behaviour in the findings below. The page's own formula is ExamResult.ShownCorrectAsWritten.
- Validation.ValidateForm: rules are total functions on an optional value. A rule that throws is not modelled.

## Findings

| source | as written | input that shows it | evidently intended | confidence | as-written member | corrected member |
|---|---|---|---|---|---|---|
| src/pages/student/ExamResult.tsx:59 | The correct count shown is `Math.round(score / 100 * total_questions)`, recovered from the rounded percentage. | 101 questions with 50 correct: the score is 50 and the page shows 51 correct. 51 correct also scores 50. | Show the number of correct stored answers. | not executed | ExamResult.ShownCorrectAsWritten, ExamResult.ShownCorrectOffAt101 | ExamResult.CorrectCount, ExamResult.CorrectCountOfSubmit |
| src/pages/teacher/EditExam.tsx:110 | A new entry is saved as `${id}-q${index}`, which can equal a kept id. | Exam `E` with a kept entry `E-q1` at index 0 and a new entry `7` at index 1: both are saved as `E-q1`, and the new question overwrites the kept one. | Entries with distinct ids are saved under distinct question ids. | not executed | EditExam.QuestionIdAsWritten, EditExam.QuestionIdsCollide | EditExam.QuestionId, EditExam.EditedQuestionsUnique |
