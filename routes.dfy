/** The application's paths: fixed routes, the `:id` templates, and the builders that put an
    exam or attempt id into a template. */
module Routes {
  import opened Text

  const Home: string := "/"
  const Login: string := "/login"
  const Register: string := "/register"

  const TeacherDashboard: string := "/teacher-dashboard"
  const TeacherCreateExam: string := "/teacher/create-exam"
  const TeacherExams: string := "/teacher/exams"
  const TeacherEditExam: string := "/teacher/exam/:id/edit"
  const TeacherExamResults: string := "/teacher/exam/:id/results"

  const StudentDashboard: string := "/student-dashboard"
  const StudentTakeExam: string := "/student/exam/:id"
  const StudentExamResult: string := "/student/exam/:id/result"
  const StudentHistory: string := "/student/history"

  /** The template with its first `:id` replaced by id. */
  function FillId(template: string, id: string): string
    decreases |template|
  {
    if |template| < 3 then template
    else if template[..3] == ":id" then id + template[3..]
    else [template[0]] + FillId(template[1..], id)
  }

  predicate NoColon(s: string) {
    forall i :: 0 <= i < |s| ==> s[i] != ':'
  }

  /** A template starting with a character other than a colon keeps it in front. */
  lemma FillIdCons(c: char, rest: string, id: string)
    requires c != ':' && |rest| >= 2
    ensures FillId([c] + rest, id) == [c] + FillId(rest, id)
  {
    var t := [c] + rest;
    assert t[..3][0] == c;
    assert t[1..] == rest;
  }

  /** Filling a template whose `:id` follows a colon-free prefix puts id in its place. */
  lemma {:induction false} FillIdAfter(prefix: string, suffix: string, id: string)
    requires NoColon(prefix)
    ensures FillId(prefix + ":id" + suffix, id) == prefix + id + suffix
  {
    var t := prefix + ":id" + suffix;
    if prefix == [] {
      assert t == ":id" + suffix;
      assert t[..3] == ":id";
      assert t[3..] == suffix;
    } else {
      var c, rest := prefix[0], prefix[1..];
      assert prefix == [c] + rest;
      assert t == [c] + (rest + ":id" + suffix);
      FillIdCons(c, rest + ":id" + suffix, id);
      FillIdAfter(rest, suffix, id);
      assert [c] + (rest + id + suffix) == prefix + id + suffix;
    }
  }

  /** `getTeacherEditExamRoute(examId)`. */
  function GetTeacherEditExamRoute(examId: string): (r: string)
    ensures r == FillId(TeacherEditExam, examId)
  {
    assert TeacherEditExam == "/teacher/exam/" + ":id" + "/edit";
    FillIdAfter("/teacher/exam/", "/edit", examId);
    "/teacher/exam/" + examId + "/edit"
  }

  /** `getTeacherExamResultsRoute(examId)`. */
  function GetTeacherExamResultsRoute(examId: string): (r: string)
    ensures r == FillId(TeacherExamResults, examId)
  {
    assert TeacherExamResults == "/teacher/exam/" + ":id" + "/results";
    FillIdAfter("/teacher/exam/", "/results", examId);
    "/teacher/exam/" + examId + "/results"
  }

  /** `getStudentTakeExamRoute(examId)`. */
  function GetStudentTakeExamRoute(examId: string): (r: string)
    ensures r == FillId(StudentTakeExam, examId)
  {
    assert StudentTakeExam == "/student/exam/" + ":id" + "";
    FillIdAfter("/student/exam/", "", examId);
    "/student/exam/" + examId
  }

  /** `getStudentExamResultRoute(examId)`: the take-exam path followed by `/result`. */
  function GetStudentExamResultRoute(examId: string): (r: string)
    ensures r == FillId(StudentExamResult, examId)
    ensures r == GetStudentTakeExamRoute(examId) + "/result"
  {
    assert StudentExamResult == "/student/exam/" + ":id" + "/result";
    FillIdAfter("/student/exam/", "/result", examId);
    "/student/exam/" + examId + "/result"
  }

  /** Each builder sends distinct ids to distinct paths. */
  lemma RoutesInjective(a: string, b: string)
    ensures GetTeacherEditExamRoute(a) == GetTeacherEditExamRoute(b) ==> a == b
    ensures GetTeacherExamResultsRoute(a) == GetTeacherExamResultsRoute(b) ==> a == b
    ensures GetStudentTakeExamRoute(a) == GetStudentTakeExamRoute(b) ==> a == b
    ensures GetStudentExamResultRoute(a) == GetStudentExamResultRoute(b) ==> a == b
  {
    var teacher, student := "/teacher/exam/", "/student/exam/";
    if GetTeacherEditExamRoute(a) == GetTeacherEditExamRoute(b) {
      SuffixCancel(teacher + a, teacher + b, "/edit");
      PrefixCancel(teacher, a, b);
    }
    if GetTeacherExamResultsRoute(a) == GetTeacherExamResultsRoute(b) {
      SuffixCancel(teacher + a, teacher + b, "/results");
      PrefixCancel(teacher, a, b);
    }
    if GetStudentTakeExamRoute(a) == GetStudentTakeExamRoute(b) {
      PrefixCancel(student, a, b);
    }
    if GetStudentExamResultRoute(a) == GetStudentExamResultRoute(b) {
      SuffixCancel(student + a, student + b, "/result");
      PrefixCancel(student, a, b);
    }
  }
}
