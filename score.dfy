/** Score arithmetic: the rounded percentage of correct answers, and the letter grade and
    colour bands over a percentage. */
module Score {
  import opened Stats

  /** `calculateScore(correct, total)`: `Math.round(correct / total * 100)`, and 0 for an
      empty exam. */
  function CalculateScore(correctAnswers: int, totalQuestions: int): (r: int)
    ensures totalQuestions == 0 ==> r == 0
    ensures totalQuestions > 0 ==>
              2 * totalQuestions * r - totalQuestions <= 200 * correctAnswers < 2 * totalQuestions * r + totalQuestions
    ensures 0 <= correctAnswers <= totalQuestions ==> 0 <= r <= 100
  {
    if totalQuestions == 0 then 0
    else if totalQuestions > 0 then
      if 0 <= correctAnswers <= totalQuestions then
        MulMonotone(100, correctAnswers, totalQuestions);
        RoundDivBetween(100 * correctAnswers, totalQuestions, 0, 100);
        RoundDiv(100 * correctAnswers, totalQuestions)
      else RoundDiv(100 * correctAnswers, totalQuestions)
    else
      // a negative total: the ratio is (-100 c) / (-t)
      RoundDiv(-100 * correctAnswers, -totalQuestions)
  }

  /** `calculatePercentage(score, total)`: the same rounding of score / total * 100. */
  function CalculatePercentage(score: int, total: int): (r: int)
    ensures total == 0 ==> r == 0
    ensures total > 0 ==> 2 * total * r - total <= 200 * score < 2 * total * r + total
    ensures 0 <= score <= total ==> 0 <= r <= 100
  {
    CalculateScore(score, total)
  }

  /** No correct answer scores 0 and all correct scores 100. */
  lemma ScoreExtremes(totalQuestions: int)
    requires totalQuestions > 0
    ensures CalculateScore(0, totalQuestions) == 0
    ensures CalculateScore(totalQuestions, totalQuestions) == 100
  {
    RoundDivExact(0, totalQuestions);
    RoundDivExact(100, totalQuestions);
    assert totalQuestions * 100 == 100 * totalQuestions;
  }

  /** More correct answers never lower the score. */
  lemma ScoreMonotone(c1: int, c2: int, totalQuestions: int)
    requires totalQuestions > 0 && c1 <= c2
    ensures CalculateScore(c1, totalQuestions) <= CalculateScore(c2, totalQuestions)
  {
    RoundDivMonotone(100 * c1, 100 * c2, totalQuestions);
  }

  /** `getGrade(percentage)`. */
  function GetGrade(percentage: int): (g: string)
    ensures g == "A" <==> percentage >= 90
    ensures g == "B" <==> 80 <= percentage < 90
    ensures g == "C" <==> 70 <= percentage < 80
    ensures g == "D" <==> 60 <= percentage < 70
    ensures g == "F" <==> percentage < 60
  {
    if percentage >= 90 then "A"
    else if percentage >= 80 then "B"
    else if percentage >= 70 then "C"
    else if percentage >= 60 then "D"
    else "F"
  }

  /** The position of a grade in A, B, C, D, F. */
  function GradeRank(g: string): nat {
    if g == "A" then 0 else if g == "B" then 1 else if g == "C" then 2 else if g == "D" then 3 else 4
  }

  /** A higher percentage never earns a later letter. */
  lemma GradeMonotone(p: int, q: int)
    requires p <= q
    ensures GradeRank(GetGrade(q)) <= GradeRank(GetGrade(p))
  {
  }

  /** `getGradeColor(percentage)`. */
  function GetGradeColor(percentage: int): (c: string)
    ensures GetGrade(percentage) == "A" ==> c == "text-accent-600"
    ensures GetGrade(percentage) == "B" ==> c == "text-primary-600"
    ensures GetGrade(percentage) == "C" ==> c == "text-yellow-600"
    ensures GetGrade(percentage) == "D" ==> c == "text-orange-600"
    ensures GetGrade(percentage) == "F" ==> c == "text-red-600"
  {
    if percentage >= 90 then "text-accent-600"
    else if percentage >= 80 then "text-primary-600"
    else if percentage >= 70 then "text-yellow-600"
    else if percentage >= 60 then "text-orange-600"
    else "text-red-600"
  }

  /** Two percentages get the same colour exactly when they get the same grade. */
  lemma ColorBandsAreGradeBands(p: int, q: int)
    ensures GetGradeColor(p) == GetGradeColor(q) <==> GetGrade(p) == GetGrade(q)
  {
  }
}
