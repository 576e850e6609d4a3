/** Integer arithmetic behind every displayed number: `Math.round` of a ratio, sums,
    extremes and the rounded mean. */
module Stats {

  /** `Math.round(n / d)` for d > 0, computed exactly on integers: the nearest integer to
      n / d, halves rounded up (as `Math.round` does, also for negative n). */
  function RoundDiv(n: int, d: int): (r: int)
    requires d > 0
    ensures 2 * d * r - d <= 2 * n < 2 * d * r + d
  {
    var q := (2 * n + d) / (2 * d);
    assert 2 * n + d == (2 * d) * q + (2 * n + d) % (2 * d);
    q
  }

  lemma MulMonotone(d: int, a: int, b: int)
    requires d >= 0 && a <= b
    ensures d * a <= d * b
  {
    assert d * b - d * a == d * (b - a);
  }

  /** A ratio lying between two integers rounds to a value between them. */
  lemma RoundDivBetween(n: int, d: int, lo: int, hi: int)
    requires d > 0 && d * lo <= n <= d * hi
    ensures lo <= RoundDiv(n, d) <= hi
  {
    var r := RoundDiv(n, d);
    if r < lo {
      MulMonotone(d, r, lo - 1);
    }
    if r > hi {
      MulMonotone(d, hi + 1, r);
    }
  }

  /** Rounding a ratio is monotone in the numerator. */
  lemma RoundDivMonotone(n1: int, n2: int, d: int)
    requires d > 0 && n1 <= n2
    ensures RoundDiv(n1, d) <= RoundDiv(n2, d)
  {
    var r1, r2 := RoundDiv(n1, d), RoundDiv(n2, d);
    if r1 > r2 {
      MulMonotone(d, r2 + 1, r1);
    }
  }

  /** RoundDiv is the only integer within half a unit of the ratio (halves going up). */
  lemma RoundDivUnique(n: int, d: int, r: int)
    requires d > 0 && 2 * d * r - d <= 2 * n < 2 * d * r + d
    ensures RoundDiv(n, d) == r
  {
    var q := RoundDiv(n, d);
    if q < r {
      MulMonotone(2 * d, q + 1, r);
    }
    if q > r {
      MulMonotone(2 * d, r + 1, q);
    }
  }

  /** An exact ratio rounds to itself. */
  lemma RoundDivExact(k: int, d: int)
    requires d > 0
    ensures RoundDiv(d * k, d) == k
  {
    RoundDivBetween(d * k, d, k, k);
  }

  function Sum(s: seq<int>): int {
    if s == [] then 0 else Sum(s[..|s| - 1]) + s[|s| - 1]
  }

  /** `Math.max(...s)`. */
  function MaxOf(s: seq<int>): (m: int)
    requires |s| > 0
    ensures m in s && forall i :: 0 <= i < |s| ==> s[i] <= m
  {
    if |s| == 1 then s[0]
    else
      var p := MaxOf(s[..|s| - 1]);
      assert forall i :: 0 <= i < |s| - 1 ==> s[i] == s[..|s| - 1][i];
      if s[|s| - 1] > p then s[|s| - 1] else p
  }

  /** `Math.min(...s)`. */
  function MinOf(s: seq<int>): (m: int)
    requires |s| > 0
    ensures m in s && forall i :: 0 <= i < |s| ==> m <= s[i]
  {
    if |s| == 1 then s[0]
    else
      var p := MinOf(s[..|s| - 1]);
      assert forall i :: 0 <= i < |s| - 1 ==> s[i] == s[..|s| - 1][i];
      if s[|s| - 1] < p then s[|s| - 1] else p
  }

  /** The sum lies between |s| times a lower and |s| times an upper bound of the elements. */
  lemma {:induction false} SumBounds(s: seq<int>, lo: int, hi: int)
    requires forall i :: 0 <= i < |s| ==> lo <= s[i] <= hi
    ensures |s| * lo <= Sum(s) <= |s| * hi
  {
    if s != [] {
      var p := s[..|s| - 1];
      assert forall i :: 0 <= i < |p| ==> p[i] == s[i];
      SumBounds(p, lo, hi);
      assert |s| * lo == |p| * lo + lo;
      assert |s| * hi == |p| * hi + hi;
    }
  }

  /** `Math.round(sum / n)` for a non-empty list: the rounded mean. */
  function RoundedMean(s: seq<int>): (r: int)
    requires |s| > 0
  {
    RoundDiv(Sum(s), |s|)
  }

  /** The rounded mean lies between the smallest and the largest element. */
  lemma RoundedMeanBetween(s: seq<int>)
    requires |s| > 0
    ensures MinOf(s) <= RoundedMean(s) <= MaxOf(s)
  {
    SumBounds(s, MinOf(s), MaxOf(s));
    RoundDivBetween(Sum(s), |s|, MinOf(s), MaxOf(s));
  }

  /** `Math.round(part / whole * 100)`: a rounded percentage, 0 when whole is 0. */
  function Percent(part: nat, whole: nat): (r: int)
    requires part <= whole
    ensures 0 <= r <= 100
    ensures whole == 0 ==> r == 0
    ensures whole > 0 ==> 2 * whole * r - whole <= 200 * part < 2 * whole * r + whole
  {
    if whole == 0 then 0
    else
      MulMonotone(100, part, whole);
      RoundDivBetween(100 * part, whole, 0, 100);
      RoundDiv(100 * part, whole)
  }
}
