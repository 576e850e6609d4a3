/** String helpers the app relies on: decimal rendering of indices and timestamps inside
    generated ids, `startsWith`, `includes`, `trim`, `toLowerCase` and a code-point order
    standing in for `localeCompare`. */
module Text {

  // ---------------------------------------------------------------- digits

  predicate IsDigit(c: char) {
    '0' <= c <= '9'
  }

  predicate AllDigits(s: string) {
    forall i :: 0 <= i < |s| ==> IsDigit(s[i])
  }

  function DigitChar(d: nat): (c: char)
    requires d < 10
    ensures IsDigit(c)
  {
    ('0' as int + d) as char
  }

  function DigitValue(c: char): (d: nat)
    requires IsDigit(c)
    ensures d < 10 && DigitChar(d) == c
  {
    c as int - '0' as int
  }

  /** The decimal rendering `String(n)` of a non-negative integer: digits only, no leading zero. */
  function NatToString(n: nat): (s: string)
    ensures |s| > 0 && AllDigits(s)
    ensures |s| > 1 ==> s[0] != '0'
  {
    if n < 10 then [DigitChar(n)] else NatToString(n / 10) + [DigitChar(n % 10)]
  }

  /** Reads a string of digits back as a number (the inverse of NatToString). */
  function ParseDigits(s: string): nat
    requires AllDigits(s)
  {
    if s == [] then 0 else 10 * ParseDigits(s[..|s| - 1]) + DigitValue(s[|s| - 1])
  }

  lemma {:induction false} ParseNatToString(n: nat)
    ensures ParseDigits(NatToString(n)) == n
  {
    if n >= 10 {
      var s := NatToString(n);
      assert s[..|s| - 1] == NatToString(n / 10);
      ParseNatToString(n / 10);
    }
  }

  /** Distinct numbers render as distinct strings. */
  lemma NatToStringInjective(a: nat, b: nat)
    requires NatToString(a) == NatToString(b)
    ensures a == b
  {
    ParseNatToString(a);
    ParseNatToString(b);
  }

  function Pow10(k: nat): (p: nat)
    ensures p >= 1
  {
    if k == 0 then 1 else 10 * Pow10(k - 1)
  }

  /** A number of at least 10^k has more than k digits. */
  lemma {:induction false} NatToStringLength(n: nat, k: nat)
    requires n >= Pow10(k)
    ensures |NatToString(n)| > k
  {
    if k > 0 {
      NatToStringLength(n / 10, k - 1);
    }
  }

  // ---------------------------------------------------------------- generated ids

  /** The template literal `${base}${tag}${n}` used for generated ids (`-q`, `-opt`, `-ans`). */
  function TaggedId(base: string, tag: string, n: nat): string {
    base + tag + NatToString(n)
  }

  lemma SuffixCancel(x: string, y: string, s: string)
    requires x + s == y + s
    ensures x == y
  {
    assert x == (x + s)[..|x|];
    assert y == (y + s)[..|y|];
  }

  lemma PrefixCancel(p: string, x: string, y: string)
    requires p + x == p + y
    ensures x == y
  {
    assert x == (p + x)[|p|..];
    assert y == (p + y)[|p|..];
  }

  /** Two ids generated from the same base and tag are equal only for the same index. */
  lemma TaggedIdInjective(base: string, tag: string, i: nat, j: nat)
    requires TaggedId(base, tag, i) == TaggedId(base, tag, j)
    ensures i == j
  {
    assert TaggedId(base, tag, i) == (base + tag) + NatToString(i);
    assert TaggedId(base, tag, j) == (base + tag) + NatToString(j);
    PrefixCancel(base + tag, NatToString(i), NatToString(j));
    NatToStringInjective(i, j);
  }

  /** A run of digits followed by a non-digit is determined by the whole string. */
  lemma DigitRunUnique(a: string, x: string, b: string, y: string)
    requires AllDigits(a) && AllDigits(b)
    requires x != [] && !IsDigit(x[0]) && y != [] && !IsDigit(y[0])
    requires a + x == b + y
    ensures a == b && x == y
  {
    assert a == (a + x)[..|a|];
    assert b == (b + y)[..|b|];
    PrefixCancel(a, x, y);
  }

  /** Option ids `${base}-q${i}-opt${j}` are distinct for distinct pairs (i, j). */
  lemma NestedTaggedIdInjective(base: string, i: nat, j: nat, i': nat, j': nat)
    requires TaggedId(TaggedId(base, "-q", i), "-opt", j) == TaggedId(TaggedId(base, "-q", i'), "-opt", j')
    ensures i == i' && j == j'
  {
    var d, d' := NatToString(i), NatToString(i');
    var x, x' := "-opt" + NatToString(j), "-opt" + NatToString(j');
    assert TaggedId(TaggedId(base, "-q", i), "-opt", j) == (base + "-q") + (d + x);
    assert TaggedId(TaggedId(base, "-q", i'), "-opt", j') == (base + "-q") + (d' + x');
    PrefixCancel(base + "-q", d + x, d' + x');
    DigitRunUnique(d, x, d', x');
    NatToStringInjective(i, i');
    PrefixCancel("-opt", NatToString(j), NatToString(j'));
    NatToStringInjective(j, j');
  }

  // ---------------------------------------------------------------- prefixes and substrings

  /** `s.startsWith(p)`. */
  predicate StartsWith(s: string, p: string) {
    |p| <= |s| && s[..|p|] == p
  }

  /** `s.includes(q)`: q occurs in s at some offset (the empty string occurs everywhere). */
  predicate Contains(s: string, q: string) {
    exists i | 0 <= i <= |s| - |q| :: OccursAt(s, q, i)
  }

  predicate OccursAt(s: string, q: string, i: int) {
    0 <= i <= |s| - |q| && s[i..i + |q|] == q
  }

  // ---------------------------------------------------------------- whitespace and trim

  /** The characters JavaScript's `\s` and `String.prototype.trim` treat as white space
      (WhiteSpace and LineTerminator of ECMA-262). */
  predicate IsSpace(c: char) {
    c == ' ' || c == '\t' || c == '\n' || c == '\r' || c == '\U{000B}' || c == '\U{000C}'
    || c == '\U{00A0}' || c == '\U{1680}' || ('\U{2000}' <= c <= '\U{200A}')
    || c == '\U{2028}' || c == '\U{2029}' || c == '\U{202F}' || c == '\U{205F}'
    || c == '\U{3000}' || c == '\U{FEFF}'
  }

  predicate Blank(s: string) {
    forall i :: 0 <= i < |s| ==> IsSpace(s[i])
  }

  function TrimStart(s: string): (r: string)
    ensures |r| <= |s| && r == s[|s| - |r|..]
    ensures r != [] ==> !IsSpace(r[0])
  {
    if s != [] && IsSpace(s[0]) then TrimStart(s[1..]) else s
  }

  function TrimEnd(s: string): (r: string)
    ensures |r| <= |s| && r == s[..|r|]
    ensures r != [] ==> !IsSpace(r[|r| - 1])
  {
    if s != [] && IsSpace(s[|s| - 1]) then TrimEnd(s[..|s| - 1]) else s
  }

  /** `s.trim()`. */
  function Trim(s: string): string {
    TrimEnd(TrimStart(s))
  }

  lemma {:induction false} TrimStartEmpty(s: string)
    ensures TrimStart(s) == [] <==> Blank(s)
  {
    if s != [] && IsSpace(s[0]) {
      TrimStartEmpty(s[1..]);
      BlankTail(s);
    }
  }

  /** A string starting with white space is blank iff the rest of it is. */
  lemma BlankTail(s: string)
    requires s != [] && IsSpace(s[0])
    ensures Blank(s) <==> Blank(s[1..])
  {
    if Blank(s[1..]) {
      forall i | 1 <= i < |s| ensures IsSpace(s[i]) {
        assert s[i] == s[1..][i - 1];
      }
    }
  }

  /** `s.trim()` is empty exactly when every character of s is white space. */
  lemma TrimEmptyIffBlank(s: string)
    ensures Trim(s) == [] <==> Blank(s)
  {
    TrimStartEmpty(s);
    var t := TrimStart(s);
    if t != [] {
      assert TrimEnd(t) != [] by {
        if TrimEnd(t) == [] { TrimEndNonEmpty(t); }
      }
    }
  }

  lemma {:induction false} TrimEndNonEmpty(t: string)
    requires t != [] && !IsSpace(t[0])
    ensures TrimEnd(t) != []
  {
    if IsSpace(t[|t| - 1]) {
      assert |t| > 1;
      TrimEndNonEmpty(t[..|t| - 1]);
    }
  }

  // ---------------------------------------------------------------- case and order

  /** `toLowerCase` on one character, restricted to the ASCII letters. */
  function LowerChar(c: char): (r: char)
    ensures 'A' <= c <= 'Z' ==> r as int == c as int + 32
    ensures !('A' <= c <= 'Z') ==> r == c
  {
    if 'A' <= c <= 'Z' then (c as int + 32) as char else c
  }

  function Lower(s: string): (r: string)
    ensures |r| == |s| && forall i :: 0 <= i < |s| ==> r[i] == LowerChar(s[i])
  {
    seq(|s|, i requires 0 <= i < |s| => LowerChar(s[i]))
  }

  /** Code-point lexicographic order, the stand-in for `a.localeCompare(b) <= 0`. */
  predicate LexLe(a: string, b: string) {
    if a == [] then true
    else if b == [] then false
    else if a[0] != b[0] then a[0] < b[0]
    else LexLe(a[1..], b[1..])
  }

  lemma {:induction false} LexLeTotal(a: string, b: string)
    ensures LexLe(a, b) || LexLe(b, a)
  {
    if a != [] && b != [] && a[0] == b[0] {
      LexLeTotal(a[1..], b[1..]);
    }
  }

  lemma {:induction false} LexLeTransitive(a: string, b: string, c: string)
    requires LexLe(a, b) && LexLe(b, c)
    ensures LexLe(a, c)
  {
    if a != [] && b != [] && c != [] && a[0] == b[0] && b[0] == c[0] {
      LexLeTransitive(a[1..], b[1..], c[1..]);
    }
  }
}
