/** Form validation: the e-mail pattern, the password length rule, the required-field rule
    and the per-field error map built from a set of rules. */
module Validation {
  import opened Wrappers
  import opened Text

  // ---------------------------------------------------------------- e-mail

  /** `[^\s@]+`: one or more characters that are neither white space nor '@'. */
  predicate Segment(s: string) {
    |s| > 0 && forall i :: 0 <= i < |s| ==> !IsSpace(s[i]) && s[i] != '@'
  }

  /** `[^\s@]+\.[^\s@]+`: two segments around a dot. */
  predicate DottedSegments(d: string) {
    exists k | 0 <= k < |d| :: d[k] == '.' && Segment(d[..k]) && Segment(d[k + 1..])
  }

  /** `validateEmail(email)`: the whole string matches `^[^\s@]+@[^\s@]+\.[^\s@]+$`. */
  predicate ValidateEmail(email: string) {
    exists a | 0 <= a < |email| :: email[a] == '@' && Segment(email[..a]) && DottedSegments(email[a + 1..])
  }

  predicate NoSpace(s: string) {
    forall i :: 0 <= i < |s| ==> !IsSpace(s[i])
  }

  /** Position a holds the only '@' of s. */
  predicate OnlyAtSignAt(s: string, a: int) {
    forall i :: 0 <= i < |s| ==> (s[i] == '@' <==> i == a)
  }

  /** The pattern in plain terms: no white space, exactly one '@' with text before it, and a
      '.' after it that is neither right after the '@' nor the last character. */
  predicate EmailShape(s: string) {
    && NoSpace(s)
    && exists a | 0 < a < |s| :: OnlyAtSignAt(s, a) && exists k | a + 1 < k < |s| - 1 :: s[k] == '.'
  }

  lemma EmailMatchHasShape(s: string, a: int, k: int)
    requires 0 <= a < |s| && s[a] == '@' && Segment(s[..a])
    requires 0 <= k < |s[a + 1..]| && s[a + 1..][k] == '.'
    requires Segment(s[a + 1..][..k]) && Segment(s[a + 1..][k + 1..])
    ensures EmailShape(s)
  {
    var d := s[a + 1..];
    forall i | 0 <= i < |s| ensures !IsSpace(s[i]) && (s[i] == '@' <==> i == a) {
      if i < a {
        assert s[i] == s[..a][i];
      } else if a < i < a + 1 + k {
        assert s[i] == d[..k][i - a - 1];
      } else if i > a + 1 + k {
        assert s[i] == d[k + 1..][i - a - 2 - k];
      }
    }
    assert OnlyAtSignAt(s, a);
    assert s[a + 1 + k] == '.';
  }

  lemma SegmentSlice(s: string, lo: int, hi: int)
    requires 0 <= lo < hi <= |s|
    requires forall i :: lo <= i < hi ==> !IsSpace(s[i]) && s[i] != '@'
    ensures Segment(s[lo..hi])
  {
    forall i | 0 <= i < hi - lo ensures !IsSpace(s[lo..hi][i]) && s[lo..hi][i] != '@' {
      assert s[lo..hi][i] == s[lo + i];
    }
  }

  lemma EmailShapeMatches(s: string, a: int, k: int)
    requires NoSpace(s) && 0 < a < |s| && OnlyAtSignAt(s, a)
    requires a + 1 < k < |s| - 1 && s[k] == '.'
    ensures ValidateEmail(s)
  {
    var d := s[a + 1..];
    var k' := k - a - 1;
    assert d[k'] == '.';
    SegmentSlice(s, 0, a);
    assert s[..a] == s[0..a];
    SegmentSlice(s, a + 1, k);
    assert d[..k'] == s[a + 1..k];
    SegmentSlice(s, k + 1, |s|);
    assert d[k' + 1..] == s[k + 1..|s|];
    assert DottedSegments(d);
  }

  /** The e-mail pattern accepts exactly the strings of EmailShape. */
  lemma EmailPatternIff(s: string)
    ensures ValidateEmail(s) <==> EmailShape(s)
  {
    if ValidateEmail(s) {
      var a :| 0 <= a < |s| && s[a] == '@' && Segment(s[..a]) && DottedSegments(s[a + 1..]);
      var d := s[a + 1..];
      var k :| 0 <= k < |d| && d[k] == '.' && Segment(d[..k]) && Segment(d[k + 1..]);
      EmailMatchHasShape(s, a, k);
    }
    if EmailShape(s) {
      var a :| 0 < a < |s| && OnlyAtSignAt(s, a) && exists k | a + 1 < k < |s| - 1 :: s[k] == '.';
      var k :| a + 1 < k < |s| - 1 && s[k] == '.';
      EmailShapeMatches(s, a, k);
    }
  }

  /** A string without '@', with two of them, or with white space is rejected. */
  lemma EmailRejects(s: string)
    requires || (forall i :: 0 <= i < |s| ==> s[i] != '@')
             || (exists i, j :: 0 <= i < j < |s| && s[i] == '@' && s[j] == '@')
             || (exists i :: 0 <= i < |s| && IsSpace(s[i]))
    ensures !ValidateEmail(s)
  {
    EmailPatternIff(s);
  }

  // ---------------------------------------------------------------- password and required fields

  datatype PasswordCheck = PasswordCheck(isValid: bool, message: Option<string>)

  const PasswordTooShort: string := "Password must be at least 6 characters long"

  /** `validatePassword(password)`: at least six characters. */
  function ValidatePassword(password: string): (r: PasswordCheck)
    ensures r.isValid <==> |password| >= 6
    ensures r.isValid ==> r.message == None
    ensures !r.isValid ==> r.message == Some(PasswordTooShort)
  {
    if |password| < 6 then PasswordCheck(false, Some(PasswordTooShort)) else PasswordCheck(true, None)
  }

  /** `validateRequired(value, fieldName)`: an error exactly for an empty or blank value. */
  function ValidateRequired(value: string, fieldName: string): (r: Option<string>)
    ensures r.Some? <==> Blank(value)
    ensures r.Some? ==> r.value == fieldName + " is required"
  {
    TrimEmptyIffBlank(value);
    if value == "" || Trim(value) == "" then Some(fieldName + " is required") else None
  }

  // ---------------------------------------------------------------- the error map

  /** What a rule receives for key k: `values[k]`, or undefined when values has no such key. */
  function Lookup<V>(values: map<string, V>, k: string): Option<V> {
    if k in values then Some(values[k]) else None
  }

  /** `validateForm(values, rules)`: every rule is run on its field; a truthy result is
      recorded under the rule's key. */
  method ValidateForm<V>(values: map<string, V>, rules: map<string, Option<V> -> Option<string>>)
    returns (errors: map<string, string>)
    ensures forall k :: k in errors <==> k in rules && Truthy(rules[k](Lookup(values, k)))
    ensures forall k :: k in errors ==> rules[k](Lookup(values, k)) == Some(errors[k])
  {
    errors := map[];
    var pending := rules.Keys;
    while pending != {}
      invariant pending <= rules.Keys
      invariant forall k :: k in errors <==> k in rules && k !in pending && Truthy(rules[k](Lookup(values, k)))
      invariant forall k :: k in errors ==> rules[k](Lookup(values, k)) == Some(errors[k])
      decreases |pending|
    {
      var key :| key in pending;
      var error := rules[key](Lookup(values, key));
      if Truthy(error) {
        errors := errors[key := error.value];
      }
      pending := pending - {key};
    }
  }
}
