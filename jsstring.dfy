/**
 * The two JavaScript string builtins the matcher relies on:
 * `toLowerCase` (restricted to ASCII letters) and `includes`.
 */
module JsString {

  /** An ASCII upper-case letter. */
  predicate IsUpper(c: char) {
    'A' <= c <= 'Z'
  }

  /** Lower-cases one ASCII letter; every other character is kept. */
  function LowerChar(c: char): char {
    if IsUpper(c) then (c as int + 32) as char else c
  }

  /** `s.toLowerCase()`, restricted to ASCII letters. */
  function Lower(s: string): (r: string)
    ensures |r| == |s|
    ensures forall i :: 0 <= i < |s| && IsUpper(s[i]) ==> r[i] as int == s[i] as int + 32
    ensures forall i :: 0 <= i < |s| && !IsUpper(s[i]) ==> r[i] == s[i]
    ensures forall i :: 0 <= i < |s| ==> !IsUpper(r[i])
  {
    seq(|s|, i requires 0 <= i < |s| => LowerChar(s[i]))
  }

  /** `a` and `b` differ at most in the case of ASCII letters. */
  predicate SameUpToCase(a: string, b: string) {
    |a| == |b| && forall i :: 0 <= i < |a| ==> LowerChar(a[i]) == LowerChar(b[i])
  }

  /** Two strings lower-case to the same string exactly when they differ only in ASCII case. */
  lemma LowerEqualIffSameUpToCase(a: string, b: string)
    ensures Lower(a) == Lower(b) <==> SameUpToCase(a, b)
  {
    if SameUpToCase(a, b) {
      forall i | 0 <= i < |a| ensures Lower(a)[i] == Lower(b)[i] {
        LowerAt(a, i);
        LowerAt(b, i);
      }
    }
    if Lower(a) == Lower(b) {
      forall i | 0 <= i < |a| ensures LowerChar(a[i]) == LowerChar(b[i]) {
        LowerAt(a, i);
        LowerAt(b, i);
      }
    }
  }

  /** Position `i` of `Lower(s)` is `s[i]` lower-cased. */
  lemma LowerAt(s: string, i: nat)
    requires i < |s|
    ensures Lower(s)[i] == LowerChar(s[i])
  {
  }

  /** `pat` occurs as a contiguous block of `text`. */
  ghost predicate Occurs(pat: string, text: string) {
    exists i :: 0 <= i && OccursAt(pat, text, i)
  }

  /** `pat` occurs in `text` starting at index `i`. */
  ghost predicate OccursAt(pat: string, text: string, i: nat) {
    i + |pat| <= |text| && text[i..i + |pat|] == pat
  }

  /** `text.includes(pat)`: a left-to-right search for `pat`. */
  function Includes(text: string, pat: string): (r: bool)
    ensures r <==> Occurs(pat, text)
    decreases |text|
  {
    if |pat| > |text| then false
    else if text[..|pat|] == pat then assert OccursAt(pat, text, 0); true
    else
      var rest := Includes(text[1..], pat);
      ShiftOccurs(pat, text);
      rest
  }

  /** When `pat` is not a prefix of `text`, it occurs in `text` exactly when it occurs in `text[1..]`. */
  lemma ShiftOccurs(pat: string, text: string)
    requires |pat| <= |text| && text[..|pat|] != pat
    ensures Occurs(pat, text) <==> Occurs(pat, text[1..])
  {
    if Occurs(pat, text) {
      var i :| 0 <= i && OccursAt(pat, text, i);
      assert i != 0;
      assert text[1..][i - 1..i - 1 + |pat|] == text[i..i + |pat|];
      assert OccursAt(pat, text[1..], i - 1);
    }
    if Occurs(pat, text[1..]) {
      var i :| 0 <= i && OccursAt(pat, text[1..], i);
      assert text[i + 1..i + 1 + |pat|] == text[1..][i..i + |pat|];
      assert OccursAt(pat, text, i + 1);
    }
  }

  /** A pattern holding a character that the text lacks does not occur in it. */
  lemma {:induction false} MissingCharNotOccurs(pat: string, text: string, k: nat)
    requires k < |pat|
    requires forall i :: 0 <= i < |text| ==> text[i] != pat[k]
    ensures !Occurs(pat, text)
  {
    forall i: nat | i + |pat| <= |text|
      ensures !OccursAt(pat, text, i)
    {
      assert text[i..i + |pat|][k] == text[i + k];
    }
  }
}
