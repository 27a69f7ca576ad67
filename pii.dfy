/**
 * `maskPII` of server/routes/chat.ts and server/routes/handoff.ts:
 *   text.replace(EMAIL, "<email>").replace(PHONE, "<phone>")
 * with EMAIL = /[A-Z0-9._%+-]+@[A-Z0-9.-]+\.[A-Z]{2,}/gi and
 * PHONE = /\b\+?\d[\d\s-]{7,}\b/g.
 *
 * Each global replace is a left-to-right scanner: at the current position it
 * asks for the match the regular-expression engine would pick there; on a match
 * it emits the placeholder and resumes after the match, otherwise it copies one
 * character and moves on. For both patterns the engine's backtracking order
 * picks the LONGEST match at a position, so each "match at i" function below
 * is proved to return the longest window starting at i that the pattern accepts
 * (EmailAt / PhoneAt, written directly from the pattern).
 */
module Pii {
  import opened Wrappers

  const EmailToken: string := "<email>"
  const PhoneToken: string := "<phone>"

  // ---------------------------------------------------------------------------
  // Character classes (no `u` flag: all classes are ASCII, except `\s`)

  predicate IsAsciiLetter(c: char) {
    'A' <= c <= 'Z' || 'a' <= c <= 'z'
  }

  /** `\d` */
  predicate IsDigit(c: char) {
    '0' <= c <= '9'
  }

  /** `[A-Z0-9._%+-]` under the `i` flag */
  predicate IsLocalChar(c: char) {
    IsAsciiLetter(c) || IsDigit(c) || c == '.' || c == '_' || c == '%' || c == '+' || c == '-'
  }

  /** `[A-Z0-9.-]` under the `i` flag */
  predicate IsDomainChar(c: char) {
    IsAsciiLetter(c) || IsDigit(c) || c == '.' || c == '-'
  }

  /** `\w`, the characters `\b` looks at */
  predicate IsWordChar(c: char) {
    IsAsciiLetter(c) || IsDigit(c) || c == '_'
  }

  /** `\s`: ECMAScript white space and line terminators */
  predicate IsSpace(c: char) {
    c == '\t' || c == '\n' || c == '\U{000B}' || c == '\U{000C}' || c == '\r' || c == ' '
    || c == '\U{00A0}' || c == '\U{1680}' || '\U{2000}' <= c <= '\U{200A}'
    || c == '\U{2028}' || c == '\U{2029}' || c == '\U{202F}' || c == '\U{205F}'
    || c == '\U{3000}' || c == '\U{FEFF}'
  }

  /** `[\d\s-]` */
  predicate IsPhoneChar(c: char) {
    IsDigit(c) || IsSpace(c) || c == '-'
  }

  /** A word character stands at position `p` of `s` (false outside `s`). */
  predicate WordAt(s: string, p: int) {
    0 <= p < |s| && IsWordChar(s[p])
  }

  /** `\b` at position `p`: a word character on exactly one side. */
  predicate IsBoundary(s: string, p: int) {
    WordAt(s, p - 1) != WordAt(s, p)
  }

  // ---------------------------------------------------------------------------
  // The two patterns, read as languages of windows s[i..j]

  /**
   * s[i..j] is `local@domain.tld`: `a` is the position of `@`, `d` the position
   * of the dot before the top-level domain.
   */
  ghost predicate EmailSplit(s: string, i: int, a: int, d: int, j: int) {
    && 0 <= i < a && a + 1 < d && d + 3 <= j <= |s|
    && (forall k :: i <= k < a ==> IsLocalChar(s[k]))
    && s[a] == '@'
    && (forall k :: a < k < d ==> IsDomainChar(s[k]))
    && s[d] == '.'
    && (forall k :: d < k < j ==> IsAsciiLetter(s[k]))
  }

  /** The email pattern matches s[i..j]. */
  ghost predicate EmailAt(s: string, i: int, j: int) {
    exists a, d :: EmailSplit(s, i, a, d, j)
  }

  /** `\d[\d\s-]{7,}` matches s[k..j]. */
  ghost predicate PhoneDigits(s: string, k: int, j: int) {
    && 0 <= k < |s| && k + 8 <= j <= |s|
    && IsDigit(s[k])
    && (forall m :: k < m < j ==> IsPhoneChar(s[m]))
  }

  /** The phone pattern `\b\+?\d[\d\s-]{7,}\b` matches s[i..j] in its context. */
  ghost predicate PhoneAt(s: string, i: int, j: int) {
    && 0 <= i < |s|
    && IsBoundary(s, i)
    && ((s[i] == '+' && PhoneDigits(s, i + 1, j)) || PhoneDigits(s, i, j))
    && IsBoundary(s, j)
  }

  // ---------------------------------------------------------------------------
  // Scanning helpers

  /** End of the longest run of `cls` characters starting at `i`. */
  function RunEnd(s: string, i: nat, cls: char -> bool): (e: nat)
    requires i <= |s|
    ensures i <= e <= |s|
    ensures forall k :: i <= k < e ==> cls(s[k])
    ensures e == |s| || !cls(s[e])
    decreases |s| - i
  {
    if i == |s| || !cls(s[i]) then i else RunEnd(s, i + 1, cls)
  }

  /** The dot at `d` is followed by two letters and leaves a non-empty domain after `@` at `a`. */
  predicate TldDot(s: string, a: int, d: int) {
    0 <= a && a + 1 < d && d + 2 < |s| && s[d] == '.' && IsAsciiLetter(s[d + 1]) && IsAsciiLetter(s[d + 2])
  }

  /** Backtracking of `[A-Z0-9.-]+` from position `p` down: the last usable dot at or below `p`. */
  function LastTldDot(s: string, a: int, p: int): (r: Option<int>)
    ensures r.Some? ==> TldDot(s, a, r.value) && r.value <= p
    ensures r.Some? ==> forall d :: r.value < d <= p ==> !TldDot(s, a, d)
    ensures r.None? ==> forall d :: d <= p ==> !TldDot(s, a, d)
    decreases p - a
  {
    if p <= a + 1 then None
    else if TldDot(s, a, p) then Some(p)
    else LastTldDot(s, a, p - 1)
  }

  /** Backtracking of `[\d\s-]{7,}\b` from `p` down to `lo`: the last boundary in [lo, p]. */
  function LastBoundary(s: string, lo: int, p: int): (r: Option<int>)
    ensures r.Some? ==> lo <= r.value <= p && IsBoundary(s, r.value)
    ensures r.Some? ==> forall j :: r.value < j <= p ==> !IsBoundary(s, j)
    ensures r.None? ==> forall j :: lo <= j <= p ==> !IsBoundary(s, j)
    decreases p - lo
  {
    if p < lo then None
    else if IsBoundary(s, p) then Some(p)
    else LastBoundary(s, lo, p - 1)
  }

  // ---------------------------------------------------------------------------
  // Match at a position

  /** The email match the engine picks at `i`: the longest window accepted by the pattern. */
  function EmailEnd(s: string, i: nat): (r: Option<nat>)
    requires i <= |s|
    ensures r.Some? ==> i < r.value <= |s| && EmailAt(s, i, r.value)
    ensures r.Some? ==> forall j :: EmailAt(s, i, j) ==> j <= r.value
    ensures r.None? ==> forall j :: !EmailAt(s, i, j)
  {
    if i == |s| || !IsLocalChar(s[i]) then
      NoEmailAt(s, i, i);
      None
    else
      var a := RunEnd(s, i, IsLocalChar);
      if a == |s| || s[a] != '@' then
        NoEmailAt(s, i, a);
        None
      else
        var b := RunEnd(s, a + 1, IsDomainChar);
        match LastTldDot(s, a, b - 1)
        case None =>
          NoTldDot(s, i, a, b);
          None
        case Some(d) =>
          var j := RunEnd(s, d + 1, IsAsciiLetter);
          LongestEmail(s, i, a, b, d, j);
          Some(j)
  }

  /** The `@` of any split ends the local-class run that starts at `i`. */
  lemma AtIsRunEnd(s: string, i: nat, a: nat, a': int, d': int, j: int)
    requires i <= a <= |s|
    requires forall k :: i <= k < a ==> IsLocalChar(s[k])
    requires a == |s| || !IsLocalChar(s[a])
    ensures EmailSplit(s, i, a', d', j) ==> a' == a
  {
    if i <= a' < a {
      assert IsLocalChar(s[a']);
    }
  }

  /** With the local-class run from `i` empty, or ending at `a` without `@`, nothing matches at `i`. */
  lemma NoEmailAt(s: string, i: nat, a: nat)
    requires i <= a <= |s|
    requires forall k :: i <= k < a ==> IsLocalChar(s[k])
    requires a == |s| || !IsLocalChar(s[a])
    requires a == i || a == |s| || s[a] != '@'
    ensures forall j :: !EmailAt(s, i, j)
  {
    forall j, a', d' ensures !EmailSplit(s, i, a', d', j) {
      AtIsRunEnd(s, i, a, a', d', j);
    }
  }

  /** The domain dot of any split lies inside the domain run and is a usable dot. */
  lemma DotInsideRun(s: string, i: int, a: nat, b: nat, d': int, j: int)
    requires a + 1 <= b <= |s|
    requires forall k :: a < k < b ==> IsDomainChar(s[k])
    requires b == |s| || !IsDomainChar(s[b])
    ensures EmailSplit(s, i, a, d', j) ==> d' <= b - 1 && TldDot(s, a, d')
  {
    if EmailSplit(s, i, a, d', j) {
      assert IsAsciiLetter(s[d' + 2]);
    }
  }

  /** Without a usable dot inside the domain run, nothing matches at `i`. */
  lemma NoTldDot(s: string, i: nat, a: nat, b: nat)
    requires i < a < |s| && a + 1 <= b <= |s|
    requires forall k :: i <= k < a ==> IsLocalChar(s[k])
    requires !IsLocalChar(s[a])
    requires forall k :: a < k < b ==> IsDomainChar(s[k])
    requires b == |s| || !IsDomainChar(s[b])
    requires forall d :: d <= b - 1 ==> !TldDot(s, a, d)
    ensures forall j :: !EmailAt(s, i, j)
  {
    forall j, a', d' ensures !EmailSplit(s, i, a', d', j) {
      AtIsRunEnd(s, i, a, a', d', j);
      DotInsideRun(s, i, a, b, d', j);
    }
  }

  /** The last usable dot and the full letter run after it give the longest match. */
  lemma LongestEmail(s: string, i: nat, a: nat, b: nat, d: int, j: nat)
    requires i < a < |s| && s[a] == '@' && a + 1 <= b <= |s|
    requires forall k :: i <= k < a ==> IsLocalChar(s[k])
    requires forall k :: a < k < b ==> IsDomainChar(s[k])
    requires b == |s| || !IsDomainChar(s[b])
    requires TldDot(s, a, d) && d <= b - 1
    requires forall d' :: d < d' <= b - 1 ==> !TldDot(s, a, d')
    requires d + 1 <= j <= |s|
    requires forall k :: d + 1 <= k < j ==> IsAsciiLetter(s[k])
    requires j == |s| || !IsAsciiLetter(s[j])
    ensures i < j && EmailAt(s, i, j)
    ensures forall j' :: EmailAt(s, i, j') ==> j' <= j
  {
    assert IsAsciiLetter(s[d + 2]);
    assert EmailSplit(s, i, a, d, j);
    forall j', a', d' ensures EmailSplit(s, i, a', d', j') ==> j' <= j {
      AtIsRunEnd(s, i, a, a', d', j');
      DotInsideRun(s, i, a, b, d', j');
      if d' < d && d < j' {
        assert !IsAsciiLetter(s[d]);
      }
    }
  }

  /** The phone match the engine picks at `i`: the longest window accepted by the pattern. */
  function PhoneEnd(s: string, i: nat): (r: Option<nat>)
    requires i <= |s|
    ensures r.Some? ==> i < r.value <= |s| && PhoneAt(s, i, r.value)
    ensures r.Some? ==> forall j :: PhoneAt(s, i, j) ==> j <= r.value
    ensures r.None? ==> forall j :: !PhoneAt(s, i, j)
  {
    if i == |s| || !IsBoundary(s, i) then None
    else
      var k := if s[i] == '+' then i + 1 else i;
      if k == |s| || !IsDigit(s[k]) then
        assert forall j :: !PhoneAt(s, i, j);
        None
      else
        var e := RunEnd(s, k + 1, IsPhoneChar);
        PhoneDigitsWithin(s, i, k, e);
        match LastBoundary(s, k + 8, e)
        case None => None
        case Some(j) => Some(j as nat)
  }

  /** Every phone match at `i` starts its digits at `k` and ends inside the run ending at `e`. */
  lemma PhoneDigitsWithin(s: string, i: nat, k: nat, e: nat)
    requires i < |s| && k == (if s[i] == '+' then i + 1 else i) && k < |s|
    requires k + 1 <= e <= |s|
    requires forall m :: k < m < e ==> IsPhoneChar(s[m])
    requires e == |s| || !IsPhoneChar(s[e])
    ensures forall j :: PhoneAt(s, i, j) ==> PhoneDigits(s, k, j) && j <= e
  {
    forall j ensures PhoneAt(s, i, j) ==> PhoneDigits(s, k, j) && j <= e {
      if j > e && e < |s| {
        assert k < e < j;
      }
    }
  }

  // ---------------------------------------------------------------------------
  // The global replaces

  /** `replace(EMAIL, "<email>")` on the part of `s` from `p` on. */
  function MaskEmailsFrom(s: string, p: nat): string
    requires p <= |s|
    decreases |s| - p
  {
    if p == |s| then []
    else
      match EmailEnd(s, p)
      case Some(j) => EmailToken + MaskEmailsFrom(s, j)
      case None => [s[p]] + MaskEmailsFrom(s, p + 1)
  }

  /** `replace(PHONE, "<phone>")` on the part of `s` from `p` on; `\b` still sees all of `s`. */
  function MaskPhonesFrom(s: string, p: nat): string
    requires p <= |s|
    decreases |s| - p
  {
    if p == |s| then []
    else
      match PhoneEnd(s, p)
      case Some(j) => PhoneToken + MaskPhonesFrom(s, j)
      case None => [s[p]] + MaskPhonesFrom(s, p + 1)
  }

  function MaskEmails(s: string): string {
    MaskEmailsFrom(s, 0)
  }

  function MaskPhones(s: string): string {
    MaskPhonesFrom(s, 0)
  }

  /** `maskPII`: emails first, then phone numbers. */
  function MaskPII(s: string): string {
    MaskPhones(MaskEmails(s))
  }

  // ---------------------------------------------------------------------------
  // One step of a scanner

  lemma EmailCopyStep(s: string, p: nat)
    requires p < |s| && EmailEnd(s, p) == None
    ensures MaskEmailsFrom(s, p) == [s[p]] + MaskEmailsFrom(s, p + 1)
  {
  }

  lemma PhoneCopyStep(s: string, p: nat)
    requires p < |s| && PhoneEnd(s, p) == None
    ensures MaskPhonesFrom(s, p) == [s[p]] + MaskPhonesFrom(s, p + 1)
  {
  }

  lemma EmailTokenStep(s: string, p: nat, j: nat)
    requires p < |s| && EmailEnd(s, p) == Some(j)
    ensures MaskEmailsFrom(s, p) == EmailToken + MaskEmailsFrom(s, j)
  {
  }

  lemma PhoneTokenStep(s: string, p: nat, j: nat)
    requires p < |s| && PhoneEnd(s, p) == Some(j)
    ensures MaskPhonesFrom(s, p) == PhoneToken + MaskPhonesFrom(s, j)
  {
  }

  /** A stretch of positions where no phone number starts is copied as it is. */
  lemma {:induction false} PhoneCopyRun(s: string, p: nat, q: nat)
    requires p <= q <= |s|
    requires forall m :: p <= m < q ==> PhoneEnd(s, m) == None
    ensures MaskPhonesFrom(s, p) == s[p..q] + MaskPhonesFrom(s, q)
    decreases q - p
  {
    if p < q {
      PhoneCopyRun(s, p + 1, q);
      PhoneCopyStep(s, p);
      ConsSplit(s, p, q, MaskPhonesFrom(s, q));
    }
  }

  // ---------------------------------------------------------------------------
  // Runs: each scanner copies its input up to the next position where a match starts

  /** The first position from `q` on where an e-mail match starts, or the end of `s`. */
  function NextEmail(s: string, q: nat): (r: nat)
    requires q <= |s|
    ensures q <= r <= |s|
    ensures r < |s| ==> EmailEnd(s, r).Some?
    decreases |s| - q
  {
    if q == |s| || EmailEnd(s, q).Some? then q else NextEmail(s, q + 1)
  }

  /** The first position from `q` on where a phone match starts, or the end of `s`. */
  function NextPhone(s: string, q: nat): (r: nat)
    requires q <= |s|
    ensures q <= r <= |s|
    ensures r < |s| ==> PhoneEnd(s, r).Some?
    decreases |s| - q
  {
    if q == |s| || PhoneEnd(s, q).Some? then q else NextPhone(s, q + 1)
  }

  lemma {:induction false} EmailRun(s: string, q: nat)
    requires q <= |s|
    ensures MaskEmailsFrom(s, q) == s[q..NextEmail(s, q)] + MaskEmailsFrom(s, NextEmail(s, q))
    decreases |s| - q
  {
    if q < |s| && EmailEnd(s, q).None? {
      EmailRun(s, q + 1);
      EmailCopyStep(s, q);
      ConsSplit(s, q, NextEmail(s, q), MaskEmailsFrom(s, NextEmail(s, q)));
    } else {
      assert s[q..q] == [];
    }
  }

  lemma {:induction false} PhoneRun(s: string, q: nat)
    requires q <= |s|
    ensures MaskPhonesFrom(s, q) == s[q..NextPhone(s, q)] + MaskPhonesFrom(s, NextPhone(s, q))
    decreases |s| - q
  {
    if q < |s| && PhoneEnd(s, q).None? {
      PhoneRun(s, q + 1);
      PhoneCopyStep(s, q);
      ConsSplit(s, q, NextPhone(s, q), MaskPhonesFrom(s, NextPhone(s, q)));
    } else {
      assert s[q..q] == [];
    }
  }

  /** A run ends at a placeholder, whose first character is `<`, or at the end of the output. */
  lemma EmailRunStop(s: string, q: nat)
    requires q <= |s|
    ensures var b := MaskEmailsFrom(s, NextEmail(s, q)); b == [] || b[0] == '<'
  {
    var r := NextEmail(s, q);
    if r < |s| {
      EmailTokenStep(s, r, EmailEnd(s, r).value);
    }
  }

  lemma PhoneRunStop(s: string, q: nat)
    requires q <= |s|
    ensures var r := NextPhone(s, q); var b := MaskPhonesFrom(s, r);
      && (r == |s| ==> b == [])
      && (r < |s| ==> |b| > 0 && b[0] == '<' && PhoneAt(s, r, PhoneEnd(s, r).value))
  {
    var r := NextPhone(s, q);
    if r < |s| {
      PhoneTokenStep(s, r, PhoneEnd(s, r).value);
    }
  }

  /** Facts about strings that the runs need. */
  lemma ConsSplit(t: string, q: nat, r: nat, rest: string)
    requires q < r <= |t|
    ensures t[q..r] + rest == [t[q]] + (t[q + 1..r] + rest)
  {
    assert t[q..r] == [t[q]] + t[q + 1..r];
  }

  lemma CopyBeforeTag(a: string, b: string, n: int)
    requires b == [] || b[0] == '<'
    ensures (0 <= n <= |a + b| && forall k :: 0 <= k < n ==> (a + b)[k] != '<') ==> n <= |a|
  {
    if 0 <= n <= |a + b| && n > |a| && |b| > 0 {
      assert (a + b)[|a|] == b[0];
    }
  }

  /**
   * `out` copies `s` from `p` for its first `n` characters, provided none of
   * them is `<`.
   */
  ghost predicate CopiesChars(out: string, s: string, p: int, n: int) {
    (0 <= n <= |out| && forall k :: 0 <= k < n ==> out[k] != '<')
    ==> 0 <= p && p + n <= |s| && forall k :: 0 <= k < n ==> out[k] == s[p + k]
  }

  /**
   * What follows position `j` of an output that copied `t` up to `q`: the end
   * of both, the next character of `t`, or the placeholder of a match at `q`.
   */
  ghost predicate NextOut(x: string, j: int, t: string, q: int) {
    || (j == |x| && q == |t|)
    || (0 <= j < |x| && 0 <= q < |t| && (x[j] == t[q] || (x[j] == '<' && exists e :: PhoneAt(t, q, e))))
  }

  /** ... and, when it does, what comes next is as `NextOut` says. */
  ghost predicate CopiesPhoneRun(out: string, s: string, p: int, n: int) {
    && CopiesChars(out, s, p, n)
    && ((0 <= n <= |out| && forall k :: 0 <= k < n ==> out[k] != '<') ==> NextOut(out, n, s, p + n))
  }

  /** A run of `s` followed by a placeholder or by nothing. */
  lemma RunCopies(a: string, b: string, s: string, q: nat, r: nat, n: int)
    requires q <= r <= |s| && a == s[q..r]
    requires b == [] || b[0] == '<'
    ensures CopiesChars(a + b, s, q, n)
  {
    CopyBeforeTag(a, b, n);
  }

  lemma PhoneRunCopies(a: string, b: string, s: string, q: nat, r: nat, n: int)
    requires q <= r <= |s| && a == s[q..r]
    requires r == |s| ==> b == []
    requires r < |s| ==> |b| > 0 && b[0] == '<' && exists e :: PhoneAt(s, r, e)
    ensures CopiesPhoneRun(a + b, s, q, n)
  {
    RunCopies(a, b, s, q, r, n);
    CopyBeforeTag(a, b, n);
    if 0 <= n <= |a + b| && (forall k :: 0 <= k < n ==> (a + b)[k] != '<') {
      if n < |a| {
        assert (a + b)[n] == s[q + n];
      } else if r < |s| {
        assert (a + b)[n] == b[0];
      }
    }
  }

  /** Up to its first `<`, the e-mail rewrite copies its input. */
  lemma EmailPrefixCopy(s: string, q: nat, n: int)
    requires q <= |s|
    ensures CopiesChars(MaskEmailsFrom(s, q), s, q, n)
  {
    var r := NextEmail(s, q);
    EmailRun(s, q);
    EmailRunStop(s, q);
    RunCopies(s[q..r], MaskEmailsFrom(s, r), s, q, r, n);
  }

  /** Up to its first `<`, the phone rewrite copies its input, and then a placeholder or the end follows. */
  lemma PhonePrefixCopy(s: string, q: nat, n: int)
    requires q <= |s|
    ensures CopiesPhoneRun(MaskPhonesFrom(s, q), s, q, n)
  {
    var r := NextPhone(s, q);
    PhoneRun(s, q);
    PhoneRunStop(s, q);
    PhoneRunCopies(s[q..r], MaskPhonesFrom(s, r), s, q, r, n);
  }

  // ---------------------------------------------------------------------------
  // Properties

  /** Every email match contains `@`. */
  lemma {:induction false} NoAtNoEmailMatch(s: string, p: nat)
    requires p <= |s|
    requires forall k :: 0 <= k < |s| ==> s[k] != '@'
    ensures MaskEmailsFrom(s, p) == s[p..]
    decreases |s| - p
  {
    if p < |s| {
      assert forall j, a, d :: !EmailSplit(s, p, a, d, j);
      NoAtNoEmailMatch(s, p + 1);
    }
  }

  /** Every phone match contains a digit. */
  lemma {:induction false} NoDigitNoPhoneMatch(s: string, p: nat)
    requires p <= |s|
    requires forall k :: 0 <= k < |s| ==> !IsDigit(s[k])
    ensures MaskPhonesFrom(s, p) == s[p..]
    decreases |s| - p
  {
    if p < |s| {
      assert forall j :: !PhoneAt(s, p, j);
      NoDigitNoPhoneMatch(s, p + 1);
    }
  }

  /** Text without `@` and without digits, the two placeholders included, is logged as it is. */
  lemma MaskPIIKeepsPlainText(s: string)
    requires forall k :: 0 <= k < |s| ==> s[k] != '@' && !IsDigit(s[k])
    ensures MaskPII(s) == s
  {
    NoAtNoEmailMatch(s, 0);
    NoDigitNoPhoneMatch(s, 0);
  }

  /** Neither placeholder holds `@`, a digit or `+`. */
  lemma PlaceholderChars(tok: string)
    requires tok == EmailToken || tok == PhoneToken
    ensures forall k :: 0 <= k < |tok| ==> tok[k] != '@' && !IsDigit(tok[k]) && tok[k] != '+'
  {
  }

  lemma PlaceholdersAreFixed(tok: string)
    requires tok == EmailToken || tok == PhoneToken
    ensures MaskEmails(tok) == tok && MaskPhones(tok) == tok
    ensures MaskPII(tok) == tok
  {
    PlaceholderChars(tok);
    NoAtNoEmailMatch(tok, 0);
    NoDigitNoPhoneMatch(tok, 0);
  }

  // ---------------------------------------------------------------------------
  // No e-mail survives masking

  /** Every character an e-mail window can hold: the local class and `@`. */
  predicate InEmail(c: char) {
    IsLocalChar(c) || c == '@'
  }

  /** No window of `t` is accepted by the e-mail pattern. */
  ghost predicate EmailFree(t: string) {
    forall i, a, d, j :: !EmailSplit(t, i, a, d, j)
  }

  /** A window accepted by the e-mail pattern holds only e-mail characters. */
  lemma SplitChars(t: string, i: int, a: int, d: int, j: int)
    ensures EmailSplit(t, i, a, d, j) ==> forall k :: i <= k < j ==> InEmail(t[k])
  {
  }

  /** The e-mail pattern looks at nothing outside its window: a copy of the window is accepted too. */
  lemma ShiftSplit(t: string, u: string, i: int, a: int, d: int, j: int, i2: int)
    ensures
      (&& EmailSplit(t, i, a, d, j) && 0 <= i2 && i2 + (j - i) <= |u|
       && forall k :: i <= k < j ==> t[k] == u[k - i + i2])
      ==> EmailSplit(u, i2, a - i + i2, d - i + i2, j - i + i2)
  {
    if && EmailSplit(t, i, a, d, j) && 0 <= i2 && i2 + (j - i) <= |u|
       && forall k :: i <= k < j ==> t[k] == u[k - i + i2]
    {
      var off := i2 - i;
      assert forall k :: i2 <= k < a + off ==> u[k] == t[k - off];
      assert forall k :: a + off < k < d + off ==> u[k] == t[k - off];
      assert forall k :: d + off < k < j + off ==> u[k] == t[k - off];
    }
  }

  /** A window that starts inside a placeholder would have to hold `<` or `>`. */
  lemma NoSplitInPlaceholder(tok: string, rest: string, i: int, a: int, d: int, j: int)
    requires |tok| == 7 && !InEmail(tok[0]) && !InEmail(tok[6])
    requires 0 <= i < 7
    ensures !EmailSplit(tok + rest, i, a, d, j)
  {
    SplitChars(tok + rest, i, a, d, j);
    if i == 0 {
      assert (tok + rest)[0] == tok[0];
    } else {
      assert (tok + rest)[6] == tok[6];
    }
  }

  /** A window after a prefix of `out` is a window of the rest. */
  lemma SplitInRest(head: string, rest: string, i: int, a: int, d: int, j: int)
    requires i >= |head|
    ensures EmailSplit(head + rest, i, a, d, j) ==> EmailSplit(rest, i - |head|, a - |head|, d - |head|, j - |head|)
  {
    ShiftSplit(head + rest, rest, i, a, d, j, i - |head|);
  }

  /** An e-mail window at the start of a copy is, character for character, a window of the original. */
  lemma WindowOfCopy(out: string, s: string, p: nat, a: int, d: int, j: int)
    ensures (CopiesChars(out, s, p, j) && EmailSplit(out, 0, a, d, j)) ==> EmailSplit(s, p, a + p, d + p, j + p)
  {
    if CopiesChars(out, s, p, j) && EmailSplit(out, 0, a, d, j) {
      SplitChars(out, 0, a, d, j);
      ShiftSplit(out, s, 0, a, d, j, p);
    }
  }

  /** A window at the start of the rewrite's output is a window of the input. */
  lemma CopiedWindow(s: string, p: nat, a: int, d: int, j: int)
    requires p <= |s|
    ensures EmailSplit(MaskEmailsFrom(s, p), 0, a, d, j) ==> EmailSplit(s, p, a + p, d + p, j + p)
  {
    EmailPrefixCopy(s, p, j);
    WindowOfCopy(MaskEmailsFrom(s, p), s, p, a, d, j);
  }

  /** The e-mail rewrite leaves no window that the e-mail pattern accepts. */
  lemma {:induction false} MaskEmailsFromIsFree(s: string, p: nat)
    requires p <= |s|
    ensures EmailFree(MaskEmailsFrom(s, p))
    decreases |s| - p
  {
    if p < |s| {
      var out := MaskEmailsFrom(s, p);
      match EmailEnd(s, p)
      case Some(e) =>
        var rest := MaskEmailsFrom(s, e);
        MaskEmailsFromIsFree(s, e);
        EmailTokenStep(s, p, e);
        forall i, a, d, j ensures !EmailSplit(out, i, a, d, j) {
          if 0 <= i < 7 {
            NoSplitInPlaceholder(EmailToken, rest, i, a, d, j);
          } else if i >= 7 {
            SplitInRest(EmailToken, rest, i, a, d, j);
          }
        }
      case None =>
        var rest := MaskEmailsFrom(s, p + 1);
        MaskEmailsFromIsFree(s, p + 1);
        EmailCopyStep(s, p);
        forall i, a, d, j ensures !EmailSplit(out, i, a, d, j) {
          if i == 0 {
            CopiedWindow(s, p, a, d, j);
            assert !EmailAt(s, p, j + p);
          } else if i >= 1 {
            SplitInRest([s[p]], rest, i, a, d, j);
          }
        }
    }
  }

  /** An e-mail window at the start of the phone rewrite's output is a window of its input. */
  lemma CopiedWindowOfPhones(s: string, p: nat, a: int, d: int, j: int)
    requires p <= |s|
    ensures EmailSplit(MaskPhonesFrom(s, p), 0, a, d, j) ==> EmailSplit(s, p, a + p, d + p, j + p)
  {
    PhonePrefixCopy(s, p, j);
    WindowOfCopy(MaskPhonesFrom(s, p), s, p, a, d, j);
  }

  /** The phone rewrite creates no e-mail: its placeholder holds `<` and `>`. */
  lemma {:induction false} MaskPhonesFromKeepsEmailFree(s: string, p: nat)
    requires p <= |s| && EmailFree(s)
    ensures EmailFree(MaskPhonesFrom(s, p))
    decreases |s| - p
  {
    if p < |s| {
      var out := MaskPhonesFrom(s, p);
      match PhoneEnd(s, p)
      case Some(e) =>
        var rest := MaskPhonesFrom(s, e);
        MaskPhonesFromKeepsEmailFree(s, e);
        PhoneTokenStep(s, p, e);
        forall i, a, d, j ensures !EmailSplit(out, i, a, d, j) {
          if 0 <= i < 7 {
            NoSplitInPlaceholder(PhoneToken, rest, i, a, d, j);
          } else if i >= 7 {
            SplitInRest(PhoneToken, rest, i, a, d, j);
          }
        }
      case None =>
        var rest := MaskPhonesFrom(s, p + 1);
        MaskPhonesFromKeepsEmailFree(s, p + 1);
        PhoneCopyStep(s, p);
        forall i, a, d, j ensures !EmailSplit(out, i, a, d, j) {
          if i == 0 {
            CopiedWindowOfPhones(s, p, a, d, j);
          } else if i >= 1 {
            SplitInRest([s[p]], rest, i, a, d, j);
          }
        }
    }
  }

  /** No text the e-mail pattern accepts survives `maskPII`. */
  lemma NoEmailSurvives(s: string)
    ensures EmailFree(MaskPII(s))
    ensures forall i, j :: !EmailAt(MaskPII(s), i, j)
  {
    MaskEmailsFromIsFree(s, 0);
    MaskPhonesFromKeepsEmailFree(MaskEmails(s), 0);
  }

  // ---------------------------------------------------------------------------
  // No phone number survives masking

  /** No window of `t` is accepted, in its context, by the phone pattern. */
  ghost predicate PhoneFree(t: string) {
    forall i, j :: !PhoneAt(t, i, j)
  }

  /**
   * What the output written so far, `L`, shows to the left of the rewrite of
   * `t` from `p`: nothing at the very start, the copied character `t[p-1]`, or
   * the `>` of a placeholder whose match ended at a word boundary of `t`.
   */
  ghost predicate LeftContext(L: string, t: string, p: nat)
    requires p <= |t|
  {
    || (|L| == 0 && p == 0)
    || (|L| > 0 && p > 0 && L[|L| - 1] == t[p - 1])
    || (|L| > 0 && L[|L| - 1] == '>' && IsBoundary(t, p))
  }

  lemma Regroup(L: string, a: string, rest: string)
    ensures L + (a + rest) == (L + a) + rest
  {
  }

  /** A boundary in front of the copied `t[p]` is a boundary of `t` at `p`. */
  lemma LeftBoundary(L: string, out: string, t: string, p: nat)
    requires p < |t| && LeftContext(L, t, p)
    ensures (|out| > 0 && out[0] == t[p] && IsBoundary(L + out, |L|)) ==> IsBoundary(t, p)
  {
    var x := L + out;
    if |out| > 0 && out[0] == t[p] {
      assert x[|L|] == t[p];
      if |L| > 0 {
        assert x[|L| - 1] == L[|L| - 1];
      }
    }
  }

  /**
   * A boundary after the copied `t[q-1]` is a boundary of `t` at `q`: next
   * come the same character, or a placeholder for a match that starts at a
   * boundary of `t`, or the end of both strings.
   */
  lemma RightBoundary(x: string, j: int, t: string, q: int)
    ensures
      (0 < j <= |x| && 0 < q <= |t| && x[j - 1] == t[q - 1] && NextOut(x, j, t, q) && IsBoundary(x, j))
      ==> IsBoundary(t, q)
  {
  }

  /** A phone window holds no `<`. */
  lemma PhoneWindowHasNoTag(L: string, out: string, m: int)
    ensures PhoneAt(L + out, |L|, |L| + m) ==> 0 < m <= |out| && forall k :: 0 <= k < m ==> out[k] != '<'
  {
    var x := L + out;
    if PhoneAt(x, |L|, |L| + m) {
      forall k | 0 <= k < m ensures out[k] != '<' {
        assert x[|L| + k] == out[k];
        if k > 0 {
          assert IsPhoneChar(x[|L| + k]);
        }
      }
    }
  }

  lemma ConcatWindow(L: string, out: string, m: int, t: string, q: int)
    ensures
      0 < m <= |out| ==>
        && (L + out)[|L| + m - 1] == out[m - 1]
        && (NextOut(out, m, t, q) ==> NextOut(L + out, |L| + m, t, q))
  {
    if 0 < m <= |out| && NextOut(out, m, t, q) && m < |out| {
      assert (L + out)[|L| + m] == out[m];
    }
  }

  /** A phone window whose characters and end boundaries `t` shares is one of `t`. */
  lemma CopyKeepsWindow(L: string, out: string, t: string, p: nat, m: nat)
    ensures
      (&& PhoneAt(L + out, |L|, |L| + m) && p + m <= |t|
       && (forall k :: 0 <= k < m ==> out[k] == t[p + k])
       && IsBoundary(t, p) && IsBoundary(t, p + m))
      ==> PhoneAt(t, p, p + m)
  {
    var x := L + out;
    if && PhoneAt(x, |L|, |L| + m) && p + m <= |t|
       && (forall k :: 0 <= k < m ==> out[k] == t[p + k])
    {
      assert forall k :: p <= k < p + m ==> t[k] == x[k - p + |L|] by {
        forall k | p <= k < p + m ensures t[k] == x[k - p + |L|] {
          assert out[k - p] == t[k];
        }
      }
      assert t[p] == x[|L|];
      if x[|L|] == '+' {
        assert t[p + 1] == x[|L| + 1];
      }
    }
  }

  /**
   * A phone window at the start of a copy of `t` from `p` is a phone window of
   * `t` at `p`: its characters are copied, and its boundaries are boundaries
   * of `t`.
   */
  lemma WindowOfPhoneCopy(L: string, out: string, t: string, p: nat, j: int)
    requires p < |t| && LeftContext(L, t, p)
    ensures (CopiesPhoneRun(out, t, p, j - |L|) && PhoneAt(L + out, |L|, j)) ==> PhoneAt(t, p, p + (j - |L|))
  {
    var x := L + out;
    if j >= |L| {
      var m := j - |L|;
      PhoneWindowHasNoTag(L, out, m);
      ConcatWindow(L, out, m, t, p + m);
      RightBoundary(x, j, t, p + m);
      LeftBoundary(L, out, t, p);
      CopyKeepsWindow(L, out, t, p, m);
    }
  }

  /** Where the rewrite copies `t[p]`, no phone window of the output starts. */
  lemma CopiedPhoneWindow(L: string, t: string, p: nat, j: int)
    requires p < |t| && LeftContext(L, t, p) && PhoneEnd(t, p) == None
    ensures !PhoneAt(L + MaskPhonesFrom(t, p), |L|, j)
  {
    PhonePrefixCopy(t, p, j - |L|);
    WindowOfPhoneCopy(L, MaskPhonesFrom(t, p), t, p, j);
  }

  /** Copying `t[p]`: no window starts at the copy, nor, given the rest, after it. */
  lemma CopyKeepsPhoneFree(L: string, L': string, t: string, p: nat, rest: string)
    requires p < |t| && LeftContext(L, t, p) && PhoneEnd(t, p) == None
    requires L' == L + [t[p]] && rest == MaskPhonesFrom(t, p + 1)
    requires forall i, j :: i >= |L'| ==> !PhoneAt(L' + rest, i, j)
    ensures forall i, j :: i >= |L| ==> !PhoneAt(L + MaskPhonesFrom(t, p), i, j)
  {
    var x := L + MaskPhonesFrom(t, p);
    PhoneCopyStep(t, p);
    Regroup(L, [t[p]], rest);
    forall i, j | i == |L| ensures !PhoneAt(x, i, j) {
      CopiedPhoneWindow(L, t, p, j);
    }
  }

  /** Emitting the placeholder: no window starts inside it, nor, given the rest, after it. */
  lemma TokenKeepsPhoneFree(L: string, L': string, t: string, p: nat, e: nat)
    requires p < e <= |t| && PhoneEnd(t, p) == Some(e)
    requires L' == L + PhoneToken
    requires forall i, j :: i >= |L'| ==> !PhoneAt(L' + MaskPhonesFrom(t, e), i, j)
    ensures forall i, j :: i >= |L| ==> !PhoneAt(L + MaskPhonesFrom(t, p), i, j)
  {
    var x := L + MaskPhonesFrom(t, p);
    PhoneTokenStep(t, p, e);
    Regroup(L, PhoneToken, MaskPhonesFrom(t, e));
    PlaceholderChars(PhoneToken);
    forall i, j | |L| <= i < |L'| ensures !PhoneAt(x, i, j) {
      assert x[i] == PhoneToken[i - |L|];
    }
  }

  /**
   * No phone window starts in the rewrite of `t` from `p`, whatever was
   * written before it, as long as that shows the right left context.
   */
  lemma {:induction false} PhoneFreeFrom(L: string, t: string, p: nat)
    requires p <= |t| && LeftContext(L, t, p)
    ensures forall i, j :: i >= |L| ==> !PhoneAt(L + MaskPhonesFrom(t, p), i, j)
    decreases |t| - p
  {
    if p < |t| {
      match PhoneEnd(t, p)
      case None =>
        PhoneFreeFrom(L + [t[p]], t, p + 1);
        CopyKeepsPhoneFree(L, L + [t[p]], t, p, MaskPhonesFrom(t, p + 1));
      case Some(e) =>
        var L' := L + PhoneToken;
        assert L'[|L'| - 1] == '>';
        PhoneFreeFrom(L', t, e);
        TokenKeepsPhoneFree(L, L', t, p, e);
    }
  }

  lemma NoPhoneSurvivesPhoneMasking(t: string)
    ensures PhoneFree(MaskPhones(t))
  {
    PhoneFreeFrom([], t, 0);
    assert [] + MaskPhones(t) == MaskPhones(t);
  }

  /** No text the phone pattern accepts survives `maskPII`. */
  lemma NoPhoneSurvives(s: string)
    ensures PhoneFree(MaskPII(s))
  {
    NoPhoneSurvivesPhoneMasking(MaskEmails(s));
  }

  // ---------------------------------------------------------------------------
  // Masking twice is masking once

  lemma ConsDrop(u: string, p: nat)
    requires p < |u|
    ensures u[p..] == [u[p]] + u[p + 1..]
  {
  }

  /** Text without an e-mail passes the e-mail rewrite unchanged. */
  lemma {:induction false} EmailFreeUnchanged(u: string, p: nat)
    requires p <= |u| && EmailFree(u)
    ensures MaskEmailsFrom(u, p) == u[p..]
    decreases |u| - p
  {
    if p < |u| {
      assert EmailEnd(u, p).None?;
      EmailCopyStep(u, p);
      EmailFreeUnchanged(u, p + 1);
      ConsDrop(u, p);
    }
  }

  /** Text without a phone number passes the phone rewrite unchanged. */
  lemma {:induction false} PhoneFreeUnchanged(u: string, p: nat)
    requires p <= |u| && PhoneFree(u)
    ensures MaskPhonesFrom(u, p) == u[p..]
    decreases |u| - p
  {
    if p < |u| {
      assert PhoneEnd(u, p).None?;
      PhoneCopyStep(u, p);
      PhoneFreeUnchanged(u, p + 1);
      ConsDrop(u, p);
    }
  }

  /** `maskPII` is idempotent: its output holds neither pattern, so a second pass changes nothing. */
  lemma MaskPIIIsIdempotent(s: string)
    ensures MaskPII(MaskPII(s)) == MaskPII(s)
  {
    var m := MaskPII(s);
    NoEmailSurvives(s);
    NoPhoneSurvives(s);
    EmailFreeUnchanged(m, 0);
    PhoneFreeUnchanged(m, 0);
  }
}
