/**
 * Worked inputs for `maskPII`, derived from the general contracts of the
 * match-at-a-position functions and the two scanners.
 */
module PiiExamples {
  import opened Wrappers
  import opened Pii

  // ---------------------------------------------------------------------------
  // Deciding the match at one position

  /** The longest accepted window at `i` is the one the engine replaces. */
  lemma EmailEndIs(s: string, i: nat, j: nat)
    requires i <= |s| && EmailAt(s, i, j)
    requires forall j' :: j < j' ==> !EmailAt(s, i, j')
    ensures EmailEnd(s, i) == Some(j)
  {
  }

  lemma PhoneEndIs(s: string, i: nat, j: nat)
    requires i <= |s| && PhoneAt(s, i, j)
    requires forall j' :: j < j' ==> !PhoneAt(s, i, j')
    ensures PhoneEnd(s, i) == Some(j)
  {
  }

  /** A phone number starts with `+` or a digit. */
  lemma NoPhoneAtNonDigit(s: string, p: nat)
    requires p < |s| && !IsDigit(s[p]) && s[p] != '+'
    ensures PhoneEnd(s, p) == None
  {
  }

  /** A phone number starts at a word boundary. */
  lemma NoPhoneInsideWord(s: string, p: nat)
    requires 0 < p < |s| && IsWordChar(s[p - 1]) && IsWordChar(s[p])
    ensures PhoneEnd(s, p) == None
  {
    assert !IsBoundary(s, p);
  }

  // ---------------------------------------------------------------------------
  // Examples

  /** A bare address becomes the email placeholder. */
  lemma AddressIsMasked(s: string)
    requires s == "a@x.com"
    ensures MaskPII(s) == EmailToken
  {
    assert EmailSplit(s, 0, 1, 3, 7);
    EmailEndIs(s, 0, 7);
    EmailTokenStep(s, 0, 7);
    assert MaskEmails(s) == EmailToken;
    NoDigitNoPhoneMatch(EmailToken, 0);
  }

  /** No phone number starts inside the leading word "call" or at the blank after it. */
  lemma NoPhoneInCall(s: string)
    requires |s| > 5 && s[..5] == "call "
    ensures forall m :: 0 <= m < 5 ==> PhoneEnd(s, m) == None
  {
    assert s[0] == 'c' && s[1] == 'a' && s[2] == 'l' && s[3] == 'l' && s[4] == ' ';
    NoPhoneAtNonDigit(s, 0);
    NoPhoneInsideWord(s, 1);
    NoPhoneInsideWord(s, 2);
    NoPhoneInsideWord(s, 3);
    NoPhoneAtNonDigit(s, 4);
  }

  lemma NumberMatch(s: string)
    requires s == "call 98765 43210"
    ensures PhoneEnd(s, 5) == Some(16)
  {
    assert PhoneAt(s, 5, 16) by {
      assert IsBoundary(s, 5) && IsBoundary(s, 16);
      assert forall m :: 5 < m < 16 ==> IsPhoneChar(s[m]);
    }
    PhoneEndIs(s, 5, 16);
  }

  /** The word before the number is kept; the blank before the number is not part of the match. */
  lemma NumberIsMasked(s: string)
    requires s == "call 98765 43210"
    ensures MaskPII(s) == "call " + PhoneToken
  {
    NoAtNoEmailMatch(s, 0);
    NoPhoneInCall(s);
    NumberMatch(s);
    PhoneTokenStep(s, 5, 16);
    PhoneCopyRun(s, 0, 5);
    assert s[0..5] == "call ";
  }

  lemma NumberThenWordMatch(s: string)
    requires s == "call 98765 43210 now"
    ensures PhoneEnd(s, 5) == Some(17)
  {
    assert PhoneAt(s, 5, 17) by {
      assert IsBoundary(s, 5) && IsBoundary(s, 17);
      assert forall m :: 5 < m < 17 ==> IsPhoneChar(s[m]);
    }
    assert !IsPhoneChar(s[17]);
    PhoneEndIs(s, 5, 17);
  }

  lemma NoPhoneInNow(s: string)
    requires s == "call 98765 43210 now"
    ensures forall m :: 17 <= m < 20 ==> PhoneEnd(s, m) == None
  {
    NoPhoneAtNonDigit(s, 17);
    NoPhoneInsideWord(s, 18);
    NoPhoneInsideWord(s, 19);
  }

  /** Glues the runs and the placeholder of a scan back together. */
  lemma Glue(x: string, a: string, y: string, tok: string, z: string, b: string, w: string)
    requires x == a + y && y == tok + z && z == b + w && w == []
    ensures x == a + tok + b
  {
  }

  lemma CallNowPhones(s: string)
    requires s == "call 98765 43210 now"
    ensures MaskPhones(s) == "call " + PhoneToken + "now"
  {
    NoPhoneInCall(s);
    NumberThenWordMatch(s);
    NoPhoneInNow(s);
    PhoneCopyRun(s, 17, 20);
    assert MaskPhonesFrom(s, 20) == [];
    PhoneTokenStep(s, 5, 17);
    PhoneCopyRun(s, 0, 5);
    Glue(MaskPhonesFrom(s, 0), s[0..5], MaskPhonesFrom(s, 5), PhoneToken, MaskPhonesFrom(s, 17), s[17..20], MaskPhonesFrom(s, 20));
    assert s[0..5] == "call " && s[17..20] == "now";
  }

  /**
   * `[\d\s-]` also takes the blank after the last digit when a word follows,
   * since `\b` then holds before that word: the blank disappears into the
   * placeholder.
   */
  lemma TrailingBlankIsSwallowed(s: string)
    requires s == "call 98765 43210 now"
    ensures MaskPII(s) == "call " + PhoneToken + "now"
  {
    NoAtNoEmailMatch(s, 0);
    assert MaskEmails(s) == s;
    CallNowPhones(s);
  }

  lemma DomainDigitsMatch(s: string)
    requires s == "x@12345678.com"
    ensures PhoneEnd(s, 2) == Some(10)
  {
    assert PhoneAt(s, 2, 10) by {
      assert IsBoundary(s, 2) && IsBoundary(s, 10);
      assert forall m :: 2 < m < 10 ==> IsPhoneChar(s[m]);
    }
    assert !IsPhoneChar(s[10]);
    PhoneEndIs(s, 2, 10);
  }

  lemma NoOtherPhoneInAddress(s: string)
    requires s == "x@12345678.com"
    ensures forall m :: (0 <= m < 2 || 10 <= m < 14) ==> PhoneEnd(s, m) == None
  {
    NoPhoneAtNonDigit(s, 0);
    NoPhoneAtNonDigit(s, 1);
    NoPhoneAtNonDigit(s, 10);
    NoPhoneAtNonDigit(s, 11);
    NoPhoneAtNonDigit(s, 12);
    NoPhoneAtNonDigit(s, 13);
  }

  lemma AddressIsOneEmail(s: string)
    requires s == "x@12345678.com"
    ensures MaskEmails(s) == EmailToken
  {
    assert EmailSplit(s, 0, 1, 10, 14);
    EmailEndIs(s, 0, 14);
    EmailTokenStep(s, 0, 14);
    assert MaskEmailsFrom(s, 14) == [];
  }

  lemma DomainDigitsAlone(s: string)
    requires s == "x@12345678.com"
    ensures MaskPhones(s) == "x@" + PhoneToken + ".com"
  {
    DomainDigitsMatch(s);
    NoOtherPhoneInAddress(s);
    PhoneCopyRun(s, 10, 14);
    assert MaskPhonesFrom(s, 14) == [];
    PhoneTokenStep(s, 2, 10);
    PhoneCopyRun(s, 0, 2);
    Glue(MaskPhonesFrom(s, 0), s[0..2], MaskPhonesFrom(s, 2), PhoneToken, MaskPhonesFrom(s, 10), s[10..14], MaskPhonesFrom(s, 14));
    assert s[0..2] == "x@" && s[10..14] == ".com";
  }

  /**
   * Emails are masked before phone numbers. The digits of this domain alone
   * are phone-shaped, but the whole address becomes the email placeholder;
   * masking phone numbers first would instead keep the address around a
   * phone placeholder.
   */
  lemma EmailsAreMaskedFirst(s: string)
    requires s == "x@12345678.com"
    ensures MaskPII(s) == EmailToken
    ensures MaskPhones(s) == "x@" + PhoneToken + ".com"
  {
    AddressIsOneEmail(s);
    PlaceholdersAreFixed(EmailToken);
    DomainDigitsAlone(s);
  }
}
