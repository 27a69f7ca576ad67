module Scenarios {
  import opened Wrappers
  import opened Api
  import opened JsString
  import opened Language
  import opened Faq
  import opened Chat
  import Pii
  import Handoff

  // ---------------------------------------------------------------------------
  // Deciding whether a pattern is found

  /** Every character of `s` is in the 7-bit ASCII range. */
  predicate Ascii(s: string) {
    forall i :: 0 <= i < |s| ==> s[i] <= '\U{007F}'
  }

  /** A pattern holding a character absent from `t` is not found in `t`. */
  lemma MissesByChar(p: string, t: string, c: char)
    requires c in p && !IsUpper(c) && c !in t
    ensures !Occurs(Lower(p), t)
  {
    var k :| 0 <= k < |p| && p[k] == c;
    assert Lower(p)[k] == c;
    MissingCharNotOccurs(Lower(p), t, k);
  }

  /** A pattern that starts outside ASCII is never found in an ASCII utterance. */
  lemma NonAsciiMisses(p: string, t: string)
    requires |p| > 0 && p[0] > '\U{007F}' && Ascii(t)
    ensures !Occurs(Lower(p), t)
  {
    MissesByChar(p, t, p[0]);
  }

  /**
   * A lower-case pattern whose first character appears in `t` only at `i0`,
   * too late for the rest of the pattern to fit, is not found in `t`.
   */
  lemma LateStartMisses(p: string, t: string, i0: nat)
    requires |p| > 0 && forall j :: 0 <= j < |p| ==> !IsUpper(p[j])
    requires forall i :: 0 <= i < |t| && t[i] == p[0] ==> i == i0
    requires i0 + |p| > |t|
    ensures !Occurs(Lower(p), t)
  {
    LowerIsIdentity(p);
    forall i: nat ensures !OccursAt(p, t, i) {
      if i + |p| <= |t| {
        assert t[i..i + |p|][0] == t[i];
      }
    }
  }

  /** A lower-case pattern found at some position of `t`. */
  lemma FoundAt(p: string, t: string, i: nat)
    requires forall j :: 0 <= j < |p| ==> !IsUpper(p[j])
    requires OccursAt(p, t, i)
    ensures Occurs(Lower(p), t)
  {
    LowerIsIdentity(p);
  }

  /** Lower-casing text without a capital changes nothing. */
  lemma LowerIsIdentity(s: string)
    requires forall i :: 0 <= i < |s| ==> !IsUpper(s[i])
    ensures Lower(s) == s
  {
  }

  /** The middle part of a concatenation occurs right after the first part. */
  lemma OccursInMiddle(a: string, b: string, c: string)
    ensures OccursAt(b, a + b + c, |a|)
  {
    assert (a + b + c)[|a|..|a| + |b|] == b;
  }

  /** An ASCII utterance contains no Devanagari, Bengali or Tamil character. */
  lemma AsciiIsEnglish(s: string)
    requires Ascii(s)
    ensures DetectLanguage(s) == En
  {
  }

  /** The three scores, from the patterns of each entry found in the already lower-case `q`. */
  lemma ScoresOfHitSets(q: string, h0: set<nat>, h1: set<nat>, h2: set<nat>)
    requires Lower(q) == q
    requires HitSet(FeesDeadlinePatterns, q) == h0
    requires HitSet(ScholarshipFormsPatterns, q) == h1
    requires HitSet(TimetableChangePatterns, q) == h2
    ensures Score(FAQ[0], q) == |h0| && Score(FAQ[1], q) == |h1| && Score(FAQ[2], q) == |h2|
  {
  }

  /** An entry scoring above both others is the best-score choice. */
  lemma MostHitsIsFirst(q: string)
    requires Score(FAQ[0], q) > Score(FAQ[1], q) && Score(FAQ[0], q) > Score(FAQ[2], q)
    ensures MostHits(FAQ, q) == Some(0)
  {
    FirstIsBest(Scores(FAQ, q));
  }

  /** A first score above every other is the best. */
  lemma FirstIsBest(s: seq<nat>)
    requires |s| == 3 && s[0] > s[1] && s[0] > s[2]
    ensures BestIndex(s) == Some(0)
  {
    var r := BestIndex(s);
    assert r.Some?;
    assert s[0] <= s[r.value];
  }

  // ---------------------------------------------------------------------------
  // "what is the fee deadline"

  lemma FeeQueryChars(q: string)
    requires q == "what is the fee deadline"
    ensures Ascii(q) && forall i :: 0 <= i < |q| ==> !IsUpper(q[i])
  {
  }

  lemma FeeQueryAbsent(q: string)
    requires q == "what is the fee deadline"
    ensures 'k' !in q && 'c' !in q && 'b' !in q
    ensures forall i :: 0 <= i < |q| && q[i] == 'f' ==> i == 12
  {
  }

  lemma FeeQuerySplit(q: string)
    requires q == "what is the fee deadline"
    ensures q == "what is the " + "fee deadline" + ""
  {
  }

  lemma FeeQueryText(q: string)
    requires q == "what is the fee deadline"
    ensures Ascii(q) && forall i :: 0 <= i < |q| ==> !IsUpper(q[i])
    ensures 'k' !in q && 'c' !in q && 'b' !in q
    ensures forall i :: 0 <= i < |q| && q[i] == 'f' ==> i == 12
    ensures Lower(q) == q
    ensures OccursAt("fee deadline", q, 12)
  {
    FeeQueryChars(q);
    FeeQueryAbsent(q);
    LowerIsIdentity(q);
    FeeQuerySplit(q);
    OccursInMiddle("what is the ", "fee deadline", "");
  }

  lemma FeeQueryFees(q: string, ps: seq<string>)
    requires q == "what is the fee deadline"
    requires ps == FeesDeadlinePatterns
    ensures HitSet(ps, q) == {0}
  {
    FeeQueryText(q);
    FoundAt(ps[0], q, 12);
    LateStartMisses(ps[1], q, 12);
    MissesByChar(ps[6], q, 'k');
    forall k | k in {2, 3, 4, 5, 7, 8, 9, 10} ensures !Occurs(Lower(ps[k]), q) {
      NonAsciiMisses(ps[k], q);
    }
  }

  lemma FeeQueryScholarships(q: string, ps: seq<string>)
    requires q == "what is the fee deadline"
    requires ps == ScholarshipFormsPatterns
    ensures HitSet(ps, q) == {}
  {
    FeeQueryText(q);
    MissesByChar(ps[0], q, 'c');
    MissesByChar(ps[1], q, 'c');
    forall k | k in {2, 3, 4, 5, 6} ensures !Occurs(Lower(ps[k]), q) {
      NonAsciiMisses(ps[k], q);
    }
  }

  lemma FeeQueryTimetable(q: string, ps: seq<string>)
    requires q == "what is the fee deadline"
    requires ps == TimetableChangePatterns
    ensures HitSet(ps, q) == {}
  {
    FeeQueryText(q);
    MissesByChar(ps[0], q, 'b');
    MissesByChar(ps[1], q, 'c');
    forall k | k in {2, 3, 4, 5, 6} ensures !Occurs(Lower(ps[k]), q) {
      NonAsciiMisses(ps[k], q);
    }
  }

  lemma FeeQueryHitSets(q: string)
    requires q == "what is the fee deadline"
    ensures Lower(q) == q
    ensures HitSet(FeesDeadlinePatterns, q) == {0}
    ensures HitSet(ScholarshipFormsPatterns, q) == {}
    ensures HitSet(TimetableChangePatterns, q) == {}
    ensures DetectLanguage(q) == En
  {
    FeeQueryText(q);
    FeeQueryFees(q, FeesDeadlinePatterns);
    FeeQueryScholarships(q, ScholarshipFormsPatterns);
    FeeQueryTimetable(q, TimetableChangePatterns);
    AsciiIsEnglish(q);
  }

  lemma FeeQueryScores(q: string)
    requires q == "what is the fee deadline"
    ensures Score(FAQ[0], q) == 1 && Score(FAQ[1], q) == 0 && Score(FAQ[2], q) == 0
  {
    FeeQueryHitSets(q);
    ScoresOfHitSets(q, {0}, {}, {});
  }

  lemma FeeQueryVerdict(q: string)
    requires q == "what is the fee deadline"
    ensures Matched(q) == Match(Some("fees_deadline"), Some("fee_deadlines"), 0.5)
  {
    FeeQueryScores(q);
    MatchedOfLastHit(q, 0);
  }

  lemma FeeQueryResponse(sid: string, q: string)
    requires q == "what is the fee deadline"
    ensures Expected(sid, q, None)
      == ChatResponse(sid, FeesDeadline.answers[En], En, Some("fees_deadline"), 0.5, false, Some("fee_deadlines"))
  {
    FeeQueryScores(q);
    FeeQueryLanguage(q);
    FeeEntryResponse(sid, q);
  }

  lemma FeeQueryLanguage(q: string)
    requires q == "what is the fee deadline"
    ensures DetectLanguage(q) == En
  {
    FeeQueryText(q);
    AsciiIsEnglish(q);
  }

  /** An English message whose only hit is a single fee pattern gets the fee entry's English answer. */
  lemma FeeEntryResponse(sid: string, q: string)
    requires Score(FAQ[0], q) == 1 && Score(FAQ[1], q) == 0 && Score(FAQ[2], q) == 0
    requires DetectLanguage(q) == En
    ensures Expected(sid, q, None)
      == ChatResponse(sid, FeesDeadline.answers[En], En, Some("fees_deadline"), 0.5, false, Some("fee_deadlines"))
  {
    ResponseOfLastHit(sid, q, None, 0);
  }

  /**
   * "what is the fee deadline": one fee pattern hits, so the turn is answered
   * in English from the fee entry with confidence 0.5.
   */
  lemma FeeQuestion(sid: string, q: string)
    requires q == "what is the fee deadline"
    ensures Score(FAQ[0], q) == 1 && Score(FAQ[1], q) == 0 && Score(FAQ[2], q) == 0
    ensures Matched(q) == Match(Some("fees_deadline"), Some("fee_deadlines"), 0.5)
    ensures Expected(sid, q, None)
      == ChatResponse(sid, FeesDeadline.answers[En], En, Some("fees_deadline"), 0.5, false, Some("fee_deadlines"))
  {
    FeeQueryScores(q);
    FeeQueryVerdict(q);
    FeeQueryResponse(sid, q);
  }

  // ---------------------------------------------------------------------------
  // "What is the Fee Deadline"

  lemma CapitalisedFeeQueryCase(q: string, q': string)
    requires q == "What is the Fee Deadline" && q' == "what is the fee deadline"
    ensures SameUpToCase(q, q')
  {
  }

  /** Capitals do not change the match: the same entry, confidence and answer as the lower-case question. */
  lemma CapitalisedFeeQuestion(sid: string, q: string)
    requires q == "What is the Fee Deadline"
    ensures Matched(q) == Match(Some("fees_deadline"), Some("fee_deadlines"), 0.5)
    ensures Expected(sid, q, None)
      == ChatResponse(sid, FeesDeadline.answers[En], En, Some("fees_deadline"), 0.5, false, Some("fee_deadlines"))
  {
    var q' := "what is the fee deadline";
    CapitalisedFeeQueryCase(q, q');
    FeeQueryVerdict(q');
    FeeQueryResponse(sid, q');
    MatchedIgnoresCase(q, q');
    ExpectedIgnoresCase(sid, q, q', None);
  }

  // ---------------------------------------------------------------------------
  // "शुल्क जमा"

  lemma HindiQueryChars(q: string)
    requires q == "शुल्क जमा"
    ensures forall i :: 0 <= i < |q| ==> !IsUpper(q[i])
  {
  }

  lemma HindiQueryAbsent(q: string)
    requires q == "शुल्क जमा"
    ensures forall c :: c in "fफফகअsषउtcसटসवந" ==> c !in q
  {
  }

  lemma HindiQuerySplit(q: string)
    requires q == "शुल्क जमा"
    ensures q == "" + "शुल्क" + " जमा" && q == "" + "शुल्क जमा" + ""
  {
  }

  lemma HindiQueryText(q: string)
    requires q == "शुल्क जमा"
    ensures forall i :: 0 <= i < |q| ==> !IsUpper(q[i])
    ensures Lower(q) == q
    ensures forall c :: c in "fफফகअsषउtcसटসवந" ==> c !in q
    ensures OccursAt("शुल्क जमा", q, 0) && OccursAt("शुल्क", q, 0)
  {
    HindiQueryChars(q);
    HindiQueryAbsent(q);
    LowerIsIdentity(q);
    HindiQuerySplit(q);
    OccursInMiddle("", "शुल्क", " जमा");
    OccursInMiddle("", "शुल्क जमा", "");
  }

  lemma HindiQueryFees(q: string, ps: seq<string>)
    requires q == "शुल्क जमा"
    requires ps == FeesDeadlinePatterns
    ensures HitSet(ps, q) == {2, 8}
  {
    HindiQueryText(q);
    FoundAt(ps[2], q, 0);
    FoundAt(ps[8], q, 0);
    forall k | k in {0, 1, 3, 4, 5, 6, 7, 10} ensures !Occurs(Lower(ps[k]), q) {
      MissesByChar(ps[k], q, ps[k][0]);
    }
    MissesByChar(ps[9], q, 'अ');
  }

  lemma HindiQueryScholarships(q: string, ps: seq<string>)
    requires q == "शुल्क जमा"
    requires ps == ScholarshipFormsPatterns
    ensures HitSet(ps, q) == {}
  {
    HindiQueryText(q);
    forall k | k in {0, 1, 2, 3, 4, 6} ensures !Occurs(Lower(ps[k]), q) {
      MissesByChar(ps[k], q, ps[k][0]);
    }
    MissesByChar(ps[5], q, 'ष');
  }

  lemma HindiQueryTimetable(q: string, ps: seq<string>)
    requires q == "शुल्क जमा"
    requires ps == TimetableChangePatterns
    ensures HitSet(ps, q) == {}
  {
    HindiQueryText(q);
    forall k | 0 <= k < 7 ensures !Occurs(Lower(ps[k]), q) {
      MissesByChar(ps[k], q, ps[k][0]);
    }
  }

  lemma HindiQueryHitSets(q: string)
    requires q == "शुल्क जमा"
    ensures Lower(q) == q
    ensures HitSet(FeesDeadlinePatterns, q) == {2, 8}
    ensures HitSet(ScholarshipFormsPatterns, q) == {}
    ensures HitSet(TimetableChangePatterns, q) == {}
  {
    HindiQueryText(q);
    HindiQueryFees(q, FeesDeadlinePatterns);
    HindiQueryScholarships(q, ScholarshipFormsPatterns);
    HindiQueryTimetable(q, TimetableChangePatterns);
  }

  lemma HindiQueryLanguage(q: string)
    requires q == "शुल्क जमा"
    ensures DetectLanguage(q) == Hi
  {
    assert HasScript(q, Devanagari) by { assert Devanagari.first <= q[0] <= Devanagari.last; }
  }

  lemma HindiQueryScores(q: string)
    requires q == "शुल्क जमा"
    ensures Score(FAQ[0], q) == 2 && Score(FAQ[1], q) == 0 && Score(FAQ[2], q) == 0
  {
    HindiQueryHitSets(q);
    ScoresOfHitSets(q, {2, 8}, {}, {});
  }

  lemma HindiQueryVerdict(q: string)
    requires q == "शुल्क जमा"
    ensures Matched(q) == Match(Some("fees_deadline"), Some("fee_deadlines"), 1.0)
  {
    HindiQueryScores(q);
    MatchedOfLastHit(q, 0);
  }

  lemma HindiQueryResponse(sid: string, q: string)
    requires q == "शुल्क जमा"
    ensures Expected(sid, q, None)
      == ChatResponse(sid, FeesDeadline.answers[Hi], Hi, Some("fees_deadline"), 1.0, false, Some("fee_deadlines"))
  {
    HindiQueryScores(q);
    HindiQueryLanguage(q);
    ResponseOfLastHit(sid, q, None, 0);
  }

  /**
   * "शुल्क जमा": two fee patterns hit ("शुल्क जमा" and its prefix "शुल्क"), so the
   * turn is answered in Hindi from the fee entry with confidence 1.
   */
  lemma HindiFeeQuestion(sid: string, q: string)
    requires q == "शुल्क जमा"
    ensures Score(FAQ[0], q) == 2 && Score(FAQ[1], q) == 0 && Score(FAQ[2], q) == 0
    ensures Matched(q) == Match(Some("fees_deadline"), Some("fee_deadlines"), 1.0)
    ensures Expected(sid, q, None)
      == ChatResponse(sid, FeesDeadline.answers[Hi], Hi, Some("fees_deadline"), 1.0, false, Some("fee_deadlines"))
  {
    HindiQueryScores(q);
    HindiQueryVerdict(q);
    HindiQueryResponse(sid, q);
  }

  // ---------------------------------------------------------------------------
  // "scholarship form"

  lemma ScholarshipQueryChars(q: string)
    requires q == "scholarship form"
    ensures Ascii(q) && forall i :: 0 <= i < |q| ==> !IsUpper(q[i])
    ensures 'e' !in q && 't' !in q
  {
  }

  lemma ScholarshipQuerySplit(q: string)
    requires q == "scholarship form"
    ensures q == "" + "scholarship" + " form" && q == "" + "scholarship form" + ""
  {
  }

  lemma ScholarshipQueryText(q: string)
    requires q == "scholarship form"
    ensures Ascii(q) && forall i :: 0 <= i < |q| ==> !IsUpper(q[i])
    ensures Lower(q) == q
    ensures 'e' !in q && 't' !in q
    ensures OccursAt("scholarship", q, 0) && OccursAt("scholarship form", q, 0)
  {
    ScholarshipQueryChars(q);
    LowerIsIdentity(q);
    ScholarshipQuerySplit(q);
    OccursInMiddle("", "scholarship", " form");
    OccursInMiddle("", "scholarship form", "");
  }

  /** No pattern of the fee or timetable entry is found in "scholarship form". */
  lemma ScholarshipQueryMisses(q: string, ps: seq<string>)
    requires q == "scholarship form"
    requires ps == FeesDeadlinePatterns || ps == TimetableChangePatterns
    ensures HitSet(ps, q) == {}
  {
    ScholarshipQueryText(q);
    forall k | 0 <= k < |ps| ensures !Occurs(Lower(ps[k]), q) {
      if ps[k][0] > '\U{007F}' {
        NonAsciiMisses(ps[k], q);
      } else if ps[k][0] == 'f' {
        MissesByChar(ps[k], q, 'e');
      } else {
        MissesByChar(ps[k], q, 't');
      }
    }
  }

  lemma ScholarshipQueryHits(q: string, ps: seq<string>)
    requires q == "scholarship form"
    requires ps == ScholarshipFormsPatterns
    ensures HitSet(ps, q) == {0, 1}
  {
    ScholarshipQueryText(q);
    FoundAt(ps[0], q, 0);
    FoundAt(ps[1], q, 0);
    forall k | 2 <= k < |ps| ensures !Occurs(Lower(ps[k]), q) {
      NonAsciiMisses(ps[k], q);
    }
  }

  lemma ScholarshipQueryHitSets(q: string)
    requires q == "scholarship form"
    ensures Lower(q) == q
    ensures HitSet(FeesDeadlinePatterns, q) == {}
    ensures HitSet(ScholarshipFormsPatterns, q) == {0, 1}
    ensures HitSet(TimetableChangePatterns, q) == {}
    ensures DetectLanguage(q) == En
  {
    ScholarshipQueryText(q);
    ScholarshipQueryMisses(q, FeesDeadlinePatterns);
    ScholarshipQueryHits(q, ScholarshipFormsPatterns);
    ScholarshipQueryMisses(q, TimetableChangePatterns);
    AsciiIsEnglish(q);
  }

  lemma ScholarshipQueryScores(q: string)
    requires q == "scholarship form"
    ensures Score(FAQ[0], q) == 0 && Score(FAQ[1], q) == 2 && Score(FAQ[2], q) == 0
  {
    ScholarshipQueryHitSets(q);
    ScoresOfScholarshipHits(q);
  }

  /** Two scholarship patterns and nothing else give the scores 0, 2 and 0. */
  lemma ScoresOfScholarshipHits(q: string)
    requires Lower(q) == q
    requires HitSet(FeesDeadlinePatterns, q) == {}
    requires HitSet(ScholarshipFormsPatterns, q) == {0, 1}
    requires HitSet(TimetableChangePatterns, q) == {}
    ensures Score(FAQ[0], q) == 0 && Score(FAQ[1], q) == 2 && Score(FAQ[2], q) == 0
  {
    ScoresOfHitSets(q, {}, {0, 1}, {});
  }

  lemma ScholarshipQueryVerdict(q: string)
    requires q == "scholarship form"
    ensures Matched(q) == Match(Some("scholarship_forms"), Some("scholarships"), 1.0)
  {
    ScholarshipQueryScores(q);
    MatchedOfLastHit(q, 1);
  }

  lemma ScholarshipQueryResponse(sid: string, q: string)
    requires q == "scholarship form"
    ensures Expected(sid, q, None)
      == ChatResponse(sid, ScholarshipForms.answers[En], En, Some("scholarship_forms"), 1.0, false, Some("scholarships"))
  {
    ScholarshipQueryScores(q);
    ScholarshipQueryHitSets(q);
    ResponseOfLastHit(sid, q, None, 1);
  }

  /**
   * "scholarship form": the overlapping patterns "scholarship" and
   * "scholarship form" both hit, so the score is 2 and the confidence 1.
   */
  lemma OverlappingPatternsBothCount(sid: string, q: string)
    requires q == "scholarship form"
    ensures Score(FAQ[0], q) == 0 && Score(FAQ[1], q) == 2 && Score(FAQ[2], q) == 0
    ensures Matched(q) == Match(Some("scholarship_forms"), Some("scholarships"), 1.0)
    ensures Expected(sid, q, None)
      == ChatResponse(sid, ScholarshipForms.answers[En], En, Some("scholarship_forms"), 1.0, false, Some("scholarships"))
  {
    ScholarshipQueryScores(q);
    ScholarshipQueryVerdict(q);
    ScholarshipQueryResponse(sid, q);
  }

  // ---------------------------------------------------------------------------
  // "asdkjasd"

  lemma GibberishText(q: string)
    requires q == "asdkjasd"
    ensures Ascii(q) && forall i :: 0 <= i < |q| ==> !IsUpper(q[i])
    ensures Lower(q) == q
    ensures 'f' !in q && 'c' !in q && 't' !in q
  {
    assert forall i :: 0 <= i < |q| ==> !IsUpper(q[i]);
    LowerIsIdentity(q);
  }

  /** No pattern of any entry is found in "asdkjasd". */
  lemma GibberishMisses(q: string, ps: seq<string>)
    requires q == "asdkjasd"
    requires ps == FeesDeadlinePatterns || ps == ScholarshipFormsPatterns || ps == TimetableChangePatterns
    ensures HitSet(ps, q) == {}
  {
    GibberishText(q);
    forall k | 0 <= k < |ps| ensures !Occurs(Lower(ps[k]), q) {
      if ps[k][0] > '\U{007F}' {
        NonAsciiMisses(ps[k], q);
      } else if ps[k][0] == 'f' {
        MissesByChar(ps[k], q, 'f');
      } else if ps[k][0] == 't' {
        MissesByChar(ps[k], q, 't');
      } else {
        MissesByChar(ps[k], q, 'c');
      }
    }
  }

  lemma GibberishHitSets(q: string)
    requires q == "asdkjasd"
    ensures Lower(q) == q
    ensures HitSet(FeesDeadlinePatterns, q) == {}
    ensures HitSet(ScholarshipFormsPatterns, q) == {}
    ensures HitSet(TimetableChangePatterns, q) == {}
    ensures DetectLanguage(q) == En
  {
    GibberishText(q);
    GibberishMisses(q, FeesDeadlinePatterns);
    GibberishMisses(q, ScholarshipFormsPatterns);
    GibberishMisses(q, TimetableChangePatterns);
    AsciiIsEnglish(q);
  }

  lemma GibberishScores(q: string)
    requires q == "asdkjasd"
    ensures forall k :: 0 <= k < |FAQ| ==> Score(FAQ[k], q) == 0
  {
    GibberishHitSets(q);
    ScoresOfHitSets(q, {}, {}, {});
  }

  lemma GibberishResponse(sid: string, q: string)
    requires q == "asdkjasd"
    ensures Expected(sid, q, None) == ChatResponse(sid, Suggestion(En), En, None, 0.0, true, None)
  {
    GibberishScores(q);
    GibberishHitSets(q);
    ResponseOfNoHit(sid, q, None);
  }

  /**
   * "asdkjasd": no entry scores, so the turn escalates with the English
   * suggestion text, no intent and confidence 0.
   */
  lemma GibberishFallsBack(sid: string, q: string)
    requires q == "asdkjasd"
    ensures Matched(q) == NoMatch
    ensures Expected(sid, q, None) == ChatResponse(sid, Suggestion(En), En, None, 0.0, true, None)
  {
    GibberishScores(q);
    GibberishResponse(sid, q);
  }

  // ---------------------------------------------------------------------------
  // "fee deadline fees last date timetable"

  lemma MixedQueryAscii(q: string)
    requires q == "fee deadline fees last date timetable"
    ensures Ascii(q)
  {
  }

  lemma MixedQueryLower(q: string)
    requires q == "fee deadline fees last date timetable"
    ensures forall i :: 0 <= i < |q| ==> !IsUpper(q[i])
  {
  }

  lemma MixedQueryAbsent(q: string)
    requires q == "fee deadline fees last date timetable"
    ensures 'k' !in q && 'c' !in q
  {
  }

  lemma MixedQueryFirst(q: string)
    requires q == "fee deadline fees last date timetable"
    ensures q == "" + "fee deadline" + " fees last date timetable"
  {
  }

  lemma MixedQuerySecond(q: string)
    requires q == "fee deadline fees last date timetable"
    ensures q == "fee deadline " + "fees last date" + " timetable"
  {
  }

  lemma MixedQueryThird(q: string)
    requires q == "fee deadline fees last date timetable"
    ensures q == "fee deadline fees last date " + "timetable" + ""
  {
  }

  lemma MixedQueryText(q: string)
    requires q == "fee deadline fees last date timetable"
    ensures Ascii(q) && forall i :: 0 <= i < |q| ==> !IsUpper(q[i])
    ensures Lower(q) == q
    ensures 'k' !in q && 'c' !in q
    ensures OccursAt("fee deadline", q, 0) && OccursAt("fees last date", q, 13) && OccursAt("timetable", q, 28)
  {
    MixedQueryAscii(q);
    MixedQueryLower(q);
    MixedQueryAbsent(q);
    LowerIsIdentity(q);
    MixedQueryFirst(q);
    MixedQuerySecond(q);
    MixedQueryThird(q);
    OccursInMiddle("", "fee deadline", " fees last date timetable");
    OccursInMiddle("fee deadline ", "fees last date", " timetable");
    OccursInMiddle("fee deadline fees last date ", "timetable", "");
  }

  lemma MixedQueryFees(q: string, ps: seq<string>)
    requires q == "fee deadline fees last date timetable"
    requires ps == FeesDeadlinePatterns
    ensures HitSet(ps, q) == {0, 1}
  {
    MixedQueryText(q);
    FoundAt(ps[0], q, 0);
    FoundAt(ps[1], q, 13);
    MissesByChar(ps[6], q, 'k');
    forall k | k in {2, 3, 4, 5, 7, 8, 9, 10} ensures !Occurs(Lower(ps[k]), q) {
      NonAsciiMisses(ps[k], q);
    }
  }

  lemma MixedQueryScholarships(q: string, ps: seq<string>)
    requires q == "fee deadline fees last date timetable"
    requires ps == ScholarshipFormsPatterns
    ensures HitSet(ps, q) == {}
  {
    MixedQueryText(q);
    MissesByChar(ps[0], q, 'c');
    MissesByChar(ps[1], q, 'c');
    forall k | k in {2, 3, 4, 5, 6} ensures !Occurs(Lower(ps[k]), q) {
      NonAsciiMisses(ps[k], q);
    }
  }

  lemma MixedQueryTimetable(q: string, ps: seq<string>)
    requires q == "fee deadline fees last date timetable"
    requires ps == TimetableChangePatterns
    ensures HitSet(ps, q) == {0}
  {
    MixedQueryText(q);
    FoundAt(ps[0], q, 28);
    MissesByChar(ps[1], q, 'c');
    forall k | k in {2, 3, 4, 5, 6} ensures !Occurs(Lower(ps[k]), q) {
      NonAsciiMisses(ps[k], q);
    }
  }

  lemma MixedQueryHitSets(q: string)
    requires q == "fee deadline fees last date timetable"
    ensures Lower(q) == q
    ensures HitSet(FeesDeadlinePatterns, q) == {0, 1}
    ensures HitSet(ScholarshipFormsPatterns, q) == {}
    ensures HitSet(TimetableChangePatterns, q) == {0}
    ensures DetectLanguage(q) == En
  {
    MixedQueryText(q);
    MixedQueryFees(q, FeesDeadlinePatterns);
    MixedQueryScholarships(q, ScholarshipFormsPatterns);
    MixedQueryTimetable(q, TimetableChangePatterns);
    AsciiIsEnglish(q);
  }

  lemma MixedQueryScores(q: string)
    requires q == "fee deadline fees last date timetable"
    ensures Score(FAQ[0], q) == 2 && Score(FAQ[1], q) == 0 && Score(FAQ[2], q) == 1
  {
    MixedQueryHitSets(q);
    ScoresOfHitSets(q, {0, 1}, {}, {0});
  }

  lemma MixedQueryVerdict(q: string)
    requires q == "fee deadline fees last date timetable"
    ensures Matched(q) == Match(Some("timetable_change"), Some("timetable"), 0.5) && LastHit(FAQ, q) == Some(2)
  {
    MixedQueryScores(q);
    MatchedOfLastHit(q, 2);
  }

  lemma MixedQueryResponse(sid: string, q: string)
    requires q == "fee deadline fees last date timetable"
    ensures Expected(sid, q, None)
      == ChatResponse(sid, TimetableChange.answers[En], En, Some("timetable_change"), 0.5, false, Some("timetable"))
  {
    MixedQueryScores(q);
    MixedQueryHitSets(q);
    ResponseOfLastHit(sid, q, None, 2);
  }

  /**
   * "fee deadline fees last date timetable": the fee entry has two hits and the
   * timetable entry one, yet the source answers with the timetable entry at
   * confidence 0.5, because any later entry with a hit displaces the earlier
   * one. A best-score matcher would pick the fee entry.
   */
  lemma LaterEntryWinsOverHigherScore(sid: string, q: string)
    requires q == "fee deadline fees last date timetable"
    ensures Score(FAQ[0], q) == 2 && Score(FAQ[1], q) == 0 && Score(FAQ[2], q) == 1
    ensures Matched(q) == Match(Some("timetable_change"), Some("timetable"), 0.5)
    ensures MostHits(FAQ, q) == Some(0) && LastHit(FAQ, q) == Some(2)
    ensures Expected(sid, q, None)
      == ChatResponse(sid, TimetableChange.answers[En], En, Some("timetable_change"), 0.5, false, Some("timetable"))
  {
    MixedQueryScores(q);
    MixedQueryVerdict(q);
    MixedQueryResponse(sid, q);
    MostHitsIsFirst(q);
  }

  /**
   * A request with a name and an address: the address itself never reaches
   * the log, only the placeholder; absent fields stay absent.
   */
  lemma HandoffWithEmail(body: Option<HandoffRequest>)
    requires body == Some(HandoffRequest(Some("s1"), Some("Asha"), Some("a@x.com"), None, None))
    ensures Handoff.HandleHandoff(body, true)
      == Success(Handoff.HandoffReply(HandoffOk,
           Some(Handoff.HandoffRecord("handoff", "s1", "Asha", Some(Pii.EmailToken), None, None))))
  {
    Pii.MaskPIIKeepsPlainText("Asha");
  }

  /** The server does not trim: a name of blanks is accepted and logged as it is. */
  lemma BlankNameIsAccepted(body: Option<HandoffRequest>)
    requires body == Some(HandoffRequest(Some("s1"), Some("  "), None, None, None))
    ensures Handoff.HandleHandoff(body, true)
      == Success(Handoff.HandoffReply(HandoffOk, Some(Handoff.HandoffRecord("handoff", "s1", "  ", None, None, None))))
  {
    Pii.MaskPIIKeepsPlainText("  ");
  }

  /** An empty name is refused. */
  lemma EmptyNameIsRefused(body: Option<HandoffRequest>, appendSucceeds: bool)
    requires body == Some(HandoffRequest(Some("s1"), Some(""), Some("a@x.com"), None, None))
    ensures Handoff.HandleHandoff(body, appendSucceeds) == Failure(BadRequest("Invalid request"))
  {
  }

  /** A turn asking "what is the fee deadline" stores the fee entry's intent and topic. */
  method AskFeeDeadline(server: ChatServer, sid: string, q: string) returns (r: ChatResponse)
    requires sid != "" && q == "what is the fee deadline"
    modifies server
    ensures r == ChatResponse(sid, FeesDeadline.answers[En], En, Some("fees_deadline"), 0.5, false, Some("fee_deadlines"))
    ensures server.sessions == old(server.sessions)[sid := SessionContext(Some("fees_deadline"), Some("fee_deadlines"))]
  {
    FeeQuestion(sid, q);
    var result, log := server.HandleChat(Some(ChatRequest(Some(sid), Some(q), None)), true);
    r := result.value;
  }

  /** A turn sending "asdkjasd" escalates and resets the session's context. */
  method AskGibberish(server: ChatServer, sid: string, q: string) returns (r: ChatResponse)
    requires sid != "" && q == "asdkjasd"
    modifies server
    ensures r == ChatResponse(sid, Suggestion(En), En, None, 0.0, true, None)
    ensures server.sessions == old(server.sessions)[sid := NoContext]
  {
    GibberishFallsBack(sid, q);
    var result, log := server.HandleChat(Some(ChatRequest(Some(sid), Some(q), None)), true);
    r := result.value;
  }

  /**
   * Two turns of one session on a fresh server: a matched question stores its
   * intent and topic, and the following unmatched message escalates and
   * resets the stored context.
   */
  method Conversation(sid: string, question: string, gibberish: string)
    returns (first: ChatResponse, stored: SessionContext, second: ChatResponse, context: SessionContext)
    requires sid == "s1" && question == "what is the fee deadline" && gibberish == "asdkjasd"
    ensures first
      == ChatResponse(sid, FeesDeadline.answers[En], En, Some("fees_deadline"), 0.5, false, Some("fee_deadlines"))
    ensures stored == SessionContext(Some("fees_deadline"), Some("fee_deadlines"))
    ensures second == ChatResponse(sid, Suggestion(En), En, None, 0.0, true, None)
    ensures context == NoContext
  {
    var server := new ChatServer();
    first := AskFeeDeadline(server, sid, question);
    stored := server.sessions[sid];
    second := AskGibberish(server, sid, gibberish);
    context := server.sessions[sid];
  }
}
