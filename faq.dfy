/**
 * The FAQ table and the keyword matcher (`FAQ`, `LANGS` and `matchIntent` in
 * server/routes/chat.ts).
 */
module Faq {
  import opened Wrappers
  import opened Api
  import opened JsString

  /** One FAQ entry: keyword triggers and answers per language (possibly partial). */
  datatype FaqEntry = FaqEntry(
    intent: string,
    topic: string,
    patterns: seq<string>,
    answers: map<LanguageCode, string>)

  /** The fixed multilingual FAQ dataset, in table order. */
  const FAQ: seq<FaqEntry> := [FeesDeadline, ScholarshipForms, TimetableChange]

  /** The keyword triggers of the fee-deadline entry. */
  const FeesDeadlinePatterns: seq<string> := [
    "fee deadline",
    "fees last date",
    "शुल्क जमा",
    "फीस आखिरी",
    "फीस की अंतिम तारीख",
    "फीस कब",
    "fees kab",
    "ফি শেষ তারিখ",
    "शुल्क",
    "शुल्क अंतिम",
    "கட்டணம் கடைசி தேதி"
  ]

  const FeesDeadline := FaqEntry(
    "fees_deadline",
    "fee_deadlines",
    FeesDeadlinePatterns,
    map[
      En := "Upcoming fee deadlines: Semester I – 15 Aug, Semester II – 15 Jan. Pay online via the student portal.",
      Hi := "आगामी शुल्क अंतिम तिथियाँ: सेमेस्टर I – 15 अगस्त, सेमेस्टर II – 15 जनवरी। भुगतान छात्र पोर्टल पर ऑनलाइन करें।",
      Bn := "ফি জমার শেষ তারিখ: সেমেস্টার I – ১৫ অগাস্ট, সেমেস্টার II – ১৫ জানুয়ারি। স্টুডেন্ট পোর্টালের মাধ্যমে পরিশোধ করুন।",
      Mr := "शुल्क भरणाची अंतिम तारीख: सेमेस्टर I – १५ ऑगस्ट, सेमेस्टर II – १५ जानेवारी. विद्यार्थी पोर्टलवर ऑनलाइन भरा.",
      Ta := "கட்டணம் செலுத்தும் கடைசி தேதி: செமஸ்டர் I – ஆகஸ்ட் 15, செமஸ்டர் II – ஜனவரி 15. மாணவர் போர்டலில் ஆன்லைனில் செலுத்தவும்."
    ])

  /** The keyword triggers of the scholarship entry. */
  const ScholarshipFormsPatterns: seq<string> := [
    "scholarship",
    "scholarship form",
    "वृत्ति",
    "स्कॉलरशिप",
    "বৃত্তি",
    "शिष्यवृत्ती",
    "உதவித்தொகை"
  ]

  const ScholarshipForms := FaqEntry(
    "scholarship_forms",
    "scholarships",
    ScholarshipFormsPatterns,
    map[
      En := "Scholarship forms are available on the portal > Finance > Scholarships. Submit before 30 Sept with income certificate.",
      Hi := "स्कॉलरशिप फॉर्म पोर्टल > वित्त > स्कॉलरशिप में उपलब्ध हैं। आय प्रमाण पत्र के साथ 30 सितम्बर से पहले जमा करें।",
      Bn := "স্কলারশিপ ফর্ম পোর্টাল > Finance > Scholarships-এ পাওয়া যায়। আয়ের সনদসহ ৩০ সেপ্টেম্বরের মধ্যে জমা দিন।",
      Mr := "शिष्यवृत्ती फॉर्म पोर्टल > Finance > Scholarships येथे उपलब्ध आहेत. उत्प\U{FFFD}\U{FFFD}\U{FFFD}्न प्रमाणपत्रासह ३० सप्टेंबरपूर्वी सादर करा.",
      Ta := "உதவித்தொகை படிவங்கள் போர்டல் > Finance > Scholarships பகுதியில் உள்ளன. வருமானச் சான்றுடன் செப் 30க்கு முன் சமர்ப்பிக்கவும்."
    ])

  /** The keyword triggers of the timetable entry. */
  const TimetableChangePatterns: seq<string> := [
    "timetable",
    "class timings",
    "समय सारिणी",
    "टाइमटेबल",
    "সময়সূচী",
    "वेळापत्रक",
    "நேர அட்டவணை"
  ]

  const TimetableChange := FaqEntry(
    "timetable_change",
    "timetable",
    TimetableChangePatterns,
    map[
      En := "Timetable updates are posted daily at 7am on the portal dashboard and the notice board channel.",
      Hi := "समय सारिणी अपडेट रोज सुबह 7 बजे पोर्टल डैशबोर्ड और नोटिस बोर्ड चैनल पर पोस्ट किए जाते हैं।",
      Bn := "টাইমটেবিল আপডেট প্রতিদিন সকাল ৭টায় পোর্টাল ড্যাশবোর্ড এবং নোটিস বোর্ড চ্যানেলে পোস্ট হয়।",
      Mr := "वेळापत्रकातील अद्यतने दररोज सकाळी ७ वाजता पोर्टल डॅशबोर्ड आणि नोटिस बोर्ड चॅनेलवर पोस्ट होतात.",
      Ta := "நேர அட்டவணை புதுப்பிப்புகள் தினமும் காலை 7 மணிக்கு போர்டல் டாஷ்போர்டு மற்றும் அறிவிப்பு சேனலில் இடப்படுகின்றன."
    ])

  /** The supported languages, in the order the source lists them. */
  const LANGS: seq<LanguageCode> := [En, Hi, Bn, Mr, Ta]

  /** The matcher's verdict on one utterance. */
  datatype Match = Match(intent: Option<string>, topic: Option<string>, confidence: real)

  const NoMatch := Match(None, None, 0.0)

  /** Indices of the patterns of `ps` whose lower-cased form occurs in `lower`. */
  ghost function HitSet(ps: seq<string>, lower: string): set<nat> {
    set k: nat | k < |ps| && Occurs(Lower(ps[k]), lower)
  }

  /** The inner loop's count: one per pattern found, overlapping patterns each counting. */
  function Hits(ps: seq<string>, lower: string): (n: nat)
    ensures n == |HitSet(ps, lower)|
    decreases |ps|
  {
    if ps == [] then
      assert HitSet(ps, lower) == {};
      0
    else
      var m := |ps| - 1;
      var hit := Includes(lower, Lower(ps[m]));
      var n := Hits(ps[..m], lower);
      HitSetSplit(ps, lower);
      n + (if hit then 1 else 0)
  }

  /** The hits among all patterns are those among all but the last, and the last if it is found. */
  lemma HitSetSplit(ps: seq<string>, lower: string)
    requires |ps| > 0
    ensures var m := |ps| - 1;
      HitSet(ps, lower) == HitSet(ps[..m], lower) + (if Occurs(Lower(ps[m]), lower) then {m} else {})
      && m !in HitSet(ps[..m], lower)
  {
    var m := |ps| - 1;
    forall k: nat | k < m ensures ps[..m][k] == ps[k] {
    }
  }

  /** The raw score of an entry for utterance `q`. */
  function Score(e: FaqEntry, q: string): nat {
    Hits(e.patterns, Lower(q))
  }

  /** `Math.min(1, score / 2)`: one hit gives 0.5, two or more saturate at 1. */
  function Confidence(score: nat): (c: real)
    ensures score == 0 ==> c == 0.0
    ensures score == 1 ==> c == 0.5
    ensures score >= 2 ==> c == 1.0
  {
    var x := score as real / 2.0;
    if 1.0 < x then 1.0 else x
  }

  /** The last entry of `es`, in table order, with at least one hit. */
  function LastHit(es: seq<FaqEntry>, q: string): (r: Option<nat>)
    ensures r.Some? ==> r.value < |es| && Score(es[r.value], q) > 0
    ensures r.Some? ==> forall k :: r.value < k < |es| ==> Score(es[k], q) == 0
    ensures r.None? ==> forall k :: 0 <= k < |es| ==> Score(es[k], q) == 0
    decreases |es|
  {
    if es == [] then None
    else if Score(es[|es| - 1], q) > 0 then Some(|es| - 1)
    else LastHit(es[..|es| - 1], q)
  }

  /** The verdict over the entries of `es`: the last entry with a hit, or no match. */
  function MatchOver(es: seq<FaqEntry>, q: string): Match {
    match LastHit(es, q)
    case None => NoMatch
    case Some(k) => EntryMatch(es[k], q)
  }

  /** The verdict naming entry `e`, with its confidence for `q`. */
  function EntryMatch(e: FaqEntry, q: string): Match {
    Match(Some(e.intent), Some(e.topic), Confidence(Score(e, q)))
  }

  /**
   * What `matchIntent(q)` returns. Because the source compares the integer score
   * of each entry with the stored confidence (at most 1), any entry with a hit
   * displaces the current best: the verdict is the LAST entry with a hit, not
   * the one with the most hits.
   */
  function Matched(q: string): (m: Match)
    ensures m.intent.None? <==> forall k :: 0 <= k < |FAQ| ==> Score(FAQ[k], q) == 0
    ensures m.intent.None? ==> m == NoMatch
    ensures m.intent.Some? ==>
      exists k :: 0 <= k < |FAQ| && IsLastHit(q, k) && m == EntryMatch(FAQ[k], q)
    ensures m.intent.None? <==> m.topic.None?
    ensures m.intent.None? <==> m.confidence == 0.0
    ensures m.confidence == 0.0 || m.confidence == 0.5 || m.confidence == 1.0
  {
    MatchOver(FAQ, q)
  }

  /** Entry `k` has a hit for `q` and no later entry has one. */
  ghost predicate IsLastHit(q: string, k: nat)
    requires k < |FAQ|
  {
    Score(FAQ[k], q) > 0 && forall k' :: k < k' < |FAQ| ==> Score(FAQ[k'], q) == 0
  }

  /** Matching ignores case: utterances equal up to ASCII case give every entry the same score. */
  lemma ScoreIgnoresCase(e: FaqEntry, a: string, b: string)
    requires SameUpToCase(a, b)
    ensures Score(e, a) == Score(e, b)
  {
    LowerEqualIffSameUpToCase(a, b);
  }

  /** Utterances equal up to ASCII case have the same last hit and the same verdict. */
  lemma {:induction false} MatchOverIgnoresCase(es: seq<FaqEntry>, a: string, b: string)
    requires SameUpToCase(a, b)
    ensures LastHit(es, a) == LastHit(es, b)
    ensures MatchOver(es, a) == MatchOver(es, b)
    decreases |es|
  {
    if es != [] {
      var n := |es| - 1;
      ScoreIgnoresCase(es[n], a, b);
      MatchOverIgnoresCase(es[..n], a, b);
      match LastHit(es, a)
      case None =>
      case Some(k) => ScoreIgnoresCase(es[k], a, b);
    }
  }

  /** `matchIntent` ignores the case of ASCII letters. */
  lemma MatchedIgnoresCase(a: string, b: string)
    requires SameUpToCase(a, b)
    ensures Matched(a) == Matched(b)
  {
    MatchOverIgnoresCase(FAQ, a, b);
  }

  /** When entry `k` is the last entry with a hit, the verdict is entry `k`'s. */
  lemma MatchedOfLastHit(q: string, k: nat)
    requires k < |FAQ| && IsLastHit(q, k)
    ensures LastHit(FAQ, q) == Some(k)
    ensures Matched(q) == EntryMatch(FAQ[k], q)
  {
    var l := LastHit(FAQ, q);
    assert l.Some?;
    assert l.value == k;
  }

  /**
   * The index a best-score rule with "later wins ties" picks among the scores
   * `s`: the last index of the largest score, if any score is positive.
   */
  function BestIndex(s: seq<nat>): (r: Option<nat>)
    ensures r.None? <==> forall k :: 0 <= k < |s| ==> s[k] == 0
    ensures r.Some? ==> r.value < |s| && s[r.value] > 0
    ensures r.Some? ==> forall k :: 0 <= k < |s| ==> s[k] <= s[r.value]
    ensures r.Some? ==> forall k :: r.value < k < |s| ==> s[k] < s[r.value]
    decreases |s|
  {
    if s == [] then None
    else
      var n := |s| - 1;
      var r := BestIndex(s[..n]);
      if s[n] > 0 && (r.None? || s[n] >= s[r.value]) then Some(n) else r
  }

  /** The score of every entry of `es`, in table order. */
  function Scores(es: seq<FaqEntry>, q: string): (s: seq<nat>)
    ensures |s| == |es| && forall k :: 0 <= k < |es| ==> s[k] == Score(es[k], q)
  {
    seq(|es|, k requires 0 <= k < |es| => Score(es[k], q))
  }

  /**
   * The entry a best-score matcher with a "later wins ties" rule would pick:
   * the last entry whose score is the largest, if any entry scores at all.
   * This is the rule that the name `best` and the `>=` comparison suggest, kept as a reference.
   */
  function MostHits(es: seq<FaqEntry>, q: string): (r: Option<nat>)
    ensures r.None? <==> forall k :: 0 <= k < |es| ==> Score(es[k], q) == 0
    ensures r.Some? ==> r.value < |es| && Score(es[r.value], q) > 0
    ensures r.Some? ==> forall k :: 0 <= k < |es| ==> Score(es[k], q) <= Score(es[r.value], q)
    ensures r.Some? ==> forall k :: r.value < k < |es| ==> Score(es[k], q) < Score(es[r.value], q)
  {
    BestIndex(Scores(es, q))
  }

  /**
   * The source's last-hit rule and the best-score rule pick the same entry
   * exactly when the last entry with a hit also has the highest score.
   */
  lemma LastHitIsMostHitsIff(es: seq<FaqEntry>, q: string)
    ensures LastHit(es, q) == MostHits(es, q) <==>
      (LastHit(es, q).None? || forall k :: 0 <= k < |es| ==> Score(es[k], q) <= Score(es[LastHit(es, q).value], q))
  {
    var l := LastHit(es, q);
    if l.Some? && forall k :: 0 <= k < |es| ==> Score(es[k], q) <= Score(es[l.value], q) {
      BestIsLastPositive(Scores(es, q), l.value);
    }
  }

  /** A positive score that is the largest and that no later positive score follows is the best. */
  lemma BestIsLastPositive(s: seq<nat>, m: nat)
    requires m < |s| && s[m] > 0
    requires forall k :: m < k < |s| ==> s[k] == 0
    requires forall k :: 0 <= k < |s| ==> s[k] <= s[m]
    ensures BestIndex(s) == Some(m)
  {
    var r := BestIndex(s);
    assert r.Some?;
    assert s[r.value] <= s[m];
  }

  /** One more pattern: the count grows by one exactly when the pattern is found. */
  lemma HitsStep(ps: seq<string>, lower: string, j: nat)
    requires j < |ps|
    ensures Hits(ps[..j + 1], lower) == Hits(ps[..j], lower) + if Includes(lower, Lower(ps[j])) then 1 else 0
  {
    assert ps[..j + 1][..j] == ps[..j];
  }

  /** One more entry: an entry with a hit displaces the verdict over the entries before it. */
  lemma MatchOverStep(es: seq<FaqEntry>, q: string, i: nat)
    requires i < |es|
    ensures MatchOver(es[..i + 1], q)
      == if Score(es[i], q) > 0 then EntryMatch(es[i], q) else MatchOver(es[..i], q)
  {
    assert es[..i + 1][..i] == es[..i];
  }

  /** `matchIntent`: two nested loops that keep the best verdict so far. */
  method MatchIntent(q: string) returns (best: Match)
    ensures best == Matched(q)
  {
    var lower := Lower(q);
    best := NoMatch;
    for i := 0 to |FAQ|
      invariant best == MatchOver(FAQ[..i], q)
      invariant best.confidence <= 1.0
    {
      var item := FAQ[i];
      var score := 0;
      for j := 0 to |item.patterns|
        invariant score == Hits(item.patterns[..j], lower)
      {
        HitsStep(item.patterns, lower, j);
        if Includes(lower, Lower(item.patterns[j])) {
          score := score + 1;
        }
      }
      assert item.patterns[..|item.patterns|] == item.patterns;
      MatchOverStep(FAQ, q, i);
      if score > 0 && score as real >= best.confidence {
        best := Match(Some(item.intent), Some(item.topic), Confidence(score));
      }
    }
    assert FAQ[..|FAQ|] == FAQ;
  }

  // ---------------------------------------------------------------------------
  // Facts about the table

  /** No two entries share an intent, so looking an entry up by intent finds the one that matched. */
  predicate DistinctIntents(es: seq<FaqEntry>) {
    forall i, j :: 0 <= i < j < |es| ==> es[i].intent != es[j].intent
  }

  /** Every entry answers in every language, never with the empty text. */
  predicate FullyTranslated(es: seq<FaqEntry>) {
    forall k, l :: 0 <= k < |es| ==> l in es[k].answers && es[k].answers[l] != ""
  }

  /** No two entries share a topic. */
  predicate DistinctTopics(es: seq<FaqEntry>) {
    forall i, j :: 0 <= i < j < |es| ==> es[i].topic != es[j].topic
  }

  /** Every entry has a non-empty intent and topic. */
  predicate NamedEntries(es: seq<FaqEntry>) {
    forall k :: 0 <= k < |es| ==> es[k].intent != "" && es[k].topic != ""
  }

  lemma TableFacts()
    ensures |FAQ| == 3
    ensures NamedEntries(FAQ)
    ensures DistinctIntents(FAQ)
    ensures DistinctTopics(FAQ)
    ensures FullyTranslated(FAQ)
  {
    forall k, l | 0 <= k < |FAQ| ensures l in FAQ[k].answers && FAQ[k].answers[l] != "" {
      match l
      case En =>
      case Hi =>
      case Bn =>
      case Mr =>
      case Ta =>
    }
  }
}
