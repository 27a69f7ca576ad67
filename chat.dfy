/**
 * The chat turn engine (`handleChat` in server/routes/chat.ts): validation,
 * language resolution, intent matching, session context, escalation, answer
 * selection, the session update and the masked log record.
 */
module Chat {
  import opened Wrappers
  import opened Api
  import opened Language
  import opened Faq
  import JsString
  import Pii

  /** What the server remembers of a session: the last intent and topic. */
  datatype SessionContext = SessionContext(lastIntent: Option<string>, lastTopic: Option<string>)

  /** `sessions.get(id) ?? {}` for an unknown session. */
  const NoContext := SessionContext(None, None)

  /** The chat log line of one turn, with question and answer masked (timestamp left out). */
  datatype ChatLog = ChatLog(
    sessionId: string,
    lang: LanguageCode,
    q: string,
    a: string,
    intent: Option<string>,
    topic: Option<string>,
    conf: real,
    handoff: bool)

  /** Messages below this confidence are escalated to a human. */
  const Threshold: real := 0.25

  /** The fixed per-language "could not find an answer" text. */
  function Suggestion(lang: LanguageCode): string {
    match lang
    case En => "I couldn't find an exact answer. Please rephrase or request human help."
    case Hi => "सटीक उत्तर नहीं मिला। कृपया प्रश्न बदलकर पूछें या मानव सहायता का अनुरोध करें।"
    case Bn => "সঠিক উত্তর পাওয়া যায়নি। অনুগ্রহ করে প্রশ্নটি বদলে জিজ্ঞাসা করুন বা মানব সহায়তা চান।"
    case Mr => "तंतोतंत उत्तर सापडले नाही. कृपया प्रश्न पुन्हा मांडावा किंवा मानवी मदत मागा."
    case Ta => "சரியான பதில் கிடைக்கவில்லை. தயவு செய்து கேள்வியை மாற்றி கேளுங்கள் அல்லது மனித உதவியை கோருங்கள்."
  }

  /** `FAQ.find(f => f.intent === intent)`: the first entry with that intent. */
  function FindByIntent(es: seq<FaqEntry>, intent: string): (r: Option<FaqEntry>)
    ensures r.None? <==> forall k :: 0 <= k < |es| ==> es[k].intent != intent
    ensures r.Some? ==>
      exists k :: 0 <= k < |es| && es[k] == r.value && r.value.intent == intent
        && forall j :: 0 <= j < k ==> es[j].intent != intent
  {
    if es == [] then None
    else if es[0].intent == intent then
      Some(es[0])
    else
      var r := FindByIntent(es[1..], intent);
      assert forall k :: 1 <= k < |es| ==> es[k] == es[1..][k - 1];
      r
  }

  /** `item?.answers[lang] ?? item?.answers.en ?? ""`. */
  function Localized(item: Option<FaqEntry>, lang: LanguageCode): string {
    if item.None? then ""
    else if lang in item.value.answers then item.value.answers[lang]
    else if En in item.value.answers then item.value.answers[En]
    else ""
  }

  /**
   * `Number(x.toFixed(2))`: the nearest multiple of 0.01, ties away from zero.
   * No floating-point error is modelled.
   */
  function RoundTo2(x: real): real {
    if x < 0.0 then -(((-x) * 100.0 + 0.5).Floor as real / 100.0)
    else (x * 100.0 + 0.5).Floor as real / 100.0
  }

  /** Rounding to two decimals leaves every confidence the matcher can produce unchanged. */
  lemma RoundTo2KeepsConfidence(c: real)
    requires c == 0.0 || c == 0.5 || c == 1.0
    ensures RoundTo2(c) == c
  {
    if c == 0.5 {
      assert (c * 100.0 + 0.5).Floor == 50;
    } else if c == 1.0 {
      assert (c * 100.0 + 0.5).Floor == 100;
    }
  }

  /** A request the handler accepts: a body with non-empty `sessionId` and `message`. */
  predicate ValidChat(body: Option<ChatRequest>) {
    body.Some? && Truthy(body.value.sessionId) && Truthy(body.value.message)
  }

  /**
   * The response to a valid request. It does not depend on the stored session:
   * the previous context could only be inherited when the matcher found nothing,
   * and then the confidence is 0 and the turn escalates anyway.
   */
  ghost function Expected(sessionId: string, message: string, language: Option<LanguageCode>): (r: ChatResponse)
    ensures r.sessionId == sessionId
    ensures r.language == if language.Some? then language.value else DetectLanguage(message)
    ensures r.fallbackToHuman <==> forall k :: 0 <= k < |FAQ| ==> Score(FAQ[k], message) == 0
    ensures r.fallbackToHuman ==>
      r.intent.None? && r.contextTopic.None? && r.answer == Suggestion(r.language) && r.confidence == 0.0
    ensures !r.fallbackToHuman ==>
      exists k :: 0 <= k < |FAQ| && IsLastHit(message, k)
        && r.intent == Some(FAQ[k].intent) && r.contextTopic == Some(FAQ[k].topic)
        && r.language in FAQ[k].answers && r.answer == FAQ[k].answers[r.language]
        && r.confidence == Confidence(Score(FAQ[k], message))
    ensures r.confidence == 0.0 || r.confidence == 0.5 || r.confidence == 1.0
  {
    var lang := language.GetOr(DetectLanguage(message));
    var m := Matched(message);
    RoundTo2KeepsConfidence(m.confidence);
    if m.intent.None? then
      ChatResponse(sessionId, Suggestion(lang), lang, None, RoundTo2(m.confidence), true, None)
    else
      MatchedAnswer(message, lang);
      ChatResponse(sessionId, Localized(FindByIntent(FAQ, m.intent.value), lang), lang,
                   m.intent, RoundTo2(m.confidence), false, m.topic)
  }

  /** The whole response ignores the case of ASCII letters in the message. */
  lemma ExpectedIgnoresCase(sessionId: string, a: string, b: string, language: Option<LanguageCode>)
    requires JsString.SameUpToCase(a, b)
    ensures Expected(sessionId, a, language) == Expected(sessionId, b, language)
  {
    MatchedIgnoresCase(a, b);
    DetectLanguageIgnoresCase(a, b);
  }

  /** The response when entry `k` is the last entry with a hit: every field is entry `k`'s. */
  lemma ResponseOfLastHit(sessionId: string, message: string, language: Option<LanguageCode>, k: nat)
    requires k < |FAQ| && IsLastHit(message, k)
    ensures
      var lang := if language.Some? then language.value else DetectLanguage(message);
      Expected(sessionId, message, language)
        == ChatResponse(sessionId, FAQ[k].answers[lang], lang, Some(FAQ[k].intent),
                        Confidence(Score(FAQ[k], message)), false, Some(FAQ[k].topic))
  {
    TableFacts();
    var r := Expected(sessionId, message, language);
    var k' :| 0 <= k' < |FAQ| && IsLastHit(message, k')
      && r.intent == Some(FAQ[k'].intent) && r.contextTopic == Some(FAQ[k'].topic)
      && r.language in FAQ[k'].answers && r.answer == FAQ[k'].answers[r.language]
      && r.confidence == Confidence(Score(FAQ[k'], message));
    assert k' == k;
  }

  /** The response when no entry has a hit: escalation with the suggestion text. */
  lemma ResponseOfNoHit(sessionId: string, message: string, language: Option<LanguageCode>)
    requires forall k :: 0 <= k < |FAQ| ==> Score(FAQ[k], message) == 0
    ensures
      var lang := if language.Some? then language.value else DetectLanguage(message);
      Expected(sessionId, message, language) == ChatResponse(sessionId, Suggestion(lang), lang, None, 0.0, true, None)
  {
  }

  /** The answer looked up for a matched intent is the matched entry's text in `lang`. */
  lemma MatchedAnswer(message: string, lang: LanguageCode)
    requires Matched(message).intent.Some?
    ensures
      exists k :: 0 <= k < |FAQ| && IsLastHit(message, k) && Matched(message) == EntryMatch(FAQ[k], message)
        && lang in FAQ[k].answers
        && Localized(FindByIntent(FAQ, Matched(message).intent.value), lang) == FAQ[k].answers[lang]
  {
    TableFacts();
    var k :| 0 <= k < |FAQ| && IsLastHit(message, k) && Matched(message) == EntryMatch(FAQ[k], message);
    LocalizedEntry(FAQ, k, lang);
  }

  /** With distinct intents and full translations, the answer looked up for entry `k` is entry `k`'s. */
  lemma LocalizedEntry(es: seq<FaqEntry>, k: nat, lang: LanguageCode)
    requires k < |es| && DistinctIntents(es) && FullyTranslated(es)
    ensures Localized(FindByIntent(es, es[k].intent), lang) == es[k].answers[lang]
  {
    var r := FindByIntent(es, es[k].intent);
    var k' :| 0 <= k' < |es| && es[k'] == r.value && r.value.intent == es[k].intent
      && forall j :: 0 <= j < k' ==> es[j].intent != es[k].intent;
    assert k' == k;
  }

  /**
   * Lines 137-140: the stored context is inherited only when the matcher found
   * nothing, and then the confidence is 0, so the turn escalates. The turn
   * escalates exactly when no entry matched, whatever the stored context.
   */
  lemma InheritedContextIsDiscarded(q: string, prior: SessionContext)
    ensures
      var m := Matched(q);
      var usedTopic := if m.topic.Some? then m.topic else prior.lastTopic;
      var usedIntent := if m.intent.Some? then m.intent else prior.lastIntent;
      && ((!Truthy(usedIntent) || !Truthy(usedTopic) || m.confidence < Threshold) <==> m.intent.None?)
      && (m.intent.Some? ==> usedIntent == m.intent && usedTopic == m.topic)
  {
    TableFacts();
  }

  /** The masked log line written for a valid turn. */
  function LogOf(message: string, r: ChatResponse): ChatLog {
    ChatLog(r.sessionId, r.language, Pii.MaskPII(message), Pii.MaskPII(r.answer),
            r.intent, r.contextTopic, r.confidence, r.fallbackToHuman)
  }

  /** The process-wide session map and the route handler that reads and overwrites it. */
  class ChatServer {
    var sessions: map<string, SessionContext>

    constructor ()
      ensures sessions == map[]
    {
      sessions := map[];
    }

    /**
     * One chat turn. An invalid body is refused with no state change and no log;
     * a valid one gets `Expected(...)`, and the session is overwritten with the
     * response's intent and topic, which escalation resets to none.
     * `appendSucceeds` says whether the log append succeeded: a failure is
     * swallowed, so it decides only whether the log line is written.
     */
    method HandleChat(body: Option<ChatRequest>, appendSucceeds: bool)
      returns (r: Result<ChatResponse, ApiError>, log: Option<ChatLog>)
      modifies this
      ensures !ValidChat(body) ==>
        r == Failure(BadRequest(InvalidRequest)) && log.None? && sessions == old(sessions)
      ensures ValidChat(body) ==>
        var b := body.value;
        && r == Success(Expected(b.sessionId.value, b.message.value, b.language))
        && sessions == old(sessions)[b.sessionId.value := SessionContext(r.value.intent, r.value.contextTopic)]
        && log == (if appendSucceeds then Some(LogOf(b.message.value, r.value)) else None)
    {
      if !ValidChat(body) {
        return Failure(BadRequest(InvalidRequest)), None;
      }
      var b := body.value;
      var sessionId, message := b.sessionId.value, b.message.value;

      var session := if sessionId in sessions then sessions[sessionId] else NoContext;

      var lang := if b.language.Some? then b.language.value else DetectLanguage(message);
      var m := MatchIntent(message);
      InheritedContextIsDiscarded(message, session);
      RoundTo2KeepsConfidence(m.confidence);

      var fallbackToHuman := false;
      var answer := "";
      var usedTopic := if m.topic.Some? then m.topic else session.lastTopic;
      var usedIntent := if m.intent.Some? then m.intent else session.lastIntent;

      if !Truthy(usedIntent) || !Truthy(usedTopic) || m.confidence < Threshold {
        fallbackToHuman := true;
        usedTopic := None;
        usedIntent := None;
        answer := Suggestion(lang);
      } else {
        var item := FindByIntent(FAQ, usedIntent.value);
        answer := Localized(item, lang);
        MatchedAnswer(message, lang);
      }

      sessions := sessions[sessionId := SessionContext(usedIntent, usedTopic)];

      var response := ChatResponse(sessionId, answer, lang, usedIntent, RoundTo2(m.confidence),
                                   fallbackToHuman, usedTopic);
      r := Success(response);
      log := None;
      if appendSucceeds {
        log := Some(ChatLog(sessionId, lang, Pii.MaskPII(message), Pii.MaskPII(answer),
                            usedIntent, usedTopic, response.confidence, fallbackToHuman));
      }
    }
  }
}
