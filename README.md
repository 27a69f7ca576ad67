# campus-linguabot: the chat and handoff routes in Dafny

This project models the server core of campus-linguabot, a multilingual
campus help-desk assistant, and proves properties of the model. Two routes are
covered.

- `POST /api/chat` (`server/routes/chat.ts`) answers a student's question. It
  detects the script of the message, scores it against a fixed FAQ table by
  case-insensitive substring hits, and escalates to a human when nothing
  matches. It keeps a process-wide map from session id to the last intent and
  topic, and builds a log line with e-mail addresses and phone numbers masked.
- `POST /api/handoff` (`server/routes/handoff.ts`) validates a request for
  human help and builds its masked log record.

Modules, one per file:

- `Wrappers` (`wrappers.dfy`): `Option` and `Result`.
- `Api` (`api.dfy`): the wire types of `shared/api.ts`. Optional fields are
  `Option`s, and the 400 answer is `BadRequest("Invalid request")`.
- `JsString` (`jsstring.dfy`): `toLowerCase` restricted to ASCII, and
  `includes`, proved equal to a declarative "occurs as a contiguous
  substring".
- `Language` (`language.dfy`): `detectLanguage`, proved against "some
  character lies in the block".
- `Pii` (`pii.dfy`): `maskPII`, shared by both routes. Each global `replace`
  is a left-to-right scanner. At each position it asks for the match the
  regular-expression engine picks there. On a match it emits the placeholder
  and resumes after the match; otherwise it copies one character. The
  patterns are written out as declarative predicates (`EmailAt`, `PhoneAt`).
  For both patterns the engine's backtracking order picks the longest
  accepted window at a position:
  - for e-mails, the local part is the whole local-class run before `@`;
    the domain backtracks to the last dot that is followed by two letters;
    the top-level domain is then the longest letter run;
  - for phones, the greedy `[\d\s-]` run backtracks to the last `\b`.

  So `EmailEnd` and `PhoneEnd` are proved to return the longest window the
  predicate accepts, or none when it accepts none. `\b` is evaluated against
  the whole input, not the remaining suffix, exactly as a global replace
  does.

  On top of the two scanners, the model proves that no text the e-mail
  pattern or the phone pattern accepts is left in the output of `maskPII`.
  So masking an already masked text changes nothing.
- `Faq` (`faq.dfy`): the FAQ table, copied from the source, and `matchIntent`
  as a method with the source's two nested loops. The method is proved equal to
  the specification function `Matched`.
- `Chat` (`chat.dfy`): the class `ChatServer`, whose field `sessions` is the
  source's `sessions` map, and its method `HandleChat`. The method is proved
  to return `Expected(...)`, a specification of the response, and to overwrite
  exactly one session entry.
- `Handoff` (`handoff.dfy`): validation and the log record, as values.
- `PiiExamples` (`pii_examples.dfy`) and `Scenarios` (`scenarios.dfy`):
  worked inputs, derived from the general contracts.

Where the names in the code suggest one rule and the code does another, the
model follows the code.

- The variable name `best` (server/routes/chat.ts:109) and the `>=` comparison
  (server/routes/chat.ts:117) read as a best-score rule with later entries
  winning ties. But the code compares the integer hit count
  with the stored confidence, which is at most 1. So every later entry with a
  hit displaces the current one, and the verdict is the last entry with any
  hit. `Faq.Matched` models the code. `Faq.MostHits` is the best-score rule,
  kept as a reference. `Faq.LastHitIsMostHitsIff` says exactly when the two
  agree, and `Scenarios.LaterEntryWinsOverHigherScore` shows an input where
  they differ.
- The chat widget trims the handoff name before it allows a request
  (client/components/chat/ChatWidget.tsx:158). The server does not trim, and it
  accepts a name made of blanks (`Scenarios.BlankNameIsAccepted`).

Effects are parameters or results:

- the log append becomes a result value: the chat log line, or the handoff
  record;
- `appendSucceeds` says whether the append would have succeeded;
- the contracts show that the answer never depends on it.

The source file's Marathi scholarship answer holds three corrupted
characters; the table keeps them as U+FFFD.

## Model

| member | source | states |
|---|---|---|
| JsString.Lower | server/routes/chat.ts:108 | lower-casing keeps the length, turns each ASCII capital into its small letter, keeps every other character and leaves no ASCII capital |
| JsString.LowerEqualIffSameUpToCase | server/routes/chat.ts:108 | two strings lower-case to the same string exactly when they differ only in the case of ASCII letters |
| JsString.Includes | server/routes/chat.ts:115 | `includes` holds exactly when the pattern occurs as a contiguous substring |
| JsString.MissingCharNotOccurs | server/routes/chat.ts:115 | a pattern with a character absent from the text does not occur in it |
| Language.TestBlock | server/routes/chat.ts:101-103 | a range test holds exactly when some character of the text is in the block |
| Language.DetectLanguage | server/routes/chat.ts:99-105 | `hi` iff Devanagari is present; `bn` iff Bengali and no Devanagari; `ta` iff Tamil and neither; `en` iff none; never `mr` |
| Language.DetectLanguageIgnoresCase | server/routes/chat.ts:99-105 | changing the case of ASCII letters never changes the detected language |
| Faq.Hits | server/routes/chat.ts:113-116 | the score is the number of patterns whose lower-cased form occurs in the lower-cased utterance; overlapping patterns each count |
| Faq.Score | server/routes/chat.ts:108-116 | defined as the number of the entry's patterns whose lower-cased form occurs in the lower-cased utterance; its properties are stated by `Faq.Hits` and `Faq.ScoreIgnoresCase` |
| Faq.Confidence | server/routes/chat.ts:118 | `min(1, score/2)`: 0 hits give 0, one hit 0.5, two or more 1 |
| Faq.LastHit | server/routes/chat.ts:112-120 | the chosen entry has a hit and no later entry has one; none exactly when no entry has a hit |
| Faq.Matched | server/routes/chat.ts:107-122 | no intent iff no entry has a hit, and then confidence 0 with no topic; otherwise intent, topic and confidence all come from the last entry with a hit; confidence is 0, 0.5 or 1 |
| Faq.MatchIntent | server/routes/chat.ts:107-122 | the two nested loops return `Matched(q)` |
| Faq.ScoreIgnoresCase | server/routes/chat.ts:108-116 | utterances equal up to ASCII case get the same score from every entry |
| Faq.MatchedIgnoresCase | server/routes/chat.ts:107-121 | utterances equal up to ASCII case get the same verdict |
| Faq.MatchedOfLastHit | server/routes/chat.ts:112-121 | when entry `k` has a hit and no later entry has one, the verdict is entry `k`'s |
| Faq.MostHits | server/routes/chat.ts:117 | the best-score rule with later entries winning ties: the last entry of maximal score, none iff no entry scores |
| Faq.LastHitIsMostHitsIff | server/routes/chat.ts:117 | the source's rule and the best-score rule agree exactly when the last entry with a hit has the highest score |
| Faq.TableFacts | server/routes/chat.ts:10-80 | three entries, distinct intents, distinct topics, non-empty intents and topics, an answer in every language for every entry |
| Pii.EmailEnd | server/routes/chat.ts:95 | the e-mail match at a position is the longest window the e-mail pattern accepts there, or none when it accepts none |
| Pii.PhoneEnd | server/routes/chat.ts:96 | the phone match at a position is the longest window, boundaries included, that the phone pattern accepts there, or none |
| Pii.MaskEmailsFrom | server/routes/chat.ts:95 | the global e-mail replace from a position on: where `Pii.EmailEnd` finds a match it emits `<email>` and resumes after the match, otherwise it copies one character; its properties are stated by `Pii.EmailRun`, `Pii.MaskEmailsFromIsFree` and `Pii.EmailFreeUnchanged` |
| Pii.MaskEmails | server/routes/chat.ts:95 | the e-mail replace over the whole text; `Pii.MaskEmailsFromIsFree` states that no e-mail window is left in its output |
| Pii.MaskPhonesFrom | server/routes/chat.ts:96 | the global phone replace from a position on: where `Pii.PhoneEnd` finds a match it emits `<phone>` and resumes after the match, otherwise it copies one character; its properties are stated by `Pii.PhoneRun`, `Pii.PhoneFreeFrom` and `Pii.PhoneFreeUnchanged` |
| Pii.MaskPhones | server/routes/chat.ts:96 | the phone replace over the whole text; `Pii.NoPhoneSurvivesPhoneMasking` states that no phone window is left in its output |
| Pii.MaskPII | server/routes/chat.ts:93-97 | `maskPII`, the same in server/routes/handoff.ts:15-19: e-mails first, then phone numbers; its properties are stated by `Pii.NoEmailSurvives`, `Pii.NoPhoneSurvives`, `Pii.MaskPIIIsIdempotent`, `Pii.MaskPIIKeepsPlainText` and `Pii.PlaceholdersAreFixed` |
| Pii.NoAtNoEmailMatch | server/routes/chat.ts:95 | text without `@` passes the e-mail rewrite unchanged |
| Pii.NoDigitNoPhoneMatch | server/routes/chat.ts:96 | text without a digit passes the phone rewrite unchanged |
| Pii.MaskPIIKeepsPlainText | server/routes/chat.ts:93-97 | text with no `@` and no digit is returned unchanged |
| Pii.PlaceholdersAreFixed | server/routes/chat.ts:93-97 | both placeholders are left unchanged by `maskPII` |
| Pii.PhoneCopyRun | server/routes/chat.ts:96 | a stretch of positions where no phone match starts is copied unchanged |
| Pii.EmailRun | server/routes/chat.ts:95 | the e-mail rewrite copies the text up to the next position where a match starts, then continues from there |
| Pii.PhoneRun | server/routes/chat.ts:96 | the phone rewrite copies the text up to the next position where a match starts, then continues from there |
| Pii.MaskEmailsFromIsFree | server/routes/chat.ts:95 | the output of the e-mail rewrite holds no window the e-mail pattern accepts |
| Pii.MaskPhonesFromKeepsEmailFree | server/routes/chat.ts:96 | the phone rewrite of a text without an e-mail window creates none |
| Pii.NoEmailSurvives | server/routes/chat.ts:93-97 | no window of the output of `maskPII` is accepted by the e-mail pattern |
| Pii.PhoneFreeFrom | server/routes/chat.ts:96 | from any position on, the phone rewrite leaves no window the phone pattern accepts, boundaries evaluated on the whole output |
| Pii.NoPhoneSurvivesPhoneMasking | server/routes/chat.ts:96 | the output of the phone rewrite holds no window the phone pattern accepts |
| Pii.NoPhoneSurvives | server/routes/chat.ts:93-97 | no window of the output of `maskPII` is accepted by the phone pattern |
| Pii.EmailFreeUnchanged | server/routes/chat.ts:95 | the e-mail rewrite leaves a text without an e-mail window unchanged |
| Pii.PhoneFreeUnchanged | server/routes/chat.ts:96 | the phone rewrite leaves a text without a phone window unchanged |
| Pii.MaskPIIIsIdempotent | server/routes/chat.ts:93-97 | masking a masked text changes nothing |
| Chat.ValidChat | server/routes/chat.ts:126 | a body is accepted exactly when it is present with a truthy session id and message; `Chat.ChatServer.HandleChat` states what follows either way |
| Chat.Suggestion | server/routes/chat.ts:144-151 | the escalation text for each of the five languages, literal for literal; `Chat.ResponseOfNoHit` states when it is the answer |
| Chat.Localized | server/routes/chat.ts:154 | the entry's answer in the language, else its English answer, else the empty text; `Chat.LocalizedEntry` and `Chat.MatchedAnswer` state which text it gives for the matched entry |
| Chat.RoundTo2 | server/routes/chat.ts:165 | `Number(x.toFixed(2))` as rounding to two decimals, ties away from zero; `Chat.RoundTo2KeepsConfidence` states that it leaves every confidence the matcher produces unchanged |
| Chat.LogOf | server/routes/chat.ts:172-183 | the log line: session id, language, masked message, masked answer, intent, topic, rounded confidence and the handoff flag; `Chat.ChatServer.HandleChat` states when it is written |
| Chat.FindByIntent | server/routes/chat.ts:153 | `find` returns the first entry with the intent, and none iff no entry has it |
| Chat.RoundTo2KeepsConfidence | server/routes/chat.ts:165 | `Number(c.toFixed(2))` is `c` for the three confidences the matcher produces |
| Chat.ExpectedIgnoresCase | server/routes/chat.ts:130-168 | messages equal up to ASCII case get the same response |
| Chat.Expected | server/routes/chat.ts:130-168 | the response echoes the session id; its language is the supplied one, else the detected one; it escalates iff no entry has a hit, and then carries the suggestion text, no intent or topic and confidence 0; otherwise intent, topic, answer (in the response language) and confidence come from the last entry with a hit |
| Chat.MatchedAnswer | server/routes/chat.ts:152-156 | the answer looked up by the matched intent is the matched entry's text in the requested language |
| Chat.LocalizedEntry | server/routes/chat.ts:153-154 | with distinct intents and full translations, looking an entry up by its intent yields its own answer |
| Chat.InheritedContextIsDiscarded | server/routes/chat.ts:137-143 | whatever the stored context, the turn escalates iff the matcher found nothing, and a non-escalated turn uses the matcher's intent and topic |
| Chat.ResponseOfLastHit | server/routes/chat.ts:152-168 | when entry `k` is the last with a hit, the whole response is entry `k`'s answer, intent, topic and confidence |
| Chat.ResponseOfNoHit | server/routes/chat.ts:140-151 | when no entry has a hit, the response is the escalation with the suggestion text |
| Chat.ChatServer.constructor | server/routes/chat.ts:7 | the server starts with no sessions |
| Chat.ChatServer.HandleChat | server/routes/chat.ts:124-187 | an invalid body gives the 400 error with no log line and the session map unchanged; a valid one gives `Expected(...)`, overwrites only its own session with the response's intent and topic, and yields the masked log line iff the append succeeds |
| Handoff.ValidHandoff | server/routes/handoff.ts:23 | a body is accepted exactly when it is present with a truthy session id and name; `Handoff.HandleHandoff` states what follows either way |
| Handoff.Record | server/routes/handoff.ts:29-37 | type `handoff`, session id verbatim, name masked, e-mail and phone replaced by their placeholders iff given non-empty, note masked iff given non-empty |
| Handoff.HandleHandoff | server/routes/handoff.ts:21-43 | the 400 error iff the session id or name is missing or empty; otherwise `{ ok: true }`, with the record logged iff the append succeeds |
| Handoff.AnswerIgnoresLogging | server/routes/handoff.ts:27-42 | the answer is the same whether or not the log append fails |
| PiiExamples.AddressIsMasked | server/routes/chat.ts:95 | `a@x.com` becomes `<email>` |
| PiiExamples.NumberIsMasked | server/routes/chat.ts:96 | `call 98765 43210` becomes `call <phone>` |
| PiiExamples.CallNowPhones | server/routes/chat.ts:96 | the phone rewrite turns `call 98765 43210 now` into `call <phone>now` |
| PiiExamples.TrailingBlankIsSwallowed | server/routes/chat.ts:96 | `call 98765 43210 now` becomes `call <phone>now`: the blank before `now` is part of the match |
| PiiExamples.AddressIsOneEmail | server/routes/chat.ts:95 | the e-mail rewrite turns `x@12345678.com` into `<email>` |
| PiiExamples.DomainDigitsAlone | server/routes/chat.ts:96 | the phone rewrite alone turns `x@12345678.com` into `x@<phone>.com` |
| PiiExamples.EmailsAreMaskedFirst | server/routes/chat.ts:94-96 | `x@12345678.com` becomes `<email>`, while the phone rewrite alone would mask only its digits |
| Scenarios.FeeQuestion | server/routes/chat.ts:107-168 | "what is the fee deadline" is answered in English from the fee entry with confidence 0.5 |
| Scenarios.CapitalisedFeeQuestion | server/routes/chat.ts:107-168 | "What is the Fee Deadline" gets the same verdict and English answer as the lower-case question, confidence 0.5 |
| Scenarios.HindiFeeQuestion | server/routes/chat.ts:99-168 | "शुल्क जमा" hits two fee patterns and is answered in Hindi with confidence 1 |
| Scenarios.OverlappingPatternsBothCount | server/routes/chat.ts:44-45 | "scholarship form" scores 2 for the scholarship entry, so its confidence is 1 |
| Scenarios.GibberishFallsBack | server/routes/chat.ts:140-151 | "asdkjasd" escalates with the English suggestion text |
| Scenarios.LaterEntryWinsOverHigherScore | server/routes/chat.ts:117 | "fee deadline fees last date timetable" is answered from the timetable entry (1 hit, confidence 0.5) although the fee entry has 2 hits |
| Scenarios.Conversation | server/routes/chat.ts:130-158 | on a fresh server, a matched turn stores its intent and topic, and a following unmatched turn escalates and resets the stored context |
| Scenarios.HandoffWithEmail | server/routes/handoff.ts:29-37 | the logged record holds `<email>` for a given address, and no phone or note |
| Scenarios.BlankNameIsAccepted | server/routes/handoff.ts:23 | a name of blanks is accepted and logged as given |
| Scenarios.EmptyNameIsRefused | server/routes/handoff.ts:23-25 | an empty name gives the 400 error |

## Left out

- File system and clock: `ensureLogDir`, `todayFile`, `appendFileSync`, the ISO timestamps and the JSON serialisation of log lines. The log line or record is returned as a value, and whether the append succeeds is a parameter.
- Express plumbing: `req`, `res` and the status codes; inputs are plain values and the 400 answer is an error result.
- The client (`ChatWidget`, the pages and the layout components): it is React rendering. Its three request-shaping steps are not modelled:
  - it maps the language choice "auto" to an absent language (client/components/chat/ChatWidget.tsx:52);
  - it trims every chat message and never posts an empty or blank one (client/components/chat/ChatWidget.tsx:42-43);
  - it refuses a handoff whose trimmed name is empty (client/components/chat/ChatWidget.tsx:158).
  The server model, like server/routes/chat.ts:126, still accepts padded and whitespace-only messages, and the handoff model accepts a name made of blanks.
- `toLowerCase` beyond ASCII: a capital outside ASCII is left as it is. Every non-English pattern of the table is in a caseless script.
- Untyped request bodies: the model's request types make every field a string and every language one of the five codes. So the model does not capture a `message` that is not a string, such as a number: it passes the check at server/routes/chat.ts:126 and then throws at `q.toLowerCase()` (server/routes/chat.ts:108). Handoff fields are strings in the model too, and a language value outside the five is not representable.
- Floating point: confidences are reals, and `toFixed(2)` is rounding to two decimals, proved to be the identity on 0, 0.5 and 1.
- Concurrency: a Node handler runs to completion, so turns are sequential method calls.
- `LANGS` is declared but the source never reads it; the model only declares it.
- `DemoResponse` and `ChatMessage` of `shared/api.ts` play no part in the routes.
