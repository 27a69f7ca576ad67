/** The wire types shared by client and server (shared/api.ts). */
module Api {
  import opened Wrappers

  /** Languages supported by the assistant: a closed set. */
  datatype LanguageCode = En | Hi | Bn | Mr | Ta

  /** Body of `POST /api/chat`; every field may be absent. */
  datatype ChatRequest = ChatRequest(
    sessionId: Option<string>,
    message: Option<string>,
    language: Option<LanguageCode>)

  /** Successful answer of `POST /api/chat`. */
  datatype ChatResponse = ChatResponse(
    sessionId: string,
    answer: string,
    language: LanguageCode,
    intent: Option<string>,
    confidence: real,
    fallbackToHuman: bool,
    contextTopic: Option<string>)

  /** Body of `POST /api/handoff`. */
  datatype HandoffRequest = HandoffRequest(
    sessionId: Option<string>,
    name: Option<string>,
    email: Option<string>,
    phone: Option<string>,
    note: Option<string>)

  /** Answer of `POST /api/handoff`; its only field is the constant `ok: true`. */
  datatype HandoffResponse = HandoffOk

  /** The HTTP 400 answer `{ error: string }`. */
  datatype ApiError = BadRequest(error: string)

  /** The message text of every 400 answer of both routes. */
  const InvalidRequest: string := "Invalid request"

  /** JavaScript truthiness of an optional string: present and not empty. */
  predicate Truthy(s: Option<string>) {
    s.Some? && s.value != ""
  }
}
