/**
 * The human-handoff route (`handleHandoff` in server/routes/handoff.ts):
 * validation and the masked log record, returned as a value.
 */
module Handoff {
  import opened Wrappers
  import opened Api
  import opened Pii

  /** The handoff log line (timestamp left out); `kind` is the JSON field `type`. */
  datatype HandoffRecord = HandoffRecord(
    kind: string,
    sessionId: string,
    name: string,
    email: Option<string>,
    phone: Option<string>,
    note: Option<string>)

  /** The answer of a valid request, and the record the log receives (none when the append fails). */
  datatype HandoffReply = HandoffReply(response: HandoffResponse, logged: Option<HandoffRecord>)

  /** The server demands a non-empty `sessionId` and `name`; it does not trim. */
  predicate ValidHandoff(body: Option<HandoffRequest>) {
    body.Some? && Truthy(body.value.sessionId) && Truthy(body.value.name)
  }

  /** The record built for a valid request. */
  function Record(b: HandoffRequest): (rec: HandoffRecord)
    requires Truthy(b.sessionId) && Truthy(b.name)
    ensures rec.kind == "handoff" && rec.sessionId == b.sessionId.value
    ensures rec.name == MaskPII(b.name.value)
    ensures rec.email.Some? <==> Truthy(b.email)
    ensures rec.email.Some? ==> rec.email.value == EmailToken
    ensures rec.phone.Some? <==> Truthy(b.phone)
    ensures rec.phone.Some? ==> rec.phone.value == PhoneToken
    ensures rec.note.Some? <==> Truthy(b.note)
    ensures rec.note.Some? ==> rec.note.value == MaskPII(b.note.value)
  {
    HandoffRecord(
      "handoff",
      b.sessionId.value,
      MaskPII(b.name.value),
      if Truthy(b.email) then Some(EmailToken) else None,
      if Truthy(b.phone) then Some(PhoneToken) else None,
      if Truthy(b.note) then Some(MaskPII(b.note.value)) else None)
  }

  /**
   * `handleHandoff`. `appendSucceeds` says whether the log directory and append
   * succeeded; a failure is swallowed, so it decides only whether the record
   * reaches the log, never the answer.
   */
  function HandleHandoff(body: Option<HandoffRequest>, appendSucceeds: bool): (r: Result<HandoffReply, ApiError>)
    ensures r.Failure? <==> !ValidHandoff(body)
    ensures r.Failure? ==> r.error == BadRequest(InvalidRequest)
    ensures r.Success? ==> r.value.response == HandoffOk
    ensures r.Success? ==> (r.value.logged.Some? <==> appendSucceeds)
    ensures r.Success? && appendSucceeds ==> r.value.logged.value == Record(body.value)
  {
    if !ValidHandoff(body) then Failure(BadRequest(InvalidRequest))
    else
      var b := body.value;
      Success(HandoffReply(HandoffOk, if appendSucceeds then Some(Record(b)) else None))
  }

  /** The answer is the same whether or not the log append fails. */
  lemma AnswerIgnoresLogging(body: Option<HandoffRequest>)
    ensures HandleHandoff(body, true).Success? == HandleHandoff(body, false).Success?
    ensures HandleHandoff(body, true).Success? ==>
      HandleHandoff(body, true).value.response == HandleHandoff(body, false).value.response
  {
  }
}
