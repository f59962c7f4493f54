/**
 * What the submit handler does with the server's answer (script.js:142-166): a non-2xx status, an
 * `error` field or a failure on the way becomes the message `Failed to process: …`; otherwise the
 * summary is formatted for display.
 */
module Response {
  import opened Wrappers
  import opened JsText
  import opened Formatter

  /**
   * The decoded JSON body: either an object whose `error` and `summary` fields are strings or
   * absent, or a body the handler fails on before it reads a field. `Malformed` stands for text
   * that is not JSON, and also for JSON `null`, where reading `data.error` (script.js:154) raises a
   * `TypeError`; `reason` is the message of that failure.
   */
  datatype Body = Malformed(reason: string) | Json(error: Option<string>, summary: Option<string>)

  /** The outcome of `fetch`: the request failed outright, or an HTTP response arrived. */
  datatype Reply = NetworkFailure(reason: string) | Http(status: nat, body: Body)

  /** What the page ends up showing: the formatted summary, or an error message. */
  datatype Outcome = Shown(html: string) | Failed(message: string)

  /** The text every message of the `catch` branch starts with (script.js:163). */
  const FailurePrefix: string := "Failed to process: "

  /** `response.ok`: the status is in the 2xx range. */
  predicate StatusOk(status: nat) {
    200 <= status <= 299
  }

  /** JavaScript truthiness of an optional string: present and non-empty. */
  predicate Truthy(v: Option<string>) {
    v.Some? && v.value != []
  }

  /** The one path that reaches `displayResults`: a 2xx status, a JSON body, no truthy `error`, and a summary. */
  predicate Delivers(reply: Reply) {
    reply.Http? && StatusOk(reply.status) && reply.body.Json? && !Truthy(reply.body.error) && reply.body.summary.Some?
  }

  /**
   * The `try`/`catch` of the submit handler. `reason` of a failure is the message of the exception
   * the engine or `fetch` raised; `missingSummary` is the message of the `TypeError` that
   * `displayResults` raises when the body has no `summary`.
   */
  function Classify(reply: Reply, missingSummary: string): (r: Outcome)
    ensures r.Shown? <==> Delivers(reply)
    ensures r.Shown? ==> r.html == FormatSummary(reply.body.summary.value)
    ensures r.Failed? ==> FailurePrefix <= r.message
  {
    match reply
    case NetworkFailure(reason) => Failed(FailurePrefix + reason)
    case Http(status, body) =>
      if !StatusOk(status) then Failed(FailurePrefix + "Server error: " + DecimalString(status))
      else match body
        case Malformed(reason) => Failed(FailurePrefix + reason)
        case Json(error, summary) =>
          if Truthy(error) then Failed(FailurePrefix + error.value)
          else if summary.None? then Failed(FailurePrefix + missingSummary)
          else Shown(FormatSummary(summary.value))
  }

  /**
   * A status outside 2xx is reported before the body is read, whatever the body holds, and the
   * message names the status in decimal: reading the digits back gives the status.
   */
  lemma ServerErrorNamesStatus(status: nat, body: Body, missingSummary: string)
    requires !StatusOk(status)
    ensures var r := Classify(Http(status, body), missingSummary);
      r.Failed? && |r.message| > |FailurePrefix + "Server error: "| &&
      r.message[..|FailurePrefix + "Server error: "|] == FailurePrefix + "Server error: " &&
      (forall k :: |FailurePrefix + "Server error: "| <= k < |r.message| ==> IsDigit(r.message[k])) &&
      DecimalValue(r.message[|FailurePrefix + "Server error: "|..]) == status
  {
    var head := FailurePrefix + "Server error: ";
    var digits := DecimalString(status);
    assert (head + digits)[..|head|] == head;
    assert (head + digits)[|head|..] == digits;
    DecimalRoundTrip(status);
  }

  /** A truthy `error` field is passed on after the prefix, even when a summary came with it. */
  lemma ServerReportedError(status: nat, error: string, summary: Option<string>, missingSummary: string)
    requires StatusOk(status) && error != []
    ensures Classify(Http(status, Json(Some(error), summary)), missingSummary) == Failed(FailurePrefix + error)
  {
  }

  /**
   * Every other failure is reported as the prefix followed by the failure's own message: a failed
   * `fetch`, a 2xx body that cannot be read, and a body without a `summary`.
   */
  lemma FailureCarriesMessage(status: nat, reason: string, error: Option<string>, missingSummary: string)
    ensures Classify(NetworkFailure(reason), missingSummary) == Failed(FailurePrefix + reason)
    ensures StatusOk(status) ==> Classify(Http(status, Malformed(reason)), missingSummary) == Failed(FailurePrefix + reason)
    ensures StatusOk(status) && !Truthy(error) ==>
      Classify(Http(status, Json(error, None)), missingSummary) == Failed(FailurePrefix + missingSummary)
  {
  }

  /** An empty `error` string is falsy: the summary is shown as if the field were absent. */
  lemma EmptyErrorIgnored(status: nat, summary: Option<string>, missingSummary: string)
    ensures Classify(Http(status, Json(Some([]), summary)), missingSummary) == Classify(Http(status, Json(None, summary)), missingSummary)
  {
  }
}
