/**
 * The request executor's result record and the mapping from the outcome of
 * one chat-completion call to that record (benchmark.py, make_request).
 * The HTTP call and the clock are not modelled: the outcome and the measured
 * latency are inputs.
 */
module Request {
  import opened Wrappers
  import opened Decimal

  /** One attempted call: latency in milliseconds, success flag, optional error text. */
  datatype RequestResult = RequestResult(latencyMs: real, success: bool, error: Option<string>)

  /** What the call ended with: a response carrying a status code, or a raised exception. */
  datatype Outcome =
    | HttpResponse(statusCode: int)
    | TransportFailure(message: string)

  const StatusOk: int := 200

  const HttpPrefix: string := "HTTP "

  /** The error text recorded for a response whose status is not 200. */
  function HttpError(statusCode: int): (e: string)
    ensures |e| > |HttpPrefix| && e[..|HttpPrefix|] == HttpPrefix
  {
    HttpPrefix + IntToString(statusCode)
  }

  /** Reads the status code back out of an "HTTP <code>" error text. */
  function StatusOfError(e: string): Option<int>
  {
    if |e| >= |HttpPrefix| && e[..|HttpPrefix|] == HttpPrefix then ParseInt(e[|HttpPrefix|..])
    else None
  }

  /** The RequestResult that make_request builds for an outcome observed after latencyMs. */
  function Classify(outcome: Outcome, latencyMs: real): (r: RequestResult)
    ensures r.latencyMs == latencyMs
    ensures r.success <==> outcome == HttpResponse(StatusOk)
    ensures r.success <==> r.error == None
    ensures outcome.TransportFailure? ==> r.error == Some(outcome.message)
  {
    match outcome
    case HttpResponse(code) =>
      if code == StatusOk then RequestResult(latencyMs, true, None)
      else RequestResult(latencyMs, false, Some(HttpError(code)))
    case TransportFailure(message) =>
      RequestResult(latencyMs, false, Some(message))
  }

  /** The error text of a rejected response names its status code, and nothing is lost in rendering it. */
  lemma HttpErrorRoundTrip(statusCode: int)
    ensures StatusOfError(HttpError(statusCode)) == Some(statusCode)
  {
    var e := HttpError(statusCode);
    assert e[|HttpPrefix|..] == IntToString(statusCode);
    IntRoundTrip(statusCode);
  }

  /** A non-200 response is recorded as a failure whose error text reads back as its status code. */
  lemma ClassifyRejectedResponse(statusCode: int, latencyMs: real)
    requires statusCode != StatusOk
    ensures var r := Classify(HttpResponse(statusCode), latencyMs);
      !r.success && r.error.Some? && StatusOfError(r.error.value) == Some(statusCode)
  {
    HttpErrorRoundTrip(statusCode);
  }

  /** Two rejected responses with different status codes are recorded with different error texts. */
  lemma ClassifyDistinguishesStatuses(s1: int, s2: int, l1: real, l2: real)
    requires s1 != StatusOk && s2 != StatusOk && s1 != s2
    ensures Classify(HttpResponse(s1), l1).error != Classify(HttpResponse(s2), l2).error
  {
    HttpErrorRoundTrip(s1);
    HttpErrorRoundTrip(s2);
  }
}
