/** The response record the pipeline reads, and the remote verification call with
    its failures folded into a record (`apiRequest` and `verifyEmail`). */
module Api {
  import opened Wrappers

  /** A JavaScript result object as the pipeline sees it: every property may be
      absent. Only string-valued `email`/`result`/`format`/`error` and boolean-valued
      `disposable`/`offline` properties are represented. */
  datatype Response = Response(
    email: Option<string>,
    result: Option<string>,
    format: Option<string>,
    disposable: Option<bool>,
    offline: Option<bool>,
    error: Option<string>)

  /** What one HTTPS exchange produced: a body (parsed to a record, or None when it was
      not JSON) or a network error with its message. */
  datatype Exchange = Received(parsed: Option<Response>) | NetworkError(message: string)

  /** The remote service as seen from the pipeline: the exchange for the `i`-th call,
      made for the given address with the configured key. */
  type Remote = (string, nat) -> Exchange

  /** The message `apiRequest` rejects with when the body is not JSON. */
  const InvalidApiResponse: string := "Invalid API response"

  /** `apiRequest`: resolves with the parsed body, rejects on a parse or network error. */
  function ApiRequest(x: Exchange): (r: Result<Response, string>)
    ensures r.Err? <==> !(x.Received? && x.parsed.Some?)
    ensures x.Received? && x.parsed.Some? ==> r == Ok(x.parsed.value)
    ensures x.Received? && x.parsed.None? ==> r == Err(InvalidApiResponse)
    ensures x.NetworkError? ==> r == Err(x.message)
  {
    match x
    case Received(Some(body)) => Ok(body)
    case Received(None) => Err(InvalidApiResponse)
    case NetworkError(m) => Err(m)
  }

  /** The record `{error: msg}`: only its `error` property is present. */
  function ErrorRecord(msg: string): Response
  {
    Response(None, None, None, None, None, Some(msg))
  }

  /** `verifyEmail`: never fails; a rejected request becomes `{error: message}`. */
  function VerifyEmail(x: Exchange): (r: Response)
    ensures x.Received? && x.parsed.Some? ==> r == x.parsed.value
    ensures x.Received? && x.parsed.None? ==> r == ErrorRecord(InvalidApiResponse)
    ensures x.NetworkError? ==> r == ErrorRecord(x.message)
  {
    match ApiRequest(x)
    case Ok(body) => body
    case Err(m) => ErrorRecord(m)
  }
}
