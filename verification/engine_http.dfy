/** What the transport hands to, and receives from, the engine's HTTP module
    (`IHttpRequest` / `IHttpResponse`). The engine itself is not part of this
    model: a request is the record of the calls made on it, and a response is
    the data the transport reads back. */
module EngineHttp {
  import opened Wrappers
  import opened HttpService

  /** An engine request after `SetURL`, `SetVerb`, the optional `SetTimeout`,
      the `SetHeader` calls (each a `TMap::Add`) and the optional `SetContent`. */
  datatype WireRequest = WireRequest(
    Url: string,
    Verb: string,
    Timeout: Option<real>,
    Headers: HeaderMap,
    Content: Option<seq<Byte>>)

  /** What an engine response reports: the status code, the `Content-Type`,
      the raw `"Key: Value"` header lines and the content bytes. */
  datatype RawResponse = RawResponse(
    Code: int,
    ContentType: string,
    HeaderLines: seq<string>,
    Content: seq<Byte>)

  /** The completion of an engine request: whether it connected, and the
      response object if one exists. */
  datatype Completion = Completion(Connected: bool, Response: Option<RawResponse>)

  /** A completion the transport can read a response from. */
  predicate Delivered(c: Completion) {
    c.Connected && c.Response.Some?
  }
}
