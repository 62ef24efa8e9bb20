/** `Banette::Http::FHttpTransport`, the minimal transport whose requests
    carry the verb as text and whose responses carry an error flag and
    message instead of a separate error channel. */
module BanetteHttp {
  import opened Wrappers
  import opened Strings
  import opened HttpService
  import opened EngineHttp
  import HttpClient

  /** `FRequest`. */
  datatype Request = Request(
    Url: string,
    Method: string,
    Headers: HeaderMap,
    Body: seq<Byte>,
    TimeoutSeconds: real)

  /** A default-constructed `FRequest`: `GET` with a 30 second timeout. */
  const DefaultRequest: Request := Request("", "GET", [], [], 30.0)

  /** `FResponse`. */
  datatype Response = Response(
    StatusCode: int,
    Headers: HeaderMap,
    Body: seq<Byte>,
    bIsError: bool,
    ErrorMessage: string)

  const NetworkErrorMessage: string := "Network error or no response"

  /** `BuildHttpRequest`: the URL and verb as given, the timeout always set,
      each header added in order, and the content only for a non-empty body. */
  function BuildHttpRequest(r: Request): (w: WireRequest)
    ensures w.Url == r.Url && w.Verb == r.Method
    ensures w.Timeout == Some(r.TimeoutSeconds)
    ensures w.Content.Some? <==> |r.Body| > 0
    ensures w.Content.Some? ==> w.Content.value == r.Body
    ensures Unique(r.Headers) ==> forall q :: Find(w.Headers, q) == Find(r.Headers, q)
  {
    var h := AddAll([], r.Headers);
    assert Unique(r.Headers) ==> forall q :: Find(h, q) == Find(r.Headers, q) by {
      if Unique(r.Headers) {
        forall q ensures Find(h, q) == Find(r.Headers, q) {
          FindAddAll([], r.Headers, q);
          LastMatchUnique(r.Headers, q);
        }
      }
    }
    WireRequest(r.Url, r.Method, Some(r.TimeoutSeconds), h, if |r.Body| > 0 then Some(r.Body) else None)
  }

  /** `FString::Split(":")` on one header line: cut at the first `:`, wherever
      it stands, with both sides trimmed; a line without `:` is dropped. */
  function SplitHeaderLine(line: string): (r: Option<(string, string)>)
    ensures r.Some? <==> ':' in line
    ensures r.Some? ==> exists i :: 0 <= i < |line| && line[i] == ':' && ':' !in line[..i]
                                   && r.value == (HttpClient.UeTrim(line[..i]), HttpClient.UeTrim(line[i + 1..]))
  {
    var i := IndexOfChar(line, ':');
    if i >= 0 then Some((HttpClient.UeTrim(line[..i]), HttpClient.UeTrim(line[i + 1..]))) else None
  }

  function SplitHeaderPairs(lines: seq<string>): (r: seq<(string, string)>)
    ensures |r| <= |lines|
    decreases |lines|
  {
    if |lines| == 0 then []
    else
      var n := |lines| - 1;
      match SplitHeaderLine(lines[n])
      case Some(p) => SplitHeaderPairs(lines[..n]) + [p]
      case None => SplitHeaderPairs(lines[..n])
  }

  /** The response text for a status outside 2xx (`"HTTP error %d"`). */
  function HttpErrorMessage(code: int): (m: string)
    ensures StartsWith(m, "HTTP error ") && m != NetworkErrorMessage
  {
    var m := "HTTP error " + IntToString(code);
    assert m[..11] == "HTTP error ";
    assert m[5] != NetworkErrorMessage[5];
    m
  }

  /** `FHttpTransport::Call` after the engine completed the request. */
  function Respond(c: Completion): (r: Response)
    ensures !Delivered(c) ==> r == Response(0, [], [], true, NetworkErrorMessage)
    ensures Delivered(c) ==> r.StatusCode == c.Response.value.Code && r.Body == c.Response.value.Content
    ensures Delivered(c) ==> (r.bIsError <==> !(200 <= r.StatusCode < 300))
    ensures Delivered(c) && r.bIsError ==> r.ErrorMessage == HttpErrorMessage(r.StatusCode)
    ensures Delivered(c) && !r.bIsError ==> r.ErrorMessage == ""
    ensures Unique(r.Headers)
    ensures Delivered(c) ==> r.Headers == AddAll([], SplitHeaderPairs(c.Response.value.HeaderLines))
    ensures Delivered(c) ==>
              forall q :: Find(r.Headers, q) == LastMatch(SplitHeaderPairs(c.Response.value.HeaderLines), q)
  {
    if !Delivered(c) then Response(0, [], [], true, NetworkErrorMessage)
    else
      var raw := c.Response.value;
      MapOfPairs(SplitHeaderPairs(raw.HeaderLines));
      var failed := raw.Code < 200 || raw.Code >= 300;
      Response(
        raw.Code, AddAll([], SplitHeaderPairs(raw.HeaderLines)), raw.Content,
        failed, if failed then HttpErrorMessage(raw.Code) else "")
  }

  /** The flag of this transport is the negation of `FHttpClient`'s success
      flag on the same completion, and both fail on the same completions. */
  lemma ErrorFlagAgrees(w: WireRequest, c: Completion)
    ensures HttpClient.Complete(w, c).Failure? <==> !Delivered(c)
    ensures Delivered(c) ==> Respond(c).bIsError == !HttpClient.Complete(w, c).value.bSucceeded
    ensures Delivered(c) ==> Respond(c).StatusCode == HttpClient.Complete(w, c).value.StatusCode
  {
  }

  /** The two header parsers agree on a line whose first `:` is not its first
      character. */
  lemma SplitAgreesWithParse(line: string)
    requires |line| > 0 && line[0] != ':'
    ensures SplitHeaderLine(line) == HttpClient.ParseHeaderLine(line)
  {
  }

  /** They agree on every list of lines none of which starts with `:`. */
  lemma {:induction false} SplitPairsAgree(lines: seq<string>)
    requires forall j :: 0 <= j < |lines| ==> |lines[j]| > 0 && lines[j][0] != ':'
    ensures SplitHeaderPairs(lines) == HttpClient.HeaderPairs(lines)
    decreases |lines|
  {
    if |lines| > 0 {
      var n := |lines| - 1;
      SplitPairsAgree(lines[..n]);
      SplitAgreesWithParse(lines[n]);
    }
  }

  /** A line starting with `:` is kept here under an empty key and dropped by
      `FHttpClient`. */
  lemma EmptyKeyLine()
    ensures SplitHeaderLine(": x") == Some(("", "x"))
    ensures HttpClient.ParseHeaderLine(": x") == None
  {
    var l := ": x";
    assert IndexOfChar(l, ':') == 0;
    assert l[1..] == " x";
    assert HttpClient.UeTrim(l[..0]) == "";
    assert HttpClient.UeTrim(" x") == "x";
  }
}
