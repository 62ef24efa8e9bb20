/** `FHttpClient`, the transport of `FHttpRequest`s: the verb table, the
    preparation of the engine request from the record, the parsing of response
    header lines and the derivation of `FHttpResponse`. */
module HttpClient {
  import opened Wrappers
  import opened Strings
  import opened HttpService
  import opened EngineHttp

  /** The verb sent on the wire: the enumerator's name in capitals. The
      `default` branch of the C++ switch is unreachable for an enum class
      value and has no counterpart here. */
  function ToVerb(m: HttpMethod): (r: string)
    ensures r == AsciiUpper(MethodName(m))
  {
    match m
    case Get => "GET"
    case Post => "POST"
    case Put => "PUT"
    case Delete => "DELETE"
    case Patch => "PATCH"
    case Head => "HEAD"
  }

  /** Different verbs go on the wire differently. */
  lemma ToVerbInjective(a: HttpMethod, b: HttpMethod)
    requires ToVerb(a) == ToVerb(b)
    ensures a == b
  {
    assert MethodName(a)[0] == ToVerb(a)[0] && MethodName(b)[0] == ToVerb(b)[0];
    assert |ToVerb(a)| == |MethodName(a)|;
  }

  // ---------------------------------------------------------------------
  // Header lines
  // ---------------------------------------------------------------------

  /** Whitespace as `FString::TrimStartAndEnd` removes it, taken as the ASCII
      space and the control characters tab to carriage return. */
  predicate UeWhitespace(c: char) {
    c == ' ' || ('\t' <= c <= '\r')
  }

  function UeTrim(s: string): (r: string)
    ensures |r| <= |s|
    ensures |r| == 0 || (!UeWhitespace(r[0]) && !UeWhitespace(r[|r| - 1]))
  {
    TrimBy(s, UeWhitespace)
  }

  /** One response header line: accepted when its first `:` is not the first
      character; the trimmed text before it is the key and the trimmed text
      after it the value. */
  function ParseHeaderLine(line: string): (r: Option<(string, string)>)
    ensures r.Some? <==> ':' in line && line[0] != ':'
    ensures r.Some? ==> exists i :: 0 < i < |line| && line[i] == ':' && ':' !in line[..i]
                                   && r.value == (UeTrim(line[..i]), UeTrim(line[i + 1..]))
  {
    var i := IndexOfChar(line, ':');
    if i > 0 then Some((UeTrim(line[..i]), UeTrim(line[i + 1..]))) else None
  }

  /** The accepted lines' pairs, in order. */
  function HeaderPairs(lines: seq<string>): (r: seq<(string, string)>)
    ensures |r| <= |lines|
    decreases |lines|
  {
    if |lines| == 0 then []
    else
      var n := |lines| - 1;
      match ParseHeaderLine(lines[n])
      case Some(p) => HeaderPairs(lines[..n]) + [p]
      case None => HeaderPairs(lines[..n])
  }

  /** `ParseHeaders`: the output map is reset, then each accepted pair is added. */
  function ParseHeaders(lines: seq<string>): (r: HeaderMap)
    ensures Unique(r)
  {
    AddAll([], HeaderPairs(lines))
  }

  /** A parsed header holds the value of the last line that carries its key. */
  lemma ParseHeadersFind(lines: seq<string>, q: string)
    ensures Find(ParseHeaders(lines), q) == LastMatch(HeaderPairs(lines), q)
  {
    FindAddAll([], HeaderPairs(lines), q);
  }

  /** The pairs one line contributes: none or one. */
  function LinePairs(line: string): (r: seq<(string, string)>)
    ensures |r| <= 1
  {
    match ParseHeaderLine(line)
    case Some(p) => [p]
    case None => []
  }

  lemma HeaderPairsSnoc(lines: seq<string>, line: string)
    ensures HeaderPairs(lines + [line]) == HeaderPairs(lines) + LinePairs(line)
  {
    var s := lines + [line];
    assert s[..|s| - 1] == lines;
    var p := HeaderPairs(lines);
    assert p + [] == p;
  }

  /** Rejected lines contribute nothing, accepted ones contribute their pair. */
  lemma {:induction false} HeaderPairsAppend(a: seq<string>, b: seq<string>)
    ensures HeaderPairs(a + b) == HeaderPairs(a) + HeaderPairs(b)
    decreases |b|
  {
    if |b| == 0 {
      assert a + b == a;
      var pa := HeaderPairs(a);
      assert pa + [] == pa;
    } else {
      var n := |b| - 1;
      var b' := b[..n];
      assert b == b' + [b[n]];
      assert a + b == (a + b') + [b[n]];
      HeaderPairsAppend(a, b');
      HeaderPairsSnoc(a + b', b[n]);
      HeaderPairsSnoc(b', b[n]);
      var pa, pb, pl := HeaderPairs(a), HeaderPairs(b'), LinePairs(b[n]);
      assert pa + pb + pl == pa + (pb + pl);
    }
  }

  // ---------------------------------------------------------------------
  // FHttpClient::Call
  // ---------------------------------------------------------------------

  /** The `Content-Type` header is added from the record's field when that
      field is set and the headers do not already carry one. */
  predicate AddsContentType(r: HttpRequest) {
    r.ContentType != "" && !HasKey(r.Headers, "Content-Type")
  }

  /** The engine request built from `r`, or `InvalidUrl` for an empty URL. The
      null-module check cannot fail (the module is taken by reference) and has
      no counterpart. */
  function Prepare(r: HttpRequest): (w: Result<WireRequest, TransportError>)
    ensures w.Failure? <==> r.Url == ""
    ensures w.Failure? ==> w.error == InvalidUrl
    ensures w.Success? ==> w.value.Url == r.Url && w.value.Verb == AsciiUpper(MethodName(r.Method))
    ensures w.Success? ==> (w.value.Timeout.Some? <==> r.TimeoutSeconds > 0.0)
    ensures w.Success? && w.value.Timeout.Some? ==> w.value.Timeout.value == r.TimeoutSeconds
    ensures w.Success? ==> (w.value.Content.Some? <==> |r.Body| > 0)
    ensures w.Success? && w.value.Content.Some? ==> w.value.Content.value == r.Body
  {
    if r.Url == "" then Failure(InvalidUrl)
    else
      var h := AddAll([], r.Headers);
      var h' := if AddsContentType(r) then Add(h, "Content-Type", r.ContentType) else h;
      Success(WireRequest(
        r.Url,
        ToVerb(r.Method),
        if r.TimeoutSeconds > 0.0 then Some(r.TimeoutSeconds) else None,
        h',
        if |r.Body| > 0 then Some(r.Body) else None))
  }

  /** The engine request carries exactly the record's headers, plus the
      record's content type under `Content-Type` when it was added. */
  lemma PrepareHeaders(r: HttpRequest, q: string)
    requires r.Url != "" && Unique(r.Headers)
    ensures Find(Prepare(r).value.Headers, q) ==
              if AddsContentType(r) && KeyEq("Content-Type", q) then Some(r.ContentType)
              else Find(r.Headers, q)
  {
    var h := AddAll([], r.Headers);
    FindAddAll([], r.Headers, q);
    LastMatchUnique(r.Headers, q);
    FindAfterAdd(h, "Content-Type", r.ContentType, q);
  }

  /** A header already in the record is never overridden by the content type. */
  lemma PrepareKeepsContentTypeHeader(r: HttpRequest)
    requires r.Url != "" && Unique(r.Headers) && HasKey(r.Headers, "Content-Type")
    ensures Find(Prepare(r).value.Headers, "Content-Type") == Find(r.Headers, "Content-Type")
  {
    PrepareHeaders(r, "Content-Type");
  }

  /** The response derived from a completed engine request: `ConnectionFailed`
      unless it connected with a response; otherwise the request's URL, the
      status code and content type as reported, the parsed headers, the
      content bytes, and success exactly for a 2xx status. */
  function Complete(w: WireRequest, c: Completion): (r: Result<HttpResponse, TransportError>)
    ensures r.Failure? <==> !Delivered(c)
    ensures r.Failure? ==> r.error == ConnectionFailed
    ensures r.Success? ==> r.value.Url == w.Url && r.value.StatusCode == c.Response.value.Code
    ensures r.Success? ==> r.value.Body == c.Response.value.Content
    ensures r.Success? ==> r.value.ContentType == c.Response.value.ContentType
    ensures r.Success? ==> (r.value.bSucceeded <==> 200 <= r.value.StatusCode < 300)
    ensures r.Success? ==> Unique(r.value.Headers)
    ensures r.Success? ==> r.value.Headers == ParseHeaders(c.Response.value.HeaderLines)
    ensures r.Success? ==>
              forall q :: Find(r.value.Headers, q) == LastMatch(HeaderPairs(c.Response.value.HeaderLines), q)
  {
    if !Delivered(c) then Failure(ConnectionFailed)
    else
      var raw := c.Response.value;
      MapOfPairs(HeaderPairs(raw.HeaderLines));
      Success(HttpResponse(
        w.Url, raw.Code, ParseHeaders(raw.HeaderLines), raw.Content, raw.ContentType,
        200 <= raw.Code < 300))
  }

  /** `FHttpClient::Call`, with the engine's completion of the prepared
      request given as `engine`. */
  function Call(r: HttpRequest, engine: WireRequest -> Completion): (s: Result<HttpResponse, TransportError>)
    ensures r.Url == "" ==> s == Failure(InvalidUrl)
    ensures r.Url != "" ==> (s.Failure? <==> !Delivered(engine(Prepare(r).value)))
    ensures s.Failure? ==> s.error in {InvalidUrl, ConnectionFailed}
    ensures s.Success? ==> s.value.Url == r.Url
  {
    var w :- Prepare(r);
    Complete(w, engine(w))
  }
}
