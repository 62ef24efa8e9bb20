/** The origin layers: a relative request URL is prefixed with an origin
    before the request goes to the inner service. `FHttpOriginLayer` of the
    kit keeps a static origin; the transport's `FHttpOriginLayer` can also
    resolve the origin through a provider and cache it. Both share the
    absolute-URL test and the routing rule, and each has its own
    `CombineUrl`. */
module OriginLayer {
  import opened Wrappers
  import opened Strings
  import opened HttpService

  /** `n` slashes. */
  function Slashes(n: nat): (r: string)
    ensures |r| == n && forall i :: 0 <= i < n ==> r[i] == '/'
  {
    seq(n, _ => '/')
  }

  /** A URL is absolute when it starts with `http://` or `https://`, in any
      letter case. */
  predicate IsAbsoluteUrl(url: string) {
    StartsWithIgnoreCase(url, "http://") || StartsWithIgnoreCase(url, "https://")
  }

  lemma PrefixIgnoreCase(s: string, t: string, p: string)
    requires StartsWith(s, t) && StartsWithIgnoreCase(t, p)
    ensures StartsWithIgnoreCase(s, p)
  {
    assert s[..|p|] == t[..|p|];
  }

  /** The test does not depend on letter case and accepts the exact
      lower-case schemes. */
  lemma AbsoluteUrlLaws(url: string)
    ensures IsAbsoluteUrl(AsciiUpper(url)) == IsAbsoluteUrl(url)
    ensures StartsWith(url, "http://") || StartsWith(url, "https://") ==> IsAbsoluteUrl(url)
    ensures IsAbsoluteUrl(url) ==> |url| >= 7 && AsciiLower(url[..4]) == "http"
  {
    var u := AsciiUpper(url);
    forall n | 0 <= n <= |url| ensures AsciiLower(u[..n]) == AsciiLower(url[..n]) {
      assert u[..n] == AsciiUpper(url[..n]);
      LowerOfUpper(url[..n]);
    }
    if IsAbsoluteUrl(url) {
      var k := if StartsWithIgnoreCase(url, "http://") then 7 else 8;
      assert AsciiLower(url[..k])[..4] == AsciiLower(url[..4]);
      assert AsciiLower(url[..4]) == AsciiLower(if k == 7 then "http://" else "https://")[..4];
      assert AsciiLower(url[..4]) == "http";
    }
  }

  /** `while (S.EndsWith("/")) S.RemoveFromEnd("/")`. */
  function StripTrailingSlashes(s: string): (r: string)
    ensures |r| <= |s| && (r == "" || r[|r| - 1] != '/')
    ensures s == r + Slashes(|s| - |r|)
  {
    if EndsWith(s, "/") then
      var t := s[..|s| - 1];
      var r := StripTrailingSlashes(t);
      assert s == t + "/";
      assert Slashes(|s| - |r|) == Slashes(|t| - |r|) + "/";
      r
    else
      assert s + "" == s;
      s
  }

  /** `while (S.StartsWith("/")) S.RemoveFromStart("/")`. */
  function StripLeadingSlashes(s: string): (r: string)
    ensures |r| <= |s| && (r == "" || r[0] != '/')
    ensures s == Slashes(|s| - |r|) + r
  {
    if StartsWith(s, "/") then
      var t := s[1..];
      var r := StripLeadingSlashes(t);
      assert s == "/" + t;
      assert Slashes(|s| - |r|) == "/" + Slashes(|t| - |r|);
      r
    else
      assert "" + s == s;
      s
  }

  /** The kit's `CombineUrl`: the origin without its trailing slashes, then
      one `/` and the path without its leading slashes, or the bare origin
      when nothing is left of the path. */
  function CombineUrl(origin: string, path: string): (r: string)
    ensures StartsWith(r, StripTrailingSlashes(origin))
    ensures |r| <= |origin| + |path| + 1
    ensures r == StripTrailingSlashes(origin) <==> forall i :: 0 <= i < |path| ==> path[i] == '/'
  {
    var o := StripTrailingSlashes(origin);
    var p := StripLeadingSlashes(path);
    if p == "" then
      assert path == Slashes(|path|) + "";
      assert StartsWith(o + "", o);
      o
    else
      StartsWithConcat(o, "/" + p);
      assert o + "/" + p == o + ("/" + p);
      assert path[|path| - |p|] == p[0];
      o + "/" + p
  }

  /** Every origin and path decompose as `o + "/"*m` and `"/"*n + p` with `o`
      not ending and `p` not starting in a slash; the combination is then
      `o + "/" + p`, or `o` when `p` is empty, whatever `m` and `n` are. */
  lemma {:induction false} CombineCanonical(o: string, m: nat, n: nat, p: string)
    requires o == "" || o[|o| - 1] != '/'
    requires p == "" || p[0] != '/'
    ensures CombineUrl(o + Slashes(m), Slashes(n) + p) == if p == "" then o else o + "/" + p
  {
    StripTrailingIs(o, m);
    StripLeadingIs(n, p);
  }

  lemma {:induction false} StripTrailingIs(o: string, m: nat)
    requires o == "" || o[|o| - 1] != '/'
    ensures StripTrailingSlashes(o + Slashes(m)) == o
  {
    var s := o + Slashes(m);
    if m > 0 {
      assert s[..|s| - 1] == o + Slashes(m - 1);
      StripTrailingIs(o, m - 1);
    } else {
      assert s == o;
      assert !EndsWith(o, "/") by { if |o| > 0 { assert o[|o| - 1..] == [o[|o| - 1]]; } }
    }
  }

  lemma {:induction false} StripLeadingIs(n: nat, p: string)
    requires p == "" || p[0] != '/'
    ensures StripLeadingSlashes(Slashes(n) + p) == p
  {
    var s := Slashes(n) + p;
    if n > 0 {
      assert s[1..] == Slashes(n - 1) + p;
      StripLeadingIs(n - 1, p);
    } else {
      assert s == p;
      assert !StartsWith(p, "/") by { if |p| > 0 { assert p[..1] == [p[0]]; } }
    }
  }

  /** The four combinations documented on both layers. */
  lemma DocumentedCombinations()
    ensures CombineUrl("https://example.com", "/a/b") == "https://example.com" + "/" + "a/b"
    ensures CombineUrl("https://example.com/", "a/b") == "https://example.com" + "/" + "a/b"
    ensures CombineUrl("https://example.com/", "/a/b") == "https://example.com" + "/" + "a/b"
    ensures CombineUrl("https://example.com", "a/b") == "https://example.com" + "/" + "a/b"
  {
    var o, p := "https://example.com", "a/b";
    assert o[|o| - 1] == 'm';
    assert p[0] == 'a';
    assert o + Slashes(0) == o && o + Slashes(1) == "https://example.com/";
    assert Slashes(0) + p == p && Slashes(1) + p == "/a/b";
    CombineCanonical(o, 0, 1, p);
    CombineCanonical(o, 1, 0, p);
    CombineCanonical(o, 1, 1, p);
    CombineCanonical(o, 0, 0, p);
  }

  /** The transport's `CombineUrl`: the same result, found by scanning
      indices instead of removing one slash at a time. */
  method CombineUrlByIndex(origin: string, path: string) returns (r: string)
    ensures r == CombineUrl(origin, path)
  {
    var originEnd := OriginEnd(origin);
    var pathStart := PathStart(path);
    if |path| - pathStart == 0 {
      r := origin[..originEnd];
    } else {
      r := origin[..originEnd] + "/" + path[pathStart..];
    }
  }

  /** Where the trailing slashes of `origin` begin. */
  method OriginEnd(origin: string) returns (originEnd: nat)
    ensures originEnd <= |origin| && origin[..originEnd] == StripTrailingSlashes(origin)
  {
    originEnd := |origin|;
    assert origin[..originEnd] == origin;
    while originEnd > 0 && origin[originEnd - 1] == '/'
      invariant 0 <= originEnd <= |origin|
      invariant StripTrailingSlashes(origin[..originEnd]) == StripTrailingSlashes(origin)
    {
      var t := origin[..originEnd];
      assert EndsWith(t, "/") by { assert t[|t| - 1..] == "/"; }
      assert t[..|t| - 1] == origin[..originEnd - 1];
      originEnd := originEnd - 1;
    }
    var o := origin[..originEnd];
    assert !EndsWith(o, "/") by { if |o| > 0 { assert o[|o| - 1..] == [o[|o| - 1]]; } }
  }

  /** Where the leading slashes of `path` end. */
  method PathStart(path: string) returns (pathStart: nat)
    ensures pathStart <= |path| && path[pathStart..] == StripLeadingSlashes(path)
  {
    pathStart := 0;
    assert path[pathStart..] == path;
    while pathStart < |path| && path[pathStart] == '/'
      invariant 0 <= pathStart <= |path|
      invariant StripLeadingSlashes(path[pathStart..]) == StripLeadingSlashes(path)
    {
      var t := path[pathStart..];
      assert StartsWith(t, "/") by { assert t[..1] == "/"; }
      assert t[1..] == path[pathStart + 1..];
      pathStart := pathStart + 1;
    }
    var p := path[pathStart..];
    assert !StartsWith(p, "/") by { if |p| > 0 { assert p[..1] == [p[0]]; } }
  }

  /** What a layer does with a request: pass a request on to the inner
      service, or answer with an error without calling it. */
  datatype Routed = Forward(request: HttpRequest) | Reject(error: TransportError)

  /** The routing decision of both layers' `Call`, given the origin in
      force. */
  function Route(req: HttpRequest, origin: string): (r: Routed)
    ensures IsAbsoluteUrl(req.Url) ==> r == Forward(req)
    ensures !IsAbsoluteUrl(req.Url) && origin == "" ==> r == Reject(InvalidUrl)
    ensures r.Reject? ==> r.error == InvalidUrl
    ensures r.Forward? ==> AgreeExcept(req, r.request, UrlField)
    ensures !IsAbsoluteUrl(req.Url) && origin != "" ==> r.Forward? && r.request.Url == CombineUrl(origin, req.Url)
  {
    if IsAbsoluteUrl(req.Url) then Forward(req)
    else if origin == "" then Reject(InvalidUrl)
    else Forward(WithUrl(req, CombineUrl(origin, req.Url)))
  }

  /** An absolute origin makes every forwarded URL absolute. */
  lemma ForwardedUrlIsAbsolute(req: HttpRequest, origin: string)
    requires IsAbsoluteUrl(StripTrailingSlashes(origin))
    ensures Route(req, origin).Forward?
    ensures IsAbsoluteUrl(Route(req, origin).request.Url)
  {
    var o := StripTrailingSlashes(origin);
    assert origin != "" by { assert |o| >= 7 by { AbsoluteUrlLaws(o); } }
    if !IsAbsoluteUrl(req.Url) {
      var u := CombineUrl(origin, req.Url);
      if StartsWithIgnoreCase(o, "http://") {
        PrefixIgnoreCase(u, o, "http://");
      } else {
        PrefixIgnoreCase(u, o, "https://");
      }
    }
  }

  /** The emptiness test is on the origin as configured: an origin of only
      slashes passes it and a relative URL is forwarded. */
  lemma SlashOnlyOrigin(req: HttpRequest)
    requires req.Url == "v1"
    ensures Route(req, "/").Forward?
    ensures Route(req, "/").request.Url == "/v1"
  {
    assert !StartsWithIgnoreCase("v1", "http://");
    assert !StartsWithIgnoreCase("v1", "https://");
    assert "" + Slashes(1) == "/" && Slashes(0) + "v1" == "v1";
    CombineCanonical("", 1, 0, "v1");
  }

  /** Where the transport layer takes its origin from. */
  datatype OriginSource = Static(origin: string) | Provider

  /** The origin in force for one request, the cache afterwards, and whether
      the provider was asked. */
  datatype Resolution = Resolution(origin: string, cache: Option<string>, asked: bool)

  /** The origin-cache rule of the transport layer: a static origin is used
      as is; with a provider, a non-empty cached value is used, otherwise the
      provider is asked (`provided` is its answer) and a non-empty answer is
      cached. */
  function Resolve(src: OriginSource, cache: Option<string>, provided: string): (r: Resolution)
    ensures src.Static? ==> r == Resolution(src.origin, cache, false)
    ensures r.asked <==> src.Provider? && cache.GetOr("") == ""
    ensures r.asked ==> r.origin == provided
    ensures src.Provider? && !r.asked ==> r.origin == cache.value && r.cache == cache
    ensures r.asked && provided != "" ==> r.cache == Some(provided)
    ensures r.asked && provided == "" ==> r.cache == cache
  {
    match src
    case Static(o) => Resolution(o, cache, false)
    case Provider =>
      var cached := cache.GetOr("");
      if cached != "" then Resolution(cached, cache, false)
      else if provided != "" then Resolution(provided, Some(provided), true)
      else Resolution(provided, cache, true)
  }

  /** The cache never holds an empty origin. */
  predicate CacheOk(cache: Option<string>) {
    cache.None? || cache.value != ""
  }

  lemma ResolveKeepsCacheOk(src: OriginSource, cache: Option<string>, provided: string)
    requires CacheOk(cache)
    ensures CacheOk(Resolve(src, cache, provided).cache)
    ensures Resolve(src, cache, provided).asked <==> src.Provider? && cache.None?
  {
  }

  /** The transport layer's `Call`: an absolute URL is forwarded before any
      origin is resolved, so the provider is not asked and the cache stays. */
  function TransportRoute(req: HttpRequest, src: OriginSource, cache: Option<string>, provided: string): (r: (Routed, Option<string>))
    ensures IsAbsoluteUrl(req.Url) ==> r == (Forward(req), cache)
    ensures !IsAbsoluteUrl(req.Url) ==>
              r == (Route(req, Resolve(src, cache, provided).origin), Resolve(src, cache, provided).cache)
  {
    if IsAbsoluteUrl(req.Url) then (Forward(req), cache)
    else
      var res := Resolve(src, cache, provided);
      (Route(req, res.origin), res.cache)
  }

  /** The origins of successive relative requests with a provider, starting
      from an empty cache, when the provider would answer `answers[i]` on the
      `i`-th request. */
  function Origins(cache: Option<string>, answers: seq<string>): (r: seq<string>)
    ensures |r| == |answers|
    decreases |answers|
  {
    if |answers| == 0 then []
    else
      var res := Resolve(Provider, cache, answers[0]);
      [res.origin] + Origins(res.cache, answers[1..])
  }

  /** The first non-empty answer, if any. */
  function FirstNonEmpty(answers: seq<string>): (r: Option<string>)
    ensures r.Some? <==> exists i :: 0 <= i < |answers| && answers[i] != ""
    ensures r.Some? ==> r.value != "" && r.value in answers
  {
    if |answers| == 0 then None
    else if answers[0] != "" then Some(answers[0])
    else
      var r := FirstNonEmpty(answers[1..]);
      assert forall i :: 1 <= i < |answers| ==> answers[i] == answers[1..][i - 1];
      r
  }

  /** Each request sees the first non-empty answer given so far, and until
      there is one it sees the provider's current answer. */
  lemma {:induction false} OriginsFromFirstAnswer(cache: Option<string>, answers: seq<string>, i: nat)
    requires CacheOk(cache)
    requires i < |answers|
    ensures Origins(cache, answers)[i] ==
            match (if cache.Some? then cache else FirstNonEmpty(answers[..i]))
            case Some(v) => v
            case None => answers[i]
    decreases i
  {
    var res := Resolve(Provider, cache, answers[0]);
    var rest := answers[1..];
    if i > 0 {
      OriginsFromFirstAnswer(res.cache, rest, i - 1);
      assert answers[..i] == [answers[0]] + rest[..i - 1];
      assert rest[i - 1] == answers[i];
    }
  }
}
