/** The request and response records of the Unreal HTTP transport: the verb
    enumeration, the `FHttpRequest` builder record with its defaults and
    `With_*` setters, and the header map (`TMap<FString, FString>`), whose keys
    compare case-insensitively. */
module HttpService {
  import opened Wrappers
  import opened Strings

  // ---------------------------------------------------------------------
  // Verbs
  // ---------------------------------------------------------------------

  /** `EHttpMethod`: exactly six verbs. */
  datatype HttpMethod = Get | Post | Put | Delete | Patch | Head

  /** The C++ spelling of each enumerator, as generated code writes it after
      `EHttpMethod::`. */
  function MethodName(m: HttpMethod): (r: string)
    ensures |r| > 0
  {
    match m
    case Get => "Get"
    case Post => "Post"
    case Put => "Put"
    case Delete => "Delete"
    case Patch => "Patch"
    case Head => "Head"
  }

  const AllMethods: seq<HttpMethod> := [Get, Post, Put, Delete, Patch, Head]

  lemma AllMethodsListed(m: HttpMethod)
    ensures m in AllMethods
  {
  }

  /** Different enumerators have different spellings. */
  lemma MethodNameInjective(a: HttpMethod, b: HttpMethod)
    requires MethodName(a) == MethodName(b)
    ensures a == b
  {
  }

  // ---------------------------------------------------------------------
  // Header maps
  // ---------------------------------------------------------------------

  /** A header map as its pairs in iteration order. */
  type HeaderMap = seq<(string, string)>

  /** The form under which FString keys are compared: ASCII lowercase. */
  function Fold(k: string): string {
    AsciiLower(k)
  }

  /** FString equality ignores case by default, and so do `TMap` lookups. */
  predicate KeyEq(a: string, b: string) {
    Fold(a) == Fold(b)
  }

  /** Index of the first pair at or after `from` whose key matches `k`, or -1. */
  function KeyIndexFrom(h: HeaderMap, k: string, from: nat): (i: int)
    requires from <= |h|
    ensures i == -1 || (from <= i < |h| && KeyEq(h[i].0, k))
    ensures i >= 0 ==> forall j :: from <= j < i ==> !KeyEq(h[j].0, k)
    ensures i < 0 ==> forall j :: from <= j < |h| ==> !KeyEq(h[j].0, k)
    decreases |h| - from
  {
    if from == |h| then -1
    else if KeyEq(h[from].0, k) then from
    else KeyIndexFrom(h, k, from + 1)
  }

  /** Index of the first pair whose key matches `k`, or -1. */
  function KeyIndex(h: HeaderMap, k: string): (i: int)
    ensures i == -1 || (0 <= i < |h| && KeyEq(h[i].0, k))
    ensures i >= 0 ==> forall j :: 0 <= j < i ==> !KeyEq(h[j].0, k)
    ensures i < 0 ==> forall j :: 0 <= j < |h| ==> !KeyEq(h[j].0, k)
  {
    KeyIndexFrom(h, k, 0)
  }

  /** The first matching pair is the one `KeyIndex` finds. */
  lemma KeyIndexIs(h: HeaderMap, k: string, i: int)
    requires 0 <= i < |h| && KeyEq(h[i].0, k)
    requires forall j :: 0 <= j < i ==> !KeyEq(h[j].0, k)
    ensures KeyIndex(h, k) == i
  {
  }

  /** `TMap::Find`: the value stored under a key matching `k`. */
  function Find(h: HeaderMap, k: string): (r: Option<string>)
    ensures r.Some? <==> exists j :: 0 <= j < |h| && KeyEq(h[j].0, k)
    ensures r.Some? ==> exists j :: 0 <= j < |h| && KeyEq(h[j].0, k) && h[j].1 == r.value
  {
    var i := KeyIndex(h, k);
    if i < 0 then None else Some(h[i].1)
  }

  /** `TMap::Contains`. */
  predicate HasKey(h: HeaderMap, k: string) {
    Find(h, k).Some?
  }

  /** The `TMap` invariant: no two keys match each other. */
  predicate Unique(h: HeaderMap) {
    forall i, j :: 0 <= i < j < |h| ==> !KeyEq(h[i].0, h[j].0)
  }

  /** `TMap::Add(k, v)`: the pair under a matching key is replaced, new key
      spelling included, or the pair is appended. */
  function Add(h: HeaderMap, k: string, v: string): (r: HeaderMap)
    ensures HasKey(h, k) ==> |r| == |h|
    ensures !HasKey(h, k) ==> r == h + [(k, v)]
    ensures Unique(h) ==> Unique(r)
  {
    var i := KeyIndex(h, k);
    if i < 0 then h + [(k, v)] else h[i := (k, v)]
  }

  /** `TMap::FindOrAdd(k) = v`: the value under a matching key is replaced and
      the key keeps its spelling, or the pair is appended. */
  function Assign(h: HeaderMap, k: string, v: string): (r: HeaderMap)
    ensures HasKey(h, k) ==> |r| == |h|
    ensures !HasKey(h, k) ==> r == h + [(k, v)]
    ensures Unique(h) ==> Unique(r)
    ensures forall j :: 0 <= j < |h| ==> r[j].0 == h[j].0
  {
    var i := KeyIndex(h, k);
    if i < 0 then h + [(k, v)] else h[i := (h[i].0, v)]
  }

  /** After `Add` or `Assign`, `k` finds `v` and every other key finds what it
      found before. */
  lemma FindAfterAdd(h: HeaderMap, k: string, v: string, q: string)
    ensures Find(Add(h, k, v), q) == if KeyEq(k, q) then Some(v) else Find(h, q)
    ensures Find(Assign(h, k, v), q) == if KeyEq(k, q) then Some(v) else Find(h, q)
  {
    var i := KeyIndex(h, k);
    var a, s := Add(h, k, v), Assign(h, k, v);
    if i < 0 {
      FindAppend(h, k, v, q);
    } else {
      FindReplaced(h, i, (k, v), q);
      FindReplaced(h, i, (h[i].0, v), q);
    }
  }

  lemma FindAppend(h: HeaderMap, k: string, v: string, q: string)
    requires !HasKey(h, k)
    ensures Find(h + [(k, v)], q) == if KeyEq(k, q) then Some(v) else Find(h, q)
  {
    var r := h + [(k, v)];
    if KeyEq(k, q) {
      forall j | 0 <= j < |h| ensures !KeyEq(r[j].0, q) {
        assert !KeyEq(h[j].0, k);
      }
      KeyIndexIs(r, q, |h|);
    } else {
      assert !KeyEq(r[|h|].0, q);
      var b := KeyIndex(h, q);
      if b >= 0 {
        KeyIndexIs(r, q, b);
      }
    }
  }

  /** Replacing the first pair that matches by a pair with a matching key
      redirects exactly the lookups of that key. */
  lemma FindReplaced(h: HeaderMap, i: int, p: (string, string), q: string)
    requires 0 <= i < |h| && i == KeyIndex(h, p.0)
    ensures Find(h[i := p], q) == if KeyEq(p.0, q) then Some(p.1) else Find(h, q)
  {
    var r := h[i := p];
    forall j | 0 <= j < |h| && j != i ensures KeyEq(r[j].0, q) <==> KeyEq(h[j].0, q) {
    }
    if KeyEq(p.0, q) {
      forall j | 0 <= j < i ensures !KeyEq(r[j].0, q) {
        assert !KeyEq(h[j].0, p.0);
      }
      KeyIndexIs(r, q, i);
    } else {
      assert !KeyEq(h[i].0, q);
      var a, b := KeyIndex(r, q), KeyIndex(h, q);
      if b >= 0 {
        assert a == b;
      } else {
        assert a < 0;
      }
    }
  }

  /** `Find` on a map extended by one pair: an earlier match still wins. */
  lemma FindSnoc(h: HeaderMap, p: (string, string), q: string)
    ensures Find(h + [p], q) ==
              if Find(h, q).Some? then Find(h, q)
              else if KeyEq(p.0, q) then Some(p.1)
              else None
  {
    var r := h + [p];
    var b := KeyIndex(h, q);
    if b >= 0 {
      KeyIndexIs(r, q, b);
    } else if KeyEq(p.0, q) {
      KeyIndexIs(r, q, |h|);
    } else {
      assert forall j :: 0 <= j < |r| ==> r[j] == if j < |h| then h[j] else p;
    }
  }

  /** The pairs added one after another with `TMap::Add`, in order. */
  function AddAll(h: HeaderMap, pairs: seq<(string, string)>): (r: HeaderMap)
    ensures Unique(h) ==> Unique(r)
    decreases |pairs|
  {
    if |pairs| == 0 then h
    else
      var n := |pairs| - 1;
      Add(AddAll(h, pairs[..n]), pairs[n].0, pairs[n].1)
  }

  /** Reference for a run of `Add`s: the value of the last pair whose key
      matches `q`. */
  function LastMatch(pairs: seq<(string, string)>, q: string): (r: Option<string>)
    ensures r.Some? <==> exists j :: 0 <= j < |pairs| && KeyEq(pairs[j].0, q)
    ensures r.Some? ==> exists j :: 0 <= j < |pairs| && KeyEq(pairs[j].0, q) && pairs[j].1 == r.value
    decreases |pairs|
  {
    if |pairs| == 0 then None
    else
      var n := |pairs| - 1;
      if KeyEq(pairs[n].0, q) then Some(pairs[n].1) else LastMatch(pairs[..n], q)
  }

  /** After a run of `Add`s the last matching pair is found; keys no pair
      matches find what they found before. */
  lemma {:induction false} FindAddAll(h: HeaderMap, pairs: seq<(string, string)>, q: string)
    ensures Find(AddAll(h, pairs), q) == if LastMatch(pairs, q).Some? then LastMatch(pairs, q) else Find(h, q)
    decreases |pairs|
  {
    if |pairs| > 0 {
      var n := |pairs| - 1;
      FindAddAll(h, pairs[..n], q);
      FindAfterAdd(AddAll(h, pairs[..n]), pairs[n].0, pairs[n].1, q);
    }
  }

  /** A map built by adding pairs to an empty map holds, under each key, the
      value of the last pair that carries it. */
  lemma MapOfPairs(pairs: seq<(string, string)>)
    ensures forall q :: Find(AddAll([], pairs), q) == LastMatch(pairs, q)
  {
    forall q ensures Find(AddAll([], pairs), q) == LastMatch(pairs, q) {
      FindAddAll([], pairs, q);
    }
  }

  /** In a map without clashing keys the last match is the only one, so a run
      of `Add`s from an empty map rebuilds every lookup. */
  lemma {:induction false} LastMatchUnique(pairs: seq<(string, string)>, q: string)
    requires Unique(pairs)
    ensures LastMatch(pairs, q) == Find(pairs, q)
    decreases |pairs|
  {
    if |pairs| > 0 {
      var n := |pairs| - 1;
      var p := pairs[..n];
      assert pairs == p + [pairs[n]];
      LastMatchUnique(p, q);
      FindSnoc(p, pairs[n], q);
      if KeyEq(pairs[n].0, q) {
        forall j | 0 <= j < n ensures !KeyEq(p[j].0, q) {
          assert !KeyEq(pairs[j].0, pairs[n].0);
        }
      }
    }
  }

  // ---------------------------------------------------------------------
  // Requests and responses
  // ---------------------------------------------------------------------

  type Byte = b: int | 0 <= b < 256

  /** `FHttpRequest`. The `float` timeout is kept as a real number. */
  datatype HttpRequest = HttpRequest(
    Url: string,
    Method: HttpMethod,
    Headers: HeaderMap,
    ContentType: string,
    Body: seq<Byte>,
    TimeoutSeconds: real)

  /** A request as default-constructed: an empty URL, `Get`, no headers, a
      JSON content type, no body and no timeout. */
  const DefaultRequest: HttpRequest := HttpRequest("", Get, [], "application/json", [], 0.0)

  /** The fields of the record, for stating what a setter leaves alone. */
  datatype Field = UrlField | MethodField | HeadersField | ContentTypeField | BodyField | TimeoutField

  /** `a` and `b` agree on every field except possibly `f`. */
  predicate AgreeExcept(a: HttpRequest, b: HttpRequest, f: Field) {
    (f == UrlField || a.Url == b.Url)
    && (f == MethodField || a.Method == b.Method)
    && (f == HeadersField || a.Headers == b.Headers)
    && (f == ContentTypeField || a.ContentType == b.ContentType)
    && (f == BodyField || a.Body == b.Body)
    && (f == TimeoutField || a.TimeoutSeconds == b.TimeoutSeconds)
  }

  function WithUrl(r: HttpRequest, x: string): (s: HttpRequest)
    ensures s.Url == x && AgreeExcept(r, s, UrlField)
  {
    r.(Url := x)
  }

  function WithMethod(r: HttpRequest, x: HttpMethod): (s: HttpRequest)
    ensures s.Method == x && AgreeExcept(r, s, MethodField)
  {
    r.(Method := x)
  }

  function WithHeaders(r: HttpRequest, x: HeaderMap): (s: HttpRequest)
    ensures s.Headers == x && AgreeExcept(r, s, HeadersField)
  {
    r.(Headers := x)
  }

  function WithContentType(r: HttpRequest, x: string): (s: HttpRequest)
    ensures s.ContentType == x && AgreeExcept(r, s, ContentTypeField)
  {
    r.(ContentType := x)
  }

  function WithBody(r: HttpRequest, x: seq<Byte>): (s: HttpRequest)
    ensures s.Body == x && AgreeExcept(r, s, BodyField)
  {
    r.(Body := x)
  }

  function WithTimeoutSeconds(r: HttpRequest, x: real): (s: HttpRequest)
    ensures s.TimeoutSeconds == x && AgreeExcept(r, s, TimeoutField)
  {
    r.(TimeoutSeconds := x)
  }

  /** A record is determined by a field and everything else. */
  lemma AgreeExceptDetermines(a: HttpRequest, b: HttpRequest, f: Field)
    requires AgreeExcept(a, b, f)
    requires f == UrlField ==> a.Url == b.Url
    requires f == MethodField ==> a.Method == b.Method
    requires f == HeadersField ==> a.Headers == b.Headers
    requires f == ContentTypeField ==> a.ContentType == b.ContentType
    requires f == BodyField ==> a.Body == b.Body
    requires f == TimeoutField ==> a.TimeoutSeconds == b.TimeoutSeconds
    ensures a == b
  {
  }

  /** Setting a field twice keeps the second value, setting a field to what
      it holds changes nothing, and setters of different fields commute. */
  lemma SetterLaws(r: HttpRequest, u1: string, u2: string, m: HttpMethod, c: string)
    ensures WithUrl(WithUrl(r, u1), u2) == WithUrl(r, u2)
    ensures WithUrl(r, r.Url) == r
    ensures WithMethod(WithUrl(r, u1), m) == WithUrl(WithMethod(r, m), u1)
    ensures WithContentType(WithMethod(r, m), c) == WithMethod(WithContentType(r, c), m)
    ensures WithContentType(WithUrl(r, u1), c) == WithUrl(WithContentType(r, c), u1)
  {
  }

  /** `FHttpRequest::AddHeader`: `TMap::Add` on the headers, nothing else. */
  function AddHeader(r: HttpRequest, k: string, v: string): (s: HttpRequest)
    ensures AgreeExcept(r, s, HeadersField)
    ensures Find(s.Headers, k) == Some(v)
    ensures Unique(r.Headers) ==> Unique(s.Headers)
  {
    FindAfterAdd(r.Headers, k, v, k);
    r.(Headers := Add(r.Headers, k, v))
  }

  /** Headers other than the one added are unchanged. */
  lemma AddHeaderOthers(r: HttpRequest, k: string, v: string, q: string)
    requires !KeyEq(k, q)
    ensures Find(AddHeader(r, k, v).Headers, q) == Find(r.Headers, q)
  {
    FindAfterAdd(r.Headers, k, v, q);
  }

  /** The failures the transport reports (`UE_DECLARE_ERROR` codes 1 to 4). */
  datatype TransportError = InvalidUrl | RequestCreationFailed | ConnectionFailed | NoResponse

  /** `FHttpResponse`. */
  datatype HttpResponse = HttpResponse(
    Url: string,
    StatusCode: int,
    Headers: HeaderMap,
    Body: seq<Byte>,
    ContentType: string,
    bSucceeded: bool)
}
