/** The request-expression filters of the generator: `http_request_builder`,
    which writes an `FHttpRequest()` builder chain for one operation, and
    `http_request_params`, which writes the URL and verb arguments of the
    `FHttpRequest` constructor. Both files carry identical copies of the
    helpers (verb table, C++ escaping, parameter extraction, URL expression);
    they are modelled once here. */
module RequestExpr {
  import opened Wrappers
  import opened Strings
  import opened Json
  import opened Errors
  import opened HttpService
  import HttpClient
  import BodySchema

  // ---------------------------------------------------------------------
  // Verb table
  // ---------------------------------------------------------------------

  /** The lowercase spelling the verb table matches against. */
  function VerbKey(m: HttpMethod): string {
    match m
    case Get => "get"
    case Post => "post"
    case Put => "put"
    case Delete => "delete"
    case Patch => "patch"
    case Head => "head"
  }

  lemma VerbKeysAreLower()
    ensures forall m :: AsciiLower(MethodName(m)) == VerbKey(m)
  {
    forall m ensures AsciiLower(MethodName(m)) == VerbKey(m) {
      var n := MethodName(m);
      assert AsciiLower(n)[0] == AsciiLowerChar(n[0]);
    }
  }

  /** `convert_to_http_method`: the method name compared after lowercasing
      with the six verbs; the error keeps the name as written. */
  function ConvertToHttpMethod(name: string): (r: Result<HttpMethod, FilterError>)
    ensures r.Success? ==> EqualsIgnoreCase(name, MethodName(r.value))
    ensures r.Failure? ==> r.error == UnsupportedMethod(name)
    ensures r.Failure? ==> forall m :: !EqualsIgnoreCase(name, MethodName(m))
  {
    VerbKeysAreLower();
    var l := AsciiLower(name);
    if l == "get" then Success(Get)
    else if l == "post" then Success(Post)
    else if l == "put" then Success(Put)
    else if l == "delete" then Success(Delete)
    else if l == "patch" then Success(Patch)
    else if l == "head" then Success(Head)
    else Failure(UnsupportedMethod(name))
  }

  /** The token written after `EHttpMethod::` reads back as the same verb, and
      so do its lowercase spelling and the verb the transport sends on the
      wire. */
  lemma ConvertRoundTrip(m: HttpMethod)
    ensures ConvertToHttpMethod(MethodName(m)) == Success(m)
    ensures ConvertToHttpMethod(VerbKey(m)) == Success(m)
    ensures ConvertToHttpMethod(HttpClient.ToVerb(m)) == Success(m)
  {
    VerbKeysAreLower();
    LowerOfUpper(MethodName(m));
    assert AsciiLower(VerbKey(m)) == VerbKey(m) by {
      LowerOfLower(MethodName(m));
    }
  }

  lemma LowerOfLower(s: string)
    ensures AsciiLower(AsciiLower(s)) == AsciiLower(s)
  {
    var a, b := AsciiLower(AsciiLower(s)), AsciiLower(s);
    forall i | 0 <= i < |s| ensures a[i] == b[i] {
      assert a[i] == AsciiLowerChar(AsciiLowerChar(s[i]));
    }
  }

  /** Spellings that differ only in case convert alike. */
  lemma ConvertIgnoresCase(a: string, b: string)
    requires EqualsIgnoreCase(a, b)
    ensures ConvertToHttpMethod(a).Success? <==> ConvertToHttpMethod(b).Success?
    ensures ConvertToHttpMethod(a).Success? ==> ConvertToHttpMethod(a) == ConvertToHttpMethod(b)
  {
  }

  /** `options` is not supported, and the error names it. */
  lemma OptionsUnsupported()
    ensures ConvertToHttpMethod("options") == Failure(UnsupportedMethod("options"))
  {
    var l := AsciiLower("options");
    assert |l| == 7;
  }

  // ---------------------------------------------------------------------
  // C++ string escaping
  // ---------------------------------------------------------------------

  /** `escape_cpp_string`: every `\` doubled, then every `"` preceded by `\`. */
  function EscapeCpp(s: string): (r: string)
    ensures '\\' !in s && '"' !in s ==> r == s
  {
    ReplaceChar(ReplaceChar(s, '\\', "\\\\"), '"', "\\\"")
  }

  /** Reference: each character escaped on its own. */
  function EscapeChar(c: char): string {
    if c == '\\' then "\\\\" else if c == '"' then "\\\"" else [c]
  }

  function EscapeRef(s: string): string {
    if |s| == 0 then "" else EscapeChar(s[0]) + EscapeRef(s[1..])
  }

  /** The two replacement passes escape each character independently, so the
      backslash pass never doubles the backslash the quote pass inserts. */
  lemma {:induction false} EscapeMatchesReference(s: string)
    ensures EscapeCpp(s) == EscapeRef(s)
  {
    if |s| > 0 {
      var c, rest := s[0], s[1..];
      var first := if c == '\\' then "\\\\" else [c];
      var r1 := ReplaceChar(rest, '\\', "\\\\");
      assert ReplaceChar(s, '\\', "\\\\") == first + r1;
      ReplaceCharAppend(first, r1, '"', "\\\"");
      if c != '\\' {
        var e := if c == '"' then "\\\"" else [c];
        assert ReplaceChar(first, '"', "\\\"") == e + ReplaceChar("", '"', "\\\"");
        assert e + "" == e;
      }
      EscapeMatchesReference(rest);
    }
  }

  /** How a C++ compiler reads the body of a string literal back: `\x`
      stands for `x`. */
  function Unescape(t: string): string
    decreases |t|
  {
    if |t| == 0 then ""
    else if t[0] == '\\' && |t| >= 2 then [t[1]] + Unescape(t[2..])
    else [t[0]] + Unescape(t[1..])
  }

  lemma {:induction false} UnescapeReference(s: string)
    ensures Unescape(EscapeRef(s)) == s
  {
    if |s| > 0 {
      var c, rest := s[0], s[1..];
      var e, t := EscapeChar(c), EscapeRef(rest);
      var u := e + t;
      if c == '\\' || c == '"' {
        assert u[0] == '\\' && u[1] == c;
        assert u[2..] == t;
      } else {
        assert u[0] == c;
        assert u[1..] == t;
      }
      UnescapeReference(rest);
      assert s == [c] + rest;
    }
  }

  /** The escaped text, read back as a C++ literal, is the original. */
  lemma EscapeRoundTrip(s: string)
    ensures Unescape(EscapeCpp(s)) == s
  {
    EscapeMatchesReference(s);
    UnescapeReference(s);
  }

  /** Different strings give different literals. */
  lemma EscapeInjective(a: string, b: string)
    requires EscapeCpp(a) == EscapeCpp(b)
    ensures a == b
  {
    EscapeRoundTrip(a);
    EscapeRoundTrip(b);
  }

  lemma {:induction false} EscapeRefAppend(a: string, b: string)
    ensures EscapeRef(a + b) == EscapeRef(a) + EscapeRef(b)
  {
    if |a| == 0 {
      assert a + b == b;
    } else {
      assert (a + b)[1..] == a[1..] + b;
      EscapeRefAppend(a[1..], b);
    }
  }

  lemma {:induction false} EscapeRefPlain(s: string)
    requires '\\' !in s && '"' !in s
    ensures EscapeRef(s) == s
  {
    if |s| > 0 {
      assert s[0] in s;
      assert forall c :: c in s[1..] ==> c in s;
      EscapeRefPlain(s[1..]);
      assert s == [s[0]] + s[1..];
    }
  }

  /** A quote and a backslash between plain pieces. */
  lemma EscapeQuoteThenBackslash(a: string, b: string, c: string)
    requires '\\' !in a && '"' !in a && '\\' !in b && '"' !in b && '\\' !in c && '"' !in c
    ensures EscapeCpp(a + "\"" + b + "\\" + c) == a + "\\\"" + b + "\\\\" + c
  {
    var q, k := "\"", "\\";
    var eq, ek := "\\\"", "\\\\";
    assert EscapeRef(q) == eq && EscapeRef(k) == ek;
    EscapeRefPlain(a);
    EscapeRefPlain(b);
    EscapeRefPlain(c);
    var x1 := a + q;
    EscapeRefAppend(a, q);
    assert EscapeRef(x1) == a + eq;
    var x2 := x1 + b;
    EscapeRefAppend(x1, b);
    assert EscapeRef(x2) == a + eq + b;
    var x3 := x2 + k;
    EscapeRefAppend(x2, k);
    assert EscapeRef(x3) == a + eq + b + ek;
    var x4 := x3 + c;
    EscapeRefAppend(x3, c);
    assert EscapeRef(x4) == a + eq + b + ek + c;
    EscapeMatchesReference(x4);
  }

  // ---------------------------------------------------------------------
  // Parameters
  // ---------------------------------------------------------------------

  /** `args.get("parameters").and_then(as_array)`, an absent list read as empty. */
  function ParamList(parameters: Option<Value>): seq<Value> {
    match parameters
    case Some(Arr(xs)) => xs
    case _ => []
  }

  /** The name of one parameter object when its `in` is `loc`; an entry
      without a string `in` or `name` gives nothing. */
  function ParamNameIn(p: Value, loc: string): (r: Option<string>)
    ensures r.Some? <==> GetStr(p, "in") == Some(loc) && GetStr(p, "name").Some?
    ensures r.Some? ==> r == GetStr(p, "name")
  {
    match GetStr(p, "in")
    case Some(l) => if l == loc then GetStr(p, "name") else None
    case None => None
  }

  /** `extract_path_parameters` (`loc` = `path`) and
      `extract_query_parameters` (`loc` = `query`). */
  function NamesIn(xs: seq<Value>, loc: string): (r: seq<string>)
    ensures |r| <= |xs|
  {
    if |xs| == 0 then []
    else
      (match ParamNameIn(xs[0], loc) case Some(n) => [n] case None => [])
      + NamesIn(xs[1..], loc)
  }

  /** Extraction keeps input order: it distributes over concatenation. */
  lemma {:induction false} NamesInAppend(a: seq<Value>, b: seq<Value>, loc: string)
    ensures NamesIn(a + b, loc) == NamesIn(a, loc) + NamesIn(b, loc)
  {
    if |a| == 0 {
      assert a + b == b;
    } else {
      assert (a + b)[0] == a[0];
      assert (a + b)[1..] == a[1..] + b;
      NamesInAppend(a[1..], b, loc);
    }
  }

  /** A name is extracted exactly when some entry at that location carries it. */
  lemma {:induction false} NamesInMembers(xs: seq<Value>, loc: string, n: string)
    ensures n in NamesIn(xs, loc) <==> exists i :: 0 <= i < |xs| && ParamNameIn(xs[i], loc) == Some(n)
  {
    if |xs| > 0 {
      NamesInMembers(xs[1..], loc, n);
      if exists i :: 0 <= i < |xs| && ParamNameIn(xs[i], loc) == Some(n) {
        var i :| 0 <= i < |xs| && ParamNameIn(xs[i], loc) == Some(n);
        if i > 0 {
          assert xs[1..][i - 1] == xs[i];
        }
      }
      if n in NamesIn(xs[1..], loc) {
        var i :| 0 <= i < |xs| - 1 && ParamNameIn(xs[1..][i], loc) == Some(n);
        assert xs[i + 1] == xs[1..][i];
      }
    }
  }

  /** Every entry feeds at most one of the two lists. */
  lemma {:induction false} PathQueryPartition(xs: seq<Value>)
    ensures |NamesIn(xs, "path")| + |NamesIn(xs, "query")| <= |xs|
  {
    if |xs| > 0 {
      PathQueryPartition(xs[1..]);
    }
  }

  // ---------------------------------------------------------------------
  // URL expression
  // ---------------------------------------------------------------------

  /** The two shapes of the URL argument: a plain `TEXT("…")` literal, or
      `FString::Format` over a template with named arguments. */
  datatype UrlExpr = Literal(text: string) | Formatted(template: string, args: seq<string>)

  /** `n={n}` for each query parameter. */
  function QueryPairs(q: seq<string>): (r: seq<string>)
    ensures |r| == |q|
    ensures forall i :: 0 <= i < |q| ==> r[i] == q[i] + "={" + q[i] + "}"
  {
    seq(|q|, i requires 0 <= i < |q| => q[i] + "={" + q[i] + "}")
  }

  /** `?` and the query pairs joined by `&`, when there are any. */
  function QuerySuffix(q: seq<string>): string {
    if |q| == 0 then "" else "?" + Join(QueryPairs(q), "&")
  }

  /** `build_url_expression`, as structure. */
  function BuildUrl(path: string, p: seq<string>, q: seq<string>): (u: UrlExpr)
    ensures u.Literal? <==> |p| == 0 && |q| == 0
    ensures u.Literal? ==> Unescape(u.text) == path
    ensures u.Formatted? ==> u.args == p + q
    ensures u.Formatted? ==> u.template == EscapeCpp(path) + QuerySuffix(q)
  {
    EscapeRoundTrip(path);
    if |p| == 0 && |q| == 0 then Literal(EscapeCpp(path))
    else Formatted(EscapeCpp(path) + QuerySuffix(q), p + q)
  }

  /** The query string of a template splits on `&` back into one `n={n}` per
      query parameter, in order, when no name contains `&`. */
  lemma QueryRoundTrip(q: seq<string>)
    requires |q| > 0
    requires forall i :: 0 <= i < |q| ==> '&' !in q[i]
    ensures QuerySuffix(q)[0] == '?'
    ensures Split(QuerySuffix(q)[1..], '&') == QueryPairs(q)
  {
    var pairs := QueryPairs(q);
    forall k | 0 <= k < |pairs| ensures '&' !in pairs[k] {
      assert pairs[k] == q[k] + "={" + q[k] + "}";
    }
    assert QuerySuffix(q)[1..] == Join(pairs, "&");
    SplitJoin(pairs, '&');
  }

  /** `{"n", n}`: the argument name as a literal, then the variable. */
  function ArgEntry(n: string): string {
    "{\"" + n + "\", " + n + "}"
  }

  function ArgEntries(args: seq<string>): (r: seq<string>)
    ensures |r| == |args|
    ensures forall i :: 0 <= i < |args| ==> r[i] == ArgEntry(args[i])
  {
    seq(|args|, i requires 0 <= i < |args| => ArgEntry(args[i]))
  }

  /** The C++ text of a URL expression. */
  function RenderUrl(u: UrlExpr): string {
    match u
    case Literal(t) => "TEXT(\"" + t + "\")"
    case Formatted(t, args) =>
      "FString::Format(TEXT(\"" + t + "\"), FStringFormatNamedArguments{" + Join(ArgEntries(args), ", ") + "})"
  }

  /** The two shapes are told apart by their first character. */
  lemma RenderUrlShape(u: UrlExpr)
    ensures u.Literal? <==> RenderUrl(u)[0] == 'T'
    ensures u.Formatted? <==> RenderUrl(u)[0] == 'F'
  {
  }

  // ---------------------------------------------------------------------
  // Content type
  // ---------------------------------------------------------------------

  /** `extract_content_type`: `application/json` when the body's `content`
      object has that key, else its first key; nothing without a `content`
      object or with an empty one. */
  function ContentTypeOf(body: Value): (r: Option<string>)
    ensures r.Some? <==> Json.Get(body, "content").Some? && Json.Get(body, "content").value.Obj?
                         && |Json.Get(body, "content").value.fields| > 0
    ensures r.Some? && "application/json" in Keys(Json.Get(body, "content").value.fields) ==>
              r.value == "application/json"
    ensures r.Some? && "application/json" !in Keys(Json.Get(body, "content").value.fields) ==>
              r.value == Json.Get(body, "content").value.fields[0].0
  {
    match Json.Get(body, "content")
    case Some(Obj(fields)) =>
      if "application/json" in Keys(fields) then
        assert Keys(fields)[0] == fields[0].0;
        Some("application/json")
      else if |fields| > 0 then Some(fields[0].0)
      else None
    case _ => None
  }

  /** The declared content type is one of the body's media types and, unless
      `application/json` is listed without a `schema`, the one whose schema
      the request-body selector returns. */
  lemma ContentTypeMatchesSchema(body: Value)
    requires ContentTypeOf(body).Some?
    ensures Json.Get(Json.Get(body, "content").value, ContentTypeOf(body).value).Some?
    ensures var content := Json.Get(body, "content").value;
            body.Obj? && BodySchema.RequestBodySchema(body).Success? &&
            (BodySchema.JsonMediaSchema(content).Some? || "application/json" !in Keys(content.fields))
            ==> Json.Get(Json.Get(content, ContentTypeOf(body).value).value, "schema")
                == Some(BodySchema.RequestBodySchema(body).value)
  {
    var content := Json.Get(body, "content").value;
    if "application/json" !in Keys(content.fields) {
      assert Keys(content.fields)[0] == content.fields[0].0;
      assert IndexOf(content.fields, content.fields[0].0) == 0;
    }
  }

  /** With `application/json` listed without a `schema`, the declared
      content type stays `application/json` while the selector falls back to
      the first media type's schema. */
  lemma ContentTypeWithoutJsonSchema(schema: Value)
    ensures var body := Obj([("content", Obj([("text/plain", Obj([("schema", schema)])),
                                               ("application/json", Obj([]))]))]);
            ContentTypeOf(body) == Some("application/json") &&
            BodySchema.RequestBodySchema(body) == Success(schema)
  {
    var json := "application/json";
    var content := Obj([("text/plain", Obj([("schema", schema)])), (json, Obj([]))]);
    var body := Obj([("content", content)]);
    assert Keys(content.fields)[1] == json;
    assert Json.Get(body, "content") == Some(content);
    assert Json.Get(content, json) == Some(Obj([]));
    assert BodySchema.JsonMediaSchema(content) == None;
  }

  // ---------------------------------------------------------------------
  // http_request_builder
  // ---------------------------------------------------------------------

  /** The builder chain as structure: URL, verb, optional content type and
      whether the body marker is written. */
  datatype Chain = Chain(url: UrlExpr, verb: HttpMethod, contentType: Option<string>, body: bool)

  /** The common front of both filters: the path must be a string, then the
      `method` argument must be a string, then the verb must be supported. */
  function UrlAndVerb(path: Value, verb: Option<Value>, parameters: Option<Value>): (r: Result<(UrlExpr, HttpMethod), FilterError>)
    ensures !path.Str? ==> r == Failure(PathNotString)
    ensures path.Str? && !(verb.Some? && verb.value.Str?) ==> r == Failure(MissingMethod)
    ensures path.Str? && verb.Some? && verb.value.Str? ==>
              (r.Failure? <==> ConvertToHttpMethod(verb.value.s).Failure?)
    ensures r.Failure? && path.Str? && verb.Some? && verb.value.Str? ==>
              r.error == UnsupportedMethod(verb.value.s)
    ensures r.Success? ==> EqualsIgnoreCase(verb.value.s, MethodName(r.value.1))
    ensures r.Success? ==>
              var xs := ParamList(parameters);
              r.value.0 == BuildUrl(path.s, NamesIn(xs, "path"), NamesIn(xs, "query"))
  {
    if !path.Str? then Failure(PathNotString)
    else
      match verb
      case Some(Str(m)) =>
        var v :- ConvertToHttpMethod(m);
        var xs := ParamList(parameters);
        Success((BuildUrl(path.s, NamesIn(xs, "path"), NamesIn(xs, "query")), v))
      case _ => Failure(MissingMethod)
  }

  /** `http_request_builder_filter` as structure: the body section exists
      exactly for an object `request_body`, and the content type is taken
      from it only then. */
  function BuildChain(path: Value, verb: Option<Value>, parameters: Option<Value>, requestBody: Option<Value>): (r: Result<Chain, FilterError>)
    ensures r.Failure? <==> UrlAndVerb(path, verb, parameters).Failure?
    ensures r.Failure? ==> r.error == UrlAndVerb(path, verb, parameters).error
    ensures r.Success? ==> (r.value.url, r.value.verb) == UrlAndVerb(path, verb, parameters).value
    ensures r.Success? ==> (r.value.body <==> requestBody.Some? && requestBody.value.Obj?)
    ensures r.Success? && r.value.contentType.Some? ==> r.value.body
    ensures r.Success? && r.value.body ==> r.value.contentType == ContentTypeOf(requestBody.value)
  {
    var (url, v) :- UrlAndVerb(path, verb, parameters);
    var isObj := requestBody.Some? && requestBody.value.Obj?;
    Success(Chain(url, v, if isObj then ContentTypeOf(requestBody.value) else None, isObj))
  }

  /** The fixed front of every chain: the constructor, `.With_Url` and
      `.With_Method`. */
  function ChainHead(c: Chain): string {
    "FHttpRequest().With_Url(" + (RenderUrl(c.url) + ").With_Method(EHttpMethod::" + MethodName(c.verb) + ")")
  }

  /** The optional `.With_ContentType` and `.With_Body` calls. */
  function ChainTail(c: Chain): string {
    (match c.contentType case Some(t) => ".With_ContentType(TEXT(\"" + EscapeCpp(t) + "\"))" case None => "")
    + (if c.body then ".With_Body(ToBytes(RequestBody))" else "")
  }

  /** The C++ text of a chain. */
  function RenderChain(c: Chain): (s: string)
    ensures StartsWith(s, ChainHead(c))
  {
    StartsWithConcat(ChainHead(c), ChainTail(c));
    ChainHead(c) + ChainTail(c)
  }

  /** `http_request_builder_filter`. */
  function HttpRequestBuilder(path: Value, verb: Option<Value>, parameters: Option<Value>, requestBody: Option<Value>): (r: Result<string, FilterError>)
    ensures r.Failure? <==> BuildChain(path, verb, parameters, requestBody).Failure?
    ensures r.Failure? ==> r.error == BuildChain(path, verb, parameters, requestBody).error
    ensures r.Success? ==> r.value == RenderChain(BuildChain(path, verb, parameters, requestBody).value)
    ensures r.Success? ==> StartsWith(r.value, "FHttpRequest().With_Url(")
  {
    var c :- BuildChain(path, verb, parameters, requestBody);
    var lit := "FHttpRequest().With_Url(";
    StartsWithConcat(lit, RenderUrl(c.url) + ").With_Method(EHttpMethod::" + MethodName(c.verb) + ")");
    StartsWithTrans(RenderChain(c), ChainHead(c), lit);
    Success(RenderChain(c))
  }

  /** An object body without `content` still gets the body marker, and no
      content type. */
  lemma BodyMarkerWithoutContent(path: Value, verb: Option<Value>, parameters: Option<Value>)
    requires UrlAndVerb(path, verb, parameters).Success?
    ensures var c := BuildChain(path, verb, parameters, Some(Obj([]))).value;
            c.body && c.contentType.None?
            && HttpRequestBuilder(path, verb, parameters, Some(Obj([]))).value == ChainHead(c) + ".With_Body(ToBytes(RequestBody))"
  {
    var c := BuildChain(path, verb, parameters, Some(Obj([]))).value;
    assert c.contentType.None? && c.body;
    var marker := ".With_Body(ToBytes(RequestBody))";
    assert ChainTail(c) == "" + marker;
    assert "" + marker == marker;
  }

  /** A body that is not an object (`null`, say) gets neither call. */
  lemma NonObjectBodyIgnored(path: Value, verb: Option<Value>, parameters: Option<Value>, body: Value)
    requires UrlAndVerb(path, verb, parameters).Success? && !body.Obj?
    ensures var c := BuildChain(path, verb, parameters, Some(body)).value;
            !c.body && c.contentType.None?
            && HttpRequestBuilder(path, verb, parameters, Some(body)) == HttpRequestBuilder(path, verb, parameters, None)
  {
  }

  /** The request the generated chain builds when it runs, given the values
      the URL expression and `ToBytes(RequestBody)` produce at run time: the
      setters of `FHttpRequest` applied in chain order. */
  function EvalChain(c: Chain, url: string, bytes: seq<Byte>): HttpRequest {
    var r := WithMethod(WithUrl(DefaultRequest, url), c.verb);
    var r := match c.contentType case Some(t) => WithContentType(r, t) case None => r;
    if c.body then WithBody(r, bytes) else r
  }

  /** The built request has the converted verb, the extracted content type
      or the record's JSON default, the body only when the marker is written,
      and no headers or timeout. */
  lemma EvalChainFields(c: Chain, url: string, bytes: seq<Byte>)
    ensures EvalChain(c, url, bytes).Url == url
    ensures EvalChain(c, url, bytes).Method == c.verb
    ensures EvalChain(c, url, bytes).ContentType == c.contentType.GetOr("application/json")
    ensures EvalChain(c, url, bytes).Body == if c.body then bytes else []
    ensures EvalChain(c, url, bytes).Headers == [] && EvalChain(c, url, bytes).TimeoutSeconds == 0.0
  {
  }

  /** The escaped content type in the chain's text reads back as the one
      the request is given. */
  lemma ContentTypeLiteral(t: string)
    ensures Unescape(EscapeCpp(t)) == t
  {
    EscapeRoundTrip(t);
  }

  // ---------------------------------------------------------------------
  // http_request_params
  // ---------------------------------------------------------------------

  /** `http_request_params_filter`: the URL expression, `, EHttpMethod::`
      and the verb token. There is no request-body argument. */
  function HttpRequestParams(path: Value, verb: Option<Value>, parameters: Option<Value>): (r: Result<string, FilterError>)
    ensures r.Failure? <==> UrlAndVerb(path, verb, parameters).Failure?
    ensures r.Failure? ==> r.error == UrlAndVerb(path, verb, parameters).error
  {
    var (url, v) :- UrlAndVerb(path, verb, parameters);
    Success(RenderUrl(url) + ", EHttpMethod::" + MethodName(v))
  }

  /** Both filters accept the same inputs, fail with the same error, and
      write the same URL expression and verb token; the builder's body
      argument never changes the outcome of the URL or the verb. */
  lemma BuilderAgreesWithParams(path: Value, verb: Option<Value>, parameters: Option<Value>, requestBody: Option<Value>)
    ensures HttpRequestBuilder(path, verb, parameters, requestBody).Failure? <==>
            HttpRequestParams(path, verb, parameters).Failure?
    ensures HttpRequestParams(path, verb, parameters).Failure? ==>
            HttpRequestBuilder(path, verb, parameters, requestBody).error == HttpRequestParams(path, verb, parameters).error
    ensures HttpRequestParams(path, verb, parameters).Success? ==>
              var c := BuildChain(path, verb, parameters, requestBody).value;
              HttpRequestParams(path, verb, parameters).value == RenderUrl(c.url) + ", EHttpMethod::" + MethodName(c.verb)
              && StartsWith(HttpRequestBuilder(path, verb, parameters, requestBody).value, ChainHead(c))
  {
  }
}
