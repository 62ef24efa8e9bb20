/** Worked examples of the request-expression filters, taken from their
    unit tests. */
module RequestExprExamples {
  import opened Wrappers
  import opened Strings
  import opened Json
  import opened Errors
  import opened HttpService
  import opened RequestExpr

  /** The backslash is doubled and the quote preceded by one backslash:
      `both"and\here` becomes `both\"and\\here`. */
  lemma EscapeExample()
    ensures EscapeCpp("both" + "\"" + "and" + "\\" + "here") == "both" + "\\\"" + "and" + "\\\\" + "here"
  {
    EscapeQuoteThenBackslash("both", "and", "here");
  }

  /** A parameter object `{"name": n, "in": loc}`. */
  function Param(n: string, loc: string): Value {
    Obj([("name", Str(n)), ("in", Str(loc))])
  }

  lemma ParamIn(n: string, loc: string, other: string)
    ensures ParamNameIn(Param(n, loc), loc) == Some(n)
    ensures other != loc ==> ParamNameIn(Param(n, loc), other) == None
  {
    var fs := Param(n, loc).fields;
    assert Keys(fs)[1] == "in" && Keys(fs)[0] == "name";
    assert IndexOf(fs, "in") == 1;
    assert IndexOf(fs, "name") == 0;
  }

  /** A GET of a path with nothing to escape and no parameters or body: the
      chain is `FHttpRequest()`, `.With_Url(TEXT("…"))` and
      `.With_Method(EHttpMethod::Get)`. The unit tests of the builder
      (`test_simple_get_request`) expect the text without the
      `FHttpRequest()` prefix, which the code writes. */
  lemma SimpleGetChain(p: string)
    requires '\\' !in p && '"' !in p
    ensures HttpRequestBuilder(Str(p), Some(Str("get")), None, None) ==
            Success("FHttpRequest().With_Url(" + ("TEXT(\"" + p + "\")" + ").With_Method(EHttpMethod::" + "Get" + ")"))
    ensures HttpRequestBuilder(Str(p), Some(Str("get")), None, None) !=
            Success(".With_Url(" + ("TEXT(\"" + p + "\")" + ").With_Method(EHttpMethod::" + "Get" + ")"))
  {
    ConvertRoundTrip(Get);
    var c := Chain(Literal(p), Get, None, false);
    assert BuildChain(Str(p), Some(Str("get")), None, None) == Success(c);
    var head := ChainHead(c);
    assert ChainTail(c) == "";
    assert head + "" == head;
  }

  /** `test_simple_get_request` on `/v1/characters`. */
  lemma SimpleGetExample()
    ensures HttpRequestBuilder(Str("/v1/characters"), Some(Str("get")), None, None) ==
            Success("FHttpRequest().With_Url(" + ("TEXT(\"" + "/v1/characters" + "\")" + ").With_Method(EHttpMethod::" + "Get" + ")"))
  {
    SimpleGetChain("/v1/characters");
  }

  /** `{"n", n}` written out. */
  function Entry(n: string): string {
    "{\"" + n + "\", " + n + "}"
  }

  /** One path parameter and one query parameter: the template appends
      `?q={q}` and the named arguments list the path parameter first. */
  lemma PathAndQueryParams(p: string, a: string, b: string)
    requires '\\' !in p && '"' !in p
    ensures HttpRequestParams(Str(p), Some(Str("get")), Some(Arr([Param(a, "path"), Param(b, "query")]))) ==
            Success("FString::Format(TEXT(\"" + (p + ("?" + (b + "={" + b + "}"))) + "\"), FStringFormatNamedArguments{"
                    + (Entry(a) + ", " + Entry(b)) + "})" + ", EHttpMethod::" + "Get")
  {
    ConvertRoundTrip(Get);
    var xs := [Param(a, "path"), Param(b, "query")];
    ParamIn(a, "path", "query");
    ParamIn(b, "query", "path");
    assert xs[1..][1..] == [];
    assert NamesIn(xs, "path") == [a];
    assert NamesIn(xs, "query") == [b];
    var t := p + ("?" + (b + "={" + b + "}"));
    assert QueryPairs([b]) == [b + "={" + b + "}"];
    assert QuerySuffix([b]) == "?" + (b + "={" + b + "}");
    assert EscapeCpp(p) == p;
    assert [a] + [b] == [a, b];
    var u := Formatted(t, [a, b]);
    assert UrlAndVerb(Str(p), Some(Str("get")), Some(Arr(xs))) == Success((u, Get));
    assert ArgEntries([a, b]) == [Entry(a), Entry(b)];
    assert Join([Entry(b)], ", ") == Entry(b);
    assert Join([Entry(a), Entry(b)], ", ") == Entry(a) + ", " + Entry(b);
    assert RenderUrl(u) == "FString::Format(TEXT(\"" + t + "\"), FStringFormatNamedArguments{" + (Entry(a) + ", " + Entry(b)) + "})";
  }

  /** The example of the parameter filter's documentation and tests:
      `/v1/player/characters/{id}` with path parameter `id` and query
      parameter `shard` gives
      `FString::Format(TEXT("/v1/player/characters/{id}?shard={shard}"), FStringFormatNamedArguments{{"id", id}, {"shard", shard}}), EHttpMethod::Get`. */
  lemma CharacterShardExample()
    ensures HttpRequestParams(Str("/v1/player/characters/{id}"), Some(Str("get")),
                              Some(Arr([Param("id", "path"), Param("shard", "query")]))) ==
            Success("FString::Format(TEXT(\"" + ("/v1/player/characters/{id}" + ("?" + ("shard" + "={" + "shard" + "}")))
                    + "\"), FStringFormatNamedArguments{" + (Entry("id") + ", " + Entry("shard")) + "})" + ", EHttpMethod::" + "Get")
  {
    PathAndQueryParams("/v1/player/characters/{id}", "id", "shard");
  }

  /** A POST whose body has an `application/json` media type: the chain adds
      `.With_ContentType(TEXT("application/json"))` and the body marker
      `.With_Body(ToBytes(RequestBody))`, where `test_post_request_with_json_body`
      expects `ToBinary` and no prefix. */
  lemma JsonBodyChain(p: string, media: Value)
    requires '\\' !in p && '"' !in p
    ensures var body := Obj([("content", Obj([("application/json", media)]))]);
            HttpRequestBuilder(Str(p), Some(Str("post")), None, Some(body)) ==
            Success("FHttpRequest().With_Url(" + ("TEXT(\"" + p + "\")" + ").With_Method(EHttpMethod::" + "Post" + ")")
                    + (".With_ContentType(TEXT(\"" + "application/json" + "\"))" + ".With_Body(ToBytes(RequestBody))"))
  {
    ConvertRoundTrip(Post);
    var content := Obj([("application/json", media)]);
    var body := Obj([("content", content)]);
    assert Keys(body.fields)[0] == "content";
    assert Json.Get(body, "content") == Some(content);
    assert Keys(content.fields)[0] == "application/json";
    assert ContentTypeOf(body) == Some("application/json");
    var c := Chain(Literal(p), Post, Some("application/json"), true);
    assert BuildChain(Str(p), Some(Str("post")), None, Some(body)) == Success(c);
    var j := "application/json";
    JsonMediaTypePlain();
    var ct := ".With_ContentType(TEXT(\"" + j + "\"))";
    var marker := ".With_Body(ToBytes(RequestBody))";
    assert ChainTail(c) == ct + marker;
  }

  lemma JsonMediaTypePlain()
    ensures EscapeCpp("application/json") == "application/json"
  {
    var j := "application/json";
    assert '\\' !in j by { assert forall i :: 0 <= i < |j| ==> j[i] != '\\'; }
    assert '"' !in j by { assert forall i :: 0 <= i < |j| ==> j[i] != '"'; }
  }
}
