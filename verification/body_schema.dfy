/** Selection of one schema out of an OpenAPI 3.1.0 Request Body Object
    (section 4.8.13) or Responses Object (section 4.8.16): the
    `request_body_schema` and `response_body_schema` filters. */
module BodySchema {
  import opened Wrappers
  import opened Json
  import opened Errors
  import SchemaType

  /** The `schema` of the `application/json` media type, if it has one. */
  function JsonMediaSchema(content: Value): Option<Value> {
    match Get(content, "application/json")
    case Some(media) => Get(media, "schema")
    case None => None
  }

  /** The `schema` of the first media type, if there is one and it has one. */
  function FirstMediaSchema(content: Value): Option<Value> {
    match FirstEntry(content)
    case Some(entry) => Get(entry.1, "schema")
    case None => None
  }

  /** `schema` belongs to one of the media types listed in `content`. */
  predicate SchemaOfSomeMedia(content: Value, schema: Value) {
    content.Obj? && exists i :: 0 <= i < |content.fields| && Get(content.fields[i].1, "schema") == Some(schema)
  }

  /** The schema chosen inside a `content` map, shared by both selectors:
      `application/json` when it has a schema, wherever it sits in the map,
      otherwise the first media type's schema. */
  function MediaSchema(content: Value): (r: Result<Value, FilterError>)
    ensures JsonMediaSchema(content).Some? ==> r == Success(JsonMediaSchema(content).value)
    ensures JsonMediaSchema(content).None? ==>
              (r.Success? <==> FirstMediaSchema(content).Some?)
    ensures r.Success? ==> SchemaOfSomeMedia(content, r.value)
    ensures r.Failure? ==> r.error == NoUsableSchema
  {
    match JsonMediaSchema(content)
    case Some(s) =>
      var i := IndexOf(content.fields, "application/json");
      assert Get(content.fields[i].1, "schema") == Some(s);
      Success(s)
    case None =>
      match FirstMediaSchema(content)
      case Some(s) =>
        assert Get(content.fields[0].1, "schema") == Some(s);
        Success(s)
      case None => Failure(NoUsableSchema)
  }

  /** `request_body_schema`: the schema of a Request Body Object. */
  function RequestBodySchema(body: Value): (r: Result<Value, FilterError>)
    ensures !body.Obj? ==> r == Failure(NotAnObject)
    ensures body.Obj? && Get(body, "content").None? ==> r == Failure(MissingContent)
    ensures body.Obj? && Get(body, "content").Some? ==> r == MediaSchema(Get(body, "content").value)
    ensures r.Success? ==> SchemaOfSomeMedia(Get(body, "content").value, r.value)
  {
    if !body.Obj? then Failure(NotAnObject)
    else
      match Get(body, "content")
      case None => Failure(MissingContent)
      case Some(content) => MediaSchema(content)
  }

  /** The success status codes tried first, in priority order. */
  const SuccessStatusCodes: seq<string> := ["200", "201", "202", "203", "204"]

  /** The first code of `codes` that `responses` has, with its response. */
  function FirstPresent(responses: Value, codes: seq<string>): (r: Option<(nat, Value)>)
    ensures r.Some? ==> r.value.0 < |codes| && Get(responses, codes[r.value.0]) == Some(r.value.1)
    ensures r.Some? ==> forall k :: 0 <= k < r.value.0 ==> Get(responses, codes[k]).None?
    ensures r.None? ==> forall k :: 0 <= k < |codes| ==> Get(responses, codes[k]).None?
  {
    if |codes| == 0 then None
    else
      match Get(responses, codes[0])
      case Some(resp) => Some((0, resp))
      case None =>
        match FirstPresent(responses, codes[1..])
        case Some(found) => Some((found.0 + 1, found.1))
        case None => None
  }

  /** The response the selector reads: the first success code present, else
      the first entry of the map, else none (the map is empty). */
  function SelectResponse(responses: Value): (r: Option<Value>)
    ensures r.Some? <==> responses.Obj? && |responses.fields| > 0
    ensures r.Some? && (forall k :: 0 <= k < |SuccessStatusCodes| ==> Get(responses, SuccessStatusCodes[k]).None?)
            ==> r.value == responses.fields[0].1
  {
    match FirstPresent(responses, SuccessStatusCodes)
    case Some(found) =>
      var i := IndexOf(responses.fields, SuccessStatusCodes[found.0]);
      assert 0 <= i < |responses.fields|;
      Some(found.1)
    case None =>
      match FirstEntry(responses)
      case Some(entry) => Some(entry.1)
      case None => None
  }

  /** `response_body_schema`: the schema of the chosen response. */
  function ResponseBodySchema(responses: Value): (r: Result<Value, FilterError>)
    ensures !responses.Obj? ==> r == Failure(NotAnObject)
    ensures responses == Obj([]) ==> r == Failure(EmptyResponses)
    ensures SelectResponse(responses).Some? && Get(SelectResponse(responses).value, "content").None?
            ==> r == Failure(MissingContent)
    ensures SelectResponse(responses).Some? && Get(SelectResponse(responses).value, "content").Some?
            ==> r == MediaSchema(Get(SelectResponse(responses).value, "content").value)
    ensures r.Success? ==> SchemaOfSomeMedia(Get(SelectResponse(responses).value, "content").value, r.value)
  {
    if !responses.Obj? then Failure(NotAnObject)
    else
      match SelectResponse(responses)
      case None => Failure(EmptyResponses)
      case Some(resp) =>
        match Get(resp, "content")
        case None => Failure(MissingContent)
        case Some(content) => MediaSchema(content)
  }

  // ---------------------------------------------------------------------
  // Properties
  // ---------------------------------------------------------------------

  /** The highest-priority success code present wins, wherever the entries
      stand in the map: a `200` beats a `404` listed before it. */
  lemma PriorityCodeWins(responses: Value, k: nat)
    requires k < |SuccessStatusCodes| && Get(responses, SuccessStatusCodes[k]).Some?
    requires forall j :: 0 <= j < k ==> Get(responses, SuccessStatusCodes[j]).None?
    ensures SelectResponse(responses) == Get(responses, SuccessStatusCodes[k])
  {
    var found := FirstPresent(responses, SuccessStatusCodes);
    assert found.Some?;
  }

  /** Once a response is chosen, nothing else in the map matters: two
      responses objects choosing the same response give the same result. */
  lemma OnlyChosenResponseMatters(r1: Value, r2: Value)
    requires r1.Obj? && r2.Obj?
    requires SelectResponse(r1) == SelectResponse(r2)
    ensures ResponseBodySchema(r1) == ResponseBodySchema(r2)
  {
  }

  /** For an object response, the response selector reads the chosen
      response exactly as the request-body selector reads a request body. */
  lemma ResponseReadAsRequestBody(responses: Value)
    requires SelectResponse(responses).Some? && SelectResponse(responses).value.Obj?
    ensures ResponseBodySchema(responses) == RequestBodySchema(SelectResponse(responses).value)
  {
  }

  /** The `application/json` schema is returned verbatim wherever the media
      type stands among the others. */
  lemma JsonSchemaAnywhere(before: seq<(string, Value)>, after: seq<(string, Value)>, media: Value, schema: Value)
    requires "application/json" !in Keys(before)
    requires Get(media, "schema") == Some(schema)
    ensures MediaSchema(Obj(before + [("application/json", media)] + after)) == Success(schema)
  {
    var fields := before + [("application/json", media)] + after;
    assert Keys(fields)[|before|] == "application/json";
    assert forall j :: 0 <= j < |before| ==> fields[j].0 == Keys(before)[j];
    assert IndexOf(fields, "application/json") == |before|;
  }

  /** Without a usable `application/json` schema only the first media type
      is consulted: a schema on a later media type is never used. */
  lemma OnlyFirstMediaFallback(first: (string, Value), rest: seq<(string, Value)>)
    requires JsonMediaSchema(Obj([first] + rest)).None?
    requires Get(first.1, "schema").None?
    ensures MediaSchema(Obj([first] + rest)) == Failure(NoUsableSchema)
  {
  }

  // ---------------------------------------------------------------------
  // Worked examples
  // ---------------------------------------------------------------------

  /** A lone `418` response is used as the fallback. */
  lemma TeapotFallbackExample(resp: Value)
    ensures SelectResponse(Obj([("418", resp)])) == Some(resp)
  {
    var v := Obj([("418", resp)]);
    forall k | 0 <= k < |SuccessStatusCodes| ensures Get(v, SuccessStatusCodes[k]).None? {
      assert SuccessStatusCodes[k][0] == '2';
      assert Keys(v.fields)[0] == "418";
    }
  }

  /** A `200` response whose JSON media type holds an array schema: that
      schema is what the selector hands to the resolver. */
  lemma CharacterListSelectionExample()
    ensures var content := Obj([("application/json", Obj([("schema", SchemaType.CharacterListSchema())]))]);
            var responses := Obj([("200", Obj([("description", Str("")), ("content", content)]))]);
            ResponseBodySchema(responses) == Success(SchemaType.CharacterListSchema())
  {
    var content := Obj([("application/json", Obj([("schema", SchemaType.CharacterListSchema())]))]);
    var resp := Obj([("description", Str("")), ("content", content)]);
    var responses := Obj([("200", resp)]);
    assert Get(responses, "200") == Some(resp);
    PriorityCodeWins(responses, 0);
    assert "description" != "content";
    assert IndexFrom(resp.fields, "content", 1) == 1;
    assert Get(resp, "content") == Some(content);
  }
}
