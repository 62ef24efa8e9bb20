# Banette core in Dafny

Banette is an Unreal Engine plug-in with two halves, and this project models both.

The first half is a Rust generator. It turns an OpenAPI description into Unreal C++ through template filters:
- `to_ue_type` resolves a schema to a UE type name;
- `request_body_schema` and `response_body_schema` pick the schema of a request body or a response;
- `path_to_func_name` and `convert_to_pascal_case` synthesise a function name;
- `http_request_builder` and `http_request_params` write the C++ that builds a request;
- smaller utilities join tags, test membership of `required_list`, parse include directives and infer the spec format.

The second half is the Unreal C++ request pipeline:
- the `FHttpRequest` record and its `With_*` setters;
- `FHttpClient` and `FHttpTransport`, which turn a request into an engine request and read the engine response back;
- the origin layers, which prefix relative URLs with an origin;
- the header-injection layer;
- the retry layer;
- the layer chain that nests the layers around a base service.

## How it is modelled

JSON (`Json.Value`) is a tree whose objects are association lists in iteration order. A lookup finds the first entry with a key. "The first media type" and "the first response" are the head of the list.

A filter receives its named arguments as `Option<Value>`, where `None` means the argument is absent. It returns a `Result` whose error is an `Errors.FilterError` variant. The variant carries the data the message names: the method text, the tag index or the path.

A `TMap<FString, FString>` of headers is a list of pairs (`HttpService.HeaderMap`). Keys compare ASCII case-insensitively (`KeyEq`), as `FString` keys do. There are two write operations:
- `Add` is `TMap::Add`: it replaces the whole pair under a matching key, or appends one;
- `Assign` is `FindOrAdd(k) = v`: it keeps the stored key's spelling.

`Find` is `TMap::Find`. `Unique` is the map's invariant that no two keys match.

The engine request and response objects are plain records (`EngineHttp`). The engine's completion of a request is a function parameter. So is an origin provider's answer, and so is the inner service of the retry layer. The inner service maps a request and an attempt number to an outcome.

Each operation has a partner:
- the two URL combiners are proved to agree;
- the two header-line parsers are proved to agree where their rules coincide, and to differ on a line that starts with `:`;
- the older `get_cpp_type` copy in `openapi/filter.rs` is proved to agree with the newer one where neither a type array nor a `uint` format is involved;
- escaping is proved to be undone by the C++ compiler's reading of a literal;
- the PascalCase loop is proved equal to a word-by-word reference;
- the generated function name is proved to split back into its parts;
- the layer-chain loop is proved equal to a recursive nesting, and that nesting to unfold back to the layer list.

The unit tests of `http_request_builder.rs` are stale. They expect output without the `FHttpRequest()` prefix and with `ToBinary(RequestBody)` (lines 241 and 264). The code writes the prefix and `ToBytes(RequestBody)` (lines 78 and 82). The model follows the code, and `RequestExprExamples.SimpleGetChain` states the difference.

`openapi/filter.rs` holds older copies of several filters. The copies of `is_required`, `request_body_schema`, `tags_to_pipe_separated` and `response_body_schema` have the same function bodies as the standalone files. The copies of `path_to_func_name` and `convert_to_pascal_case` are written differently (`push_str` of the uppercased text where the standalone file uses `extend`, and the path pieces gathered in a `Vec` before the loop) but behave identically. All of these are modelled by the same members, and some example rows cite the copy's tests. Its `to_ue_type` differs and has its own member, `SchemaType.LegacyToUeType`.

## Model

| member | source | states |
|---|---|---|
| SchemaType.ConcreteTypes | Source/BanetteGenerator/generator/src/openapi/filter/to_ue_type.rs:72-76 | the concrete types of a `type` array are exactly its string entries other than `"null"`, never more than the entries |
| SchemaType.NoConcrete | Source/BanetteGenerator/generator/src/openapi/filter/to_ue_type.rs:72-76 | there is no concrete type exactly when no entry is a string other than `"null"` |
| SchemaType.SoleConcrete | Source/BanetteGenerator/generator/src/openapi/filter/to_ue_type.rs:78-81 | there is exactly one concrete type iff exactly one entry is a non-null string, and then the result is that entry |
| SchemaType.EffectiveType | Source/BanetteGenerator/generator/src/openapi/filter/to_ue_type.rs:62-87 | a schema that names one type, by a `type` string or by a `type` array with a single concrete entry, yields that type; every other schema yields `"object"` |
| SchemaType.EffectiveTypeIff | Source/BanetteGenerator/generator/src/openapi/filter/to_ue_type.rs:63-81 | for any type but `"object"`, the effective type is `t` exactly when the schema names `t` |
| SchemaType.LastSegmentIsSuffix | Source/BanetteGenerator/generator/src/openapi/filter/to_ue_type.rs:22 | the text after the last `/` is a `/`-free suffix of the reference that is the whole reference or preceded by `/` |
| SchemaType.LastSegmentUnique | Source/BanetteGenerator/generator/src/openapi/filter/to_ue_type.rs:22 | those facts single out the last segment |
| SchemaType.LastSegmentAfterSlash | Source/BanetteGenerator/generator/src/openapi/filter/to_ue_type.rs:22 | a `/`-free name after a final `/` is the segment taken |
| SchemaType.IntegerName | Source/BanetteGenerator/generator/src/openapi/filter/to_ue_type.rs:33-38 | `int64` iff the format is `int64`, `uint8` iff it is `uint`, `int32` for any other or no format |
| SchemaType.ToUeType | Source/BanetteGenerator/generator/src/openapi/filter/to_ue_type.rs:9-56 | the name is never empty; `true` gives `FInstancedStruct`, `false` gives `void*`; a string `$ref` gives `F` plus its last segment whatever the sibling keywords |
| SchemaType.DeclaredTypes | Source/BanetteGenerator/generator/src/openapi/filter/to_ue_type.rs:27-29 | the effective type is one of `string`, `integer`, `number`, `boolean` and `array` exactly when the schema names that type |
| SchemaType.ArrayKind | Source/BanetteGenerator/generator/src/openapi/filter/to_ue_type.rs:42-53 | an array is a list of its items' kind, or of any value without `items`, and is spelled `TArray<…>` accordingly |
| SchemaType.ToUeTypeSpellsKind | Source/BanetteGenerator/generator/src/openapi/filter/to_ue_type.rs:9-87 | for every schema, the resolver is the UE spelling of an independent keyword-by-keyword classification of what the schema denotes |
| SchemaType.ComponentRef | Source/BanetteGenerator/generator/src/openapi/filter/to_ue_type.rs:21-24 | a reference to any schema component resolves to `F` followed by the component's name |
| SchemaType.StringComponentRef | Source/BanetteGenerator/generator/src/openapi/filter/to_ue_type.rs:21-24 | a reference to the component `String` resolves to `FString` |
| SchemaType.StringTypeSchema | Source/BanetteGenerator/generator/src/openapi/filter/to_ue_type.rs:99-105 | a `string` schema resolves to `FString` |
| SchemaType.ComponentNameClash | Source/BanetteGenerator/generator/src/openapi/filter/to_ue_type.rs:21-30 | a component named `String` and a string schema resolve to the same UE type |
| SchemaType.NullableResolvesAsBase | Source/BanetteGenerator/generator/src/openapi/filter/to_ue_type.rs:69-81 | replacing a `type` string by any array whose only concrete entry is that type, such as `[t, "null"]`, does not change the result |
| SchemaType.IntegerByFormat | Source/BanetteGenerator/generator/src/openapi/filter/to_ue_type.rs:31-39 | an integer schema, nullable or not, resolves by its format alone |
| SchemaType.ArrayWrapsItems | Source/BanetteGenerator/generator/src/openapi/filter/to_ue_type.rs:42-53 | an array schema, nullable or not, resolves to `TArray` of its items' type, or to `TArray<FInstancedStruct>` without `items` |
| SchemaType.OthersAreInstancedStruct | Source/BanetteGenerator/generator/src/openapi/filter/to_ue_type.rs:54-55 | every node that is not a boolean, not a reference and names none of the five types resolves to `FInstancedStruct` |
| SchemaType.NullFirstExample | Source/BanetteGenerator/generator/src/openapi/filter/to_ue_type.rs:286-295 | `["null", "integer"]` with format `int64` resolves to `int64` |
| SchemaType.TwoConcreteTypesExample | Source/BanetteGenerator/generator/src/openapi/filter/to_ue_type.rs:298-306 | `["integer", "string", "null"]` resolves to `FInstancedStruct` |
| SchemaType.OnlyNullExample | Source/BanetteGenerator/generator/src/openapi/filter/to_ue_type.rs:309-317 | `["null"]` resolves to `FInstancedStruct` |
| SchemaType.LegacyToUeType | Source/BanetteGenerator/generator/src/openapi/filter.rs:8-58 | the older resolver handles boolean schemas and string `$ref`s as the newer one does |
| SchemaType.LegacyAgrees | Source/BanetteGenerator/generator/src/openapi/filter.rs:26-40 | on every schema tree without a `type` array or a `uint` integer, the older and newer resolvers agree |
| SchemaType.LegacyIgnoresTypeArrays | Source/BanetteGenerator/generator/src/openapi/filter.rs:26-29 | the older resolver turns any `type` array into `FInstancedStruct` |
| SchemaType.LegacyUintIsInt32 | Source/BanetteGenerator/generator/src/openapi/filter.rs:33-39 | on an integer with `format: "uint"` the older resolver gives `int32` and the newer `uint8` |
| SchemaType.CharacterListTypeExample | Source/BanetteGenerator/generator/src/openapi/filter.rs:818-849 | an array of `CharacterResponse` references resolves to `TArray<FCharacterResponse>` |
| BodySchema.MediaSchema | Source/BanetteGenerator/generator/src/openapi/filter/response_body_schema.rs:37-55 | the `application/json` schema when it has one; otherwise success exactly when the first media type has a schema; any result is the schema of a listed media type, and the failure is `NoUsableSchema` |
| BodySchema.RequestBodySchema | Source/BanetteGenerator/generator/src/openapi/filter/request_body_schema.rs:4-36 | a non-object is `NotAnObject`, a body without `content` is `MissingContent`; otherwise the result is the media selection of its `content` (the `application/json` schema, else the first media type's, else `NoUsableSchema`), a schema of one of its media types |
| BodySchema.FirstPresent | Source/BanetteGenerator/generator/src/openapi/filter/response_body_schema.rs:25-27 | the first code in priority order that the responses have, with its response; no earlier code is present, and none at all when nothing is found |
| BodySchema.SelectResponse | Source/BanetteGenerator/generator/src/openapi/filter/response_body_schema.rs:25-29 | a response is chosen iff the responses object is non-empty, and it is the first entry when no success code is present |
| BodySchema.ResponseBodySchema | Source/BanetteGenerator/generator/src/openapi/filter/response_body_schema.rs:18-56 | a non-object is `NotAnObject`, an empty map `EmptyResponses`, a chosen response without `content` `MissingContent`; otherwise the result is the media selection of the chosen response's `content`, a schema of one of its media types |
| BodySchema.PriorityCodeWins | Source/BanetteGenerator/generator/src/openapi/filter/response_body_schema.rs:132-166 | the highest-priority success code present is chosen wherever it stands in the map |
| BodySchema.OnlyChosenResponseMatters | Source/BanetteGenerator/generator/src/openapi/filter/response_body_schema.rs:31-34 | two responses objects that choose the same response give the same result |
| BodySchema.ResponseReadAsRequestBody | Source/BanetteGenerator/generator/src/openapi/filter/response_body_schema.rs:32-55 | the chosen response is read exactly as a request body is |
| BodySchema.JsonSchemaAnywhere | Source/BanetteGenerator/generator/src/openapi/filter/request_body_schema.rs:16-21 | the `application/json` schema is returned unchanged whatever media types follow it or precede it under other keys |
| BodySchema.OnlyFirstMediaFallback | Source/BanetteGenerator/generator/src/openapi/filter/request_body_schema.rs:24-35 | without a JSON schema only the first media type is consulted: when it has no schema the result is an error, whatever follows |
| BodySchema.TeapotFallbackExample | Source/BanetteGenerator/generator/src/openapi/filter/response_body_schema.rs:194-214 | a lone `418` response is chosen as the fallback |
| BodySchema.CharacterListSelectionExample | Source/BanetteGenerator/generator/src/openapi/filter/response_body_schema.rs:336-366 | a `200` response whose JSON media type holds the character-list schema yields that schema |
| FuncName.PascalFrom | Source/BanetteGenerator/generator/src/filter/path_to_func_name.rs:98-113 | the conversion is never longer than its input, holds no `_` or `-`, and is empty exactly when the input is all separators |
| FuncName.PascalCase | Source/BanetteGenerator/generator/src/filter/path_to_func_name.rs:89-117 | the result holds no separator and is empty exactly for empty or separator-only input |
| FuncName.PascalFromWords | Source/BanetteGenerator/generator/src/filter/path_to_func_name.rs:98-113 | with the capitalising flag set, the character loop equals the words between separators concatenated with their first letters capitalised; with it clear, the first word is kept as is |
| FuncName.PascalCaseCapitalizesWords | Source/BanetteGenerator/generator/src/filter/path_to_func_name.rs:89-117 | PascalCase is the capitalised words concatenated |
| FuncName.PascalNoSeparators | Source/BanetteGenerator/generator/src/filter/path_to_func_name.rs:102-112 | without separators the conversion capitalises the first character and keeps the rest |
| FuncName.PascalCaseSeparator | Source/BanetteGenerator/generator/src/filter/path_to_func_name.rs:99-101 | the text on either side of a separator converts independently |
| FuncName.PascalIdempotent | Source/BanetteGenerator/generator/src/filter/path_to_func_name.rs:89-117 | converting twice changes nothing |
| FuncName.PascalFirstNotLower | Source/BanetteGenerator/generator/src/filter/path_to_func_name.rs:106-109 | a non-empty result never starts with an ASCII lowercase letter |
| FuncName.ParamName | Source/BanetteGenerator/generator/src/filter/path_to_func_name.rs:42-44 | a braced segment is its parameter name between `{` and `}` |
| FuncName.Partition | Source/BanetteGenerator/generator/src/filter/path_to_func_name.rs:36-58 | the segment loop yields the literal names and the non-empty parameter names, each list in path order |
| FuncName.NamesAppend | Source/BanetteGenerator/generator/src/filter/path_to_func_name.rs:36-58 | both name lists distribute over concatenated segment lists, so path order is kept |
| FuncName.EmptySegmentIgnored | Source/BanetteGenerator/generator/src/filter/path_to_func_name.rs:37-39 | an empty segment contributes no name |
| FuncName.DoubledSlashIgnored | Source/BanetteGenerator/generator/src/filter/path_to_func_name.rs:30-39 | a doubled `/` inside a path gives the same names as a single one |
| FuncName.ComposeNameSplits | Source/BanetteGenerator/generator/src/filter/path_to_func_name.rs:61-74 | the composed name splits on `_` back into the verb, the literals, and `By` followed by the parameters when there are any |
| FuncName.PathToFuncName | Source/BanetteGenerator/generator/src/filter/path_to_func_name.rs:17-77 | a non-string path is `PathNotString`, then a missing or non-string method `MissingMethod`; otherwise the uppercased verb composed with the names of the path's segments |
| FuncName.SegmentsOfJoined | Source/BanetteGenerator/generator/src/filter/path_to_func_name.rs:30-36 | a path written as `/` plus `/`-free parts joined by `/` has exactly those segments |
| FuncNameExamples.LiteralSegment | Source/BanetteGenerator/generator/src/filter/path_to_func_name.rs:54-57 | an unbraced segment contributes its PascalCase name to the literals only |
| FuncNameExamples.ParamSegment | Source/BanetteGenerator/generator/src/filter/path_to_func_name.rs:42-50 | a braced segment contributes its name to the parameters only, and `{}` contributes nothing |
| FuncNameExamples.PascalUserId | Source/BanetteGenerator/generator/src/filter/path_to_func_name.rs:218-227 | `user_id` converts to `UserId` |
| FuncNameExamples.UserPostsExample | Source/BanetteGenerator/generator/src/filter/path_to_func_name.rs:318-325 | `/user/{user_id}/posts` with `get` gives `GET_User_Posts_By_UserId` |
| FuncNameExamples.EmptyBracesExample | Source/BanetteGenerator/generator/src/filter/path_to_func_name.rs:274-282 | `/api/{}/resource` gives `GET_Api_Resource` |
| FuncNameExamples.OnlyParameterExample | Source/BanetteGenerator/generator/src/openapi/filter.rs:721-727 | `/{id}` gives `GET_By_Id` |
| FuncNameExamples.DoubleSlashExample | Source/BanetteGenerator/generator/src/openapi/filter.rs:710-717 | `/api//resource/{id}` gives `GET_Api_Resource_By_Id` |
| FuncNameExamples.PascalSeparatorsOnly | Source/BanetteGenerator/generator/src/openapi/filter.rs:766-776 | the empty string and `_-_` convert to the empty string |
| HttpService.AllMethodsListed | Source/BanetteTransport/Http/HttpService.h:31-39 | every verb is one of the six enumerators |
| HttpService.MethodNameInjective | Source/BanetteTransport/Http/HttpService.h:31-39 | different enumerators have different spellings |
| HttpService.Find | Source/BanetteTransport/Http/HttpService.h:75 | a lookup succeeds iff some key matches ignoring case, and returns the value stored under a matching key |
| HttpService.Add | Source/BanetteTransport/Http/HttpService.h:84 | adding under a present key keeps the size, under a new key appends the pair, and keeps keys unique |
| HttpService.Assign | Source/BanetteKit/Layers/InjectHeaderLayer.h:94 | assigning keeps every stored key spelling, replaces in place or appends, and keeps keys unique |
| HttpService.FindAfterAdd | Source/BanetteTransport/Http/HttpService.h:82-86 | after either write the key finds the new value and every other key finds what it found before |
| HttpService.AddAll | Source/BanetteTransport/Http/HttpClient.cpp:76-79 | adding pairs one after another keeps keys unique |
| HttpService.FindAddAll | Source/BanetteTransport/Http/HttpClient.cpp:43-50 | after a run of adds a key finds the last pair that matches it, or what it found before |
| HttpService.MapOfPairs | Source/BanetteTransport/Http/HttpClient.cpp:43-50 | a map built by adding pairs to an empty map looks up, under each key, the value of the last pair with that key |
| HttpService.LastMatchUnique | Source/BanetteTransport/Http/HttpService.h:75 | copying a map with unique keys pair by pair rebuilds every lookup |
| HttpService.WithUrl | Source/BanetteTransport/Http/HttpService.h:73 | sets the URL and nothing else |
| HttpService.WithMethod | Source/BanetteTransport/Http/HttpService.h:74 | sets the method and nothing else |
| HttpService.WithHeaders | Source/BanetteTransport/Http/HttpService.h:75 | sets the headers and nothing else |
| HttpService.WithContentType | Source/BanetteTransport/Http/HttpService.h:76 | sets the content type and nothing else |
| HttpService.WithBody | Source/BanetteTransport/Http/HttpService.h:77-78 | sets the body and nothing else |
| HttpService.WithTimeoutSeconds | Source/BanetteTransport/Http/HttpService.h:79 | sets the timeout and nothing else |
| HttpService.AgreeExceptDetermines | Source/BanetteTransport/Http/HttpService.h:45-60 | a request is determined by one field and all the others |
| HttpService.SetterLaws | Source/BanetteTransport/Http/HttpService.h:45-60 | the second of two sets wins, setting a field to its value changes nothing, and setters of different fields commute |
| HttpService.AddHeader | Source/BanetteTransport/Http/HttpService.h:82-86 | only the headers change, the key finds the value, and keys stay unique |
| HttpService.AddHeaderOthers | Source/BanetteTransport/Http/HttpService.h:82-86 | headers under other keys are unchanged |
| HttpClient.ToVerb | Source/BanetteTransport/Http/HttpClient.cpp:26-38 | the wire verb is the enumerator's name in upper case |
| HttpClient.ToVerbInjective | Source/BanetteTransport/Http/HttpClient.cpp:26-38 | different enumerators go on the wire as different verbs |
| HttpClient.UeTrim | Source/BanetteTransport/Http/HttpClient.cpp:47-48 | the trimmed text is no longer than the input and neither starts nor ends with whitespace |
| HttpClient.ParseHeaderLine | Source/BanetteTransport/Http/HttpClient.cpp:45-48 | a line is accepted iff it has a `:` that is not its first character; the pair is the trimmed texts around its first `:` |
| HttpClient.HeaderPairs | Source/BanetteTransport/Http/HttpClient.cpp:43-51 | at most one pair per line |
| HttpClient.ParseHeaders | Source/BanetteTransport/Http/HttpClient.cpp:40-52 | the parsed headers, starting from an empty map, have unique keys |
| HttpClient.ParseHeadersFind | Source/BanetteTransport/Http/HttpClient.cpp:49 | a key finds the value of the last accepted line that carries it |
| HttpClient.HeaderPairsAppend | Source/BanetteTransport/Http/HttpClient.cpp:43-51 | lines are parsed independently and in order |
| HttpClient.Prepare | Source/BanetteTransport/Http/HttpClient.cpp:57-93 | an empty URL is `InvalidUrl`; otherwise URL and upper-case verb as given, a timeout iff positive, content iff the body is non-empty |
| HttpClient.PrepareHeaders | Source/BanetteTransport/Http/HttpClient.cpp:75-86 | the engine request carries exactly the record's headers, plus the content type under `Content-Type` when the field is set and no such header exists |
| HttpClient.PrepareKeepsContentTypeHeader | Source/BanetteTransport/Http/HttpClient.cpp:80-86 | a `Content-Type` header of the record is never overridden by the field |
| HttpClient.Complete | Source/BanetteTransport/Http/HttpClient.cpp:96-114 | `ConnectionFailed` unless connected with a response; otherwise URL, status, content type and body as reported, success exactly for 2xx, and the headers the map built from the parsed lines: unique keys, each looking up the value of the last line that names it |
| HttpClient.Call | Source/BanetteTransport/Http/HttpClient.cpp:54-115 | an empty URL fails with `InvalidUrl` before the engine is used; otherwise failure exactly when the engine did not deliver; the response keeps the URL |
| BanetteHttp.BuildHttpRequest | Source/BanetteTransport/Http/BanetteHttp.h:99-122 | URL and verb as given, the timeout always set, content iff the body is non-empty, and the record's headers |
| BanetteHttp.SplitHeaderLine | Source/BanetteTransport/Http/BanetteHttp.h:70-76 | a line is kept iff it holds a `:`; the pair is the trimmed texts around its first `:`, so the key may be empty |
| BanetteHttp.SplitHeaderPairs | Source/BanetteTransport/Http/BanetteHttp.h:67-77 | at most one pair per line |
| BanetteHttp.HttpErrorMessage | Source/BanetteTransport/Http/BanetteHttp.h:87 | the message starts with `HTTP error ` and differs from the network-error message |
| BanetteHttp.Respond | Source/BanetteTransport/Http/BanetteHttp.h:44-95 | an undelivered completion gives status 0 with the network-error message; otherwise status and body as reported, an error iff not 2xx with `HTTP error <code>`, and the headers the map built from the split lines: unique keys, each looking up the value of the last line that names it |
| BanetteHttp.ErrorFlagAgrees | Source/BanetteTransport/Http/BanetteHttp.h:84-92 | on the same completion this transport errs exactly when the client's response is not marked successful |
| BanetteHttp.SplitAgreesWithParse | Source/BanetteTransport/Http/BanetteHttp.h:71-75 | on a line not starting with `:` both parsers read the same pair |
| BanetteHttp.SplitPairsAgree | Source/BanetteTransport/Http/BanetteHttp.h:67-77 | on lines none of which starts with `:` both parsers give the same pairs |
| BanetteHttp.EmptyKeyLine | Source/BanetteTransport/Http/BanetteHttp.h:71-75 | `: x` is kept here under an empty key and dropped by the client |
| RequestExpr.VerbKeysAreLower | Source/BanetteGenerator/generator/src/openapi/filter/http_request_builder.rs:92-98 | the table's keys are the enumerator names in lower case |
| RequestExpr.ConvertToHttpMethod | Source/BanetteGenerator/generator/src/openapi/filter/http_request_builder.rs:91-104 | a success names the verb equal to the input ignoring case; a failure keeps the input and no verb matches it |
| RequestExpr.ConvertRoundTrip | Source/BanetteGenerator/generator/src/openapi/filter/http_request_params.rs:60-73 | the enumerator name, its lower-case key and the wire verb all convert back to the same verb |
| RequestExpr.ConvertIgnoresCase | Source/BanetteGenerator/generator/src/openapi/filter/http_request_params.rs:369-376 | spellings that differ only in case convert alike |
| RequestExpr.OptionsUnsupported | Source/BanetteGenerator/generator/src/openapi/filter/http_request_params.rs:329-339 | `options` is rejected with an error that names it |
| RequestExpr.EscapeCpp | Source/BanetteGenerator/generator/src/openapi/filter/http_request_builder.rs:109-111 | text without `\` or `"` is left as is |
| RequestExpr.EscapeMatchesReference | Source/BanetteGenerator/generator/src/openapi/filter/http_request_builder.rs:110 | the two replacement passes escape each character on its own |
| RequestExpr.EscapeRoundTrip | Source/BanetteGenerator/generator/src/openapi/filter/http_request_builder.rs:106-111 | the escaped text, read back as a C++ literal, is the original |
| RequestExpr.EscapeInjective | Source/BanetteGenerator/generator/src/openapi/filter/http_request_params.rs:76-81 | different strings give different literals |
| RequestExpr.EscapeQuoteThenBackslash | Source/BanetteGenerator/generator/src/openapi/filter/http_request_params.rs:379-384 | a quote becomes `\"` and a backslash `\\` between plain pieces |
| RequestExpr.ParamNameIn | Source/BanetteGenerator/generator/src/openapi/filter/http_request_builder.rs:124-131 | a parameter object gives its name iff its `in` is the location and it has a string `name` |
| RequestExpr.NamesIn | Source/BanetteGenerator/generator/src/openapi/filter/http_request_builder.rs:117-155 | no more names than entries |
| RequestExpr.NamesInAppend | Source/BanetteGenerator/generator/src/openapi/filter/http_request_params.rs:86-124 | extraction distributes over concatenation, so input order is kept |
| RequestExpr.NamesInMembers | Source/BanetteGenerator/generator/src/openapi/filter/http_request_builder.rs:139-155 | a name is extracted iff some entry at that location carries it |
| RequestExpr.PathQueryPartition | Source/BanetteGenerator/generator/src/openapi/filter/http_request_params.rs:410-451 | each entry feeds at most one of the two lists |
| RequestExpr.QueryPairs | Source/BanetteGenerator/generator/src/openapi/filter/http_request_builder.rs:172-175 | one `n={n}` per query parameter, in order |
| RequestExpr.BuildUrl | Source/BanetteGenerator/generator/src/openapi/filter/http_request_builder.rs:161-193 | a plain literal reading back as the path iff there are no parameters; otherwise a template of the escaped path plus the query suffix, with path then query arguments |
| RequestExpr.QueryRoundTrip | Source/BanetteGenerator/generator/src/openapi/filter/http_request_builder.rs:171-177 | after `?` the query string splits on `&` back into the pairs when no name holds `&` |
| RequestExpr.ArgEntries | Source/BanetteGenerator/generator/src/openapi/filter/http_request_builder.rs:183-187 | one `{"n", n}` entry per argument, in order |
| RequestExpr.RenderUrlShape | Source/BanetteGenerator/generator/src/openapi/filter/http_request_builder.rs:165-192 | the two URL shapes are told apart by their first character |
| RequestExpr.ContentTypeOf | Source/BanetteGenerator/generator/src/openapi/filter/http_request_builder.rs:198-208 | a content type exists iff `content` is a non-empty object; it is `application/json` when that key is present, else the first key |
| RequestExpr.ContentTypeMatchesSchema | Source/BanetteGenerator/generator/src/openapi/filter/http_request_builder.rs:198-208 | the declared content type is one of the body's media types, and the one whose schema the request-body selector returns unless `application/json` is listed without a `schema` |
| RequestExpr.ContentTypeWithoutJsonSchema | Source/BanetteGenerator/generator/src/openapi/filter/request_body_schema.rs:16-30 | with `application/json` listed without a `schema`, the content type says `application/json` while the body schema comes from the first media type |
| RequestExpr.UrlAndVerb | Source/BanetteGenerator/generator/src/openapi/filter/http_request_builder.rs:31-57 | the errors in order (path, method, unsupported verb), the verb equal to the input ignoring case, and the URL from the extracted names |
| RequestExpr.BuildChain | Source/BanetteGenerator/generator/src/openapi/filter/http_request_builder.rs:69-79 | the body marker is written iff the body is an object; the content type only then, and as extracted |
| RequestExpr.RenderChain | Source/BanetteGenerator/generator/src/openapi/filter/http_request_builder.rs:60-82 | the text starts with the constructor, URL and method calls |
| RequestExpr.HttpRequestBuilder | Source/BanetteGenerator/generator/src/openapi/filter/http_request_builder.rs:29-85 | fails exactly as the chain does, and otherwise writes it, starting with `FHttpRequest().With_Url(` |
| RequestExpr.BodyMarkerWithoutContent | Source/BanetteGenerator/generator/src/openapi/filter/http_request_builder.rs:69-79 | an object body without `content` gets the body marker and no content type |
| RequestExpr.NonObjectBodyIgnored | Source/BanetteGenerator/generator/src/openapi/filter/http_request_builder.rs:505-515 | a non-object body gives the same text as no body |
| RequestExpr.EvalChainFields | Source/BanetteTransport/Http/HttpService.h:73-79 | the request the generated chain builds has the URL and verb, the extracted content type or the JSON default, the body only with the marker, no headers and no timeout |
| RequestExpr.ContentTypeLiteral | Source/BanetteGenerator/generator/src/openapi/filter/http_request_builder.rs:73-76 | the escaped content type reads back as the one extracted |
| RequestExpr.HttpRequestParams | Source/BanetteGenerator/generator/src/openapi/filter/http_request_params.rs:23-54 | fails exactly as the shared front does, with the same error |
| RequestExpr.BuilderAgreesWithParams | Source/BanetteGenerator/generator/src/openapi/filter/http_request_params.rs:48-51 | both filters accept the same inputs with the same errors and write the same URL expression and verb |
| RequestExprExamples.EscapeExample | Source/BanetteGenerator/generator/src/openapi/filter/http_request_params.rs:379-384 | `both"and\here` escapes to `both\"and\\here` |
| RequestExprExamples.SimpleGetChain | Source/BanetteGenerator/generator/src/openapi/filter/http_request_builder.rs:234-243 | a plain GET gives the constructor, `TEXT` URL and `Get`, which is not the unprefixed text the test expects |
| RequestExprExamples.SimpleGetExample | Source/BanetteGenerator/generator/src/openapi/filter/http_request_builder.rs:25-26 | `/v1/characters` with `get` as the code writes it |
| RequestExprExamples.PathAndQueryParams | Source/BanetteGenerator/generator/src/openapi/filter/http_request_params.rs:130-162 | one path and one query parameter give the template with `?q={q}` and the path argument first |
| RequestExprExamples.CharacterShardExample | Source/BanetteGenerator/generator/src/openapi/filter/http_request_params.rs:479-493 | `/v1/player/characters/{id}` with `id` and `shard` gives the documented `FString::Format` expression |
| RequestExprExamples.JsonBodyChain | Source/BanetteGenerator/generator/src/openapi/filter/http_request_builder.rs:247-267 | a POST with a JSON body adds the content type and `ToBytes` marker, where the test expects `ToBinary` and no prefix |
| Tags.Strs | Source/BanetteGenerator/generator/src/filter/tags_to_pipe_separated.rs:24-33 | the strings of an all-string array, one per element and in order |
| Tags.TagsToPipeSeparated | Source/BanetteGenerator/generator/src/filter/tags_to_pipe_separated.rs:14-41 | a non-array is `NotAnArray`; all strings are joined by `\|`; otherwise the error names the first non-string index |
| Tags.PipeRoundTrip | Source/BanetteGenerator/generator/src/filter/tags_to_pipe_separated.rs:35-36 | the joined text splits back into the tags when none holds `\|` |
| Tags.FewTags | Source/BanetteGenerator/generator/src/filter/tags_to_pipe_separated.rs:59-76 | no tags give the empty string and one tag gives itself |
| IsRequired.AnyNamed | Source/BanetteGenerator/generator/src/openapi/filter/is_required.rs:24 | true iff some element is the name as a string |
| IsRequired.IsRequired | Source/BanetteGenerator/generator/src/openapi/filter/is_required.rs:7-29 | a non-string name is `NameNotString`, a missing or non-array list `RequiredListMissing`; otherwise membership of the name as a string |
| IsRequired.EmptyListNotRequired | Source/BanetteGenerator/generator/src/openapi/filter/is_required.rs:24 | an empty list requires nothing |
| IsRequired.NonStringsIgnored | Source/BanetteGenerator/generator/src/openapi/filter/is_required.rs:24 | non-string elements never change the answer |
| Loader.InferFormat | Source/BanetteGenerator/generator/src/openapi/loader.rs:13-24 | JSON iff the path ends in `.json`, YAML iff in `.yaml` or `.yml`, otherwise an error naming the path |
| Loader.SuffixesExclusive | Source/BanetteGenerator/generator/src/openapi/loader.rs:14-16 | no path has both a JSON and a YAML suffix |
| Loader.SuffixDecides | Source/BanetteGenerator/generator/src/openapi/loader.rs:190-204 | any stem, a URL included, with a recognised suffix is accepted |
| Loader.UpperCaseSuffixRejected | Source/BanetteGenerator/generator/src/openapi/loader.rs:18-23 | an upper-case `.JSON` suffix is rejected |
| IncludeHeaders.FullPiece | Source/BanetteGenerator/generator/src/openapi/parser.rs:27-37 | a piece gives a directive iff its trimmed text is non-empty; it starts with `#include ` and loses exactly one trailing `;` |
| IncludeHeaders.SimplePiece | Source/BanetteGenerator/generator/src/openapi/parser.rs:46-52 | a non-empty trimmed piece becomes `#include "piece"` |
| IncludeHeaders.Collect | Source/BanetteGenerator/generator/src/openapi/parser.rs:26-40 | only pieces the reader keeps appear, and when every piece is kept the result is each piece's directive at its own position |
| IncludeHeaders.ParseIncludeHeaders | Source/BanetteGenerator/generator/src/openapi/parser.rs:16-56 | empty input gives nothing; with the keyword the directives are the full-mode pieces of the `#include`-split input, each starting with `#include `; without it they are the quoted non-blank pieces of the `;`-split input |
| IncludeHeaders.CollectAppend | Source/BanetteGenerator/generator/src/openapi/parser.rs:26-40 | reading keeps piece order: two runs of pieces give the first run's directives then the second's |
| IncludeHeaders.FullPieceOfHeader | Source/BanetteGenerator/generator/src/openapi/parser.rs:27-37 | the piece ` header;` gives `#include header` |
| IncludeHeaders.SplitFullList | Source/BanetteGenerator/generator/src/openapi/parser.rs:25 | splitting a list of `#include header;` on the keyword gives an empty lead and one ` header;` piece per header |
| IncludeHeaders.CollectPieces | Source/BanetteGenerator/generator/src/openapi/parser.rs:26-40 | the pieces of such a list read back as the headers' directives in order |
| IncludeHeaders.FullRoundTrip | Source/BanetteGenerator/generator/src/openapi/parser.rs:22-40 | a list of `#include header;` directives parses back to the directives, in order, without their `;` |
| IncludeHeaders.FullFormatExample | Source/BanetteGenerator/generator/src/openapi/parser.rs:8 | `#include "a.h";#include <vector>;` gives `#include "a.h"` and `#include <vector>` |
| IncludeHeaders.CollectSimple | Source/BanetteGenerator/generator/src/openapi/parser.rs:43-54 | plain names become quoted directives in order |
| IncludeHeaders.SimplifiedRoundTrip | Source/BanetteGenerator/generator/src/openapi/parser.rs:42-54 | names joined by `;` parse back to their quoted directives in order |
| IncludeHeaders.ParserReadsNameList | Source/BanetteGenerator/generator/src/openapi/parser.rs:8-9 | `a.h;b.h` gives two quoted directives |
| IncludeHeaders.MainPiece | Source/BanetteGenerator/generator/src/main.rs:32-40 | a non-empty trimmed piece becomes a directive that starts with `#include ` and ends with `;` |
| IncludeHeaders.ExtraHeaderDirectives | Source/BanetteGenerator/generator/src/main.rs:26-44 | an empty value gives nothing, and every directive starts with `#include ` and ends with `;` |
| IncludeHeaders.MainPieceIsFullPiece | Source/BanetteGenerator/generator/src/main.rs:36-39 | a piece gives a command-line directive iff it gives a parser directive, and it is that directive plus `;` |
| IncludeHeaders.CollectMainFull | Source/BanetteGenerator/generator/src/main.rs:31-43 | the command-line directives are the parser's full-mode directives, each with `;` |
| IncludeHeaders.ExtraHeadersMatchParser | Source/BanetteGenerator/generator/src/main.rs:29-43 | on input holding `#include` the command line reads what the parser reads, with `;` appended |
| IncludeHeaders.SingleDirectiveWithoutKeyword | Source/BanetteGenerator/generator/src/main.rs:29-41 | without the keyword the whole trimmed value is one directive |
| IncludeHeaders.CommandLineReadsOneDirective | Source/BanetteGenerator/generator/src/main.rs:36-39 | `a.h;b.h` gives the single directive `#include a.h;b.h;` |
| OriginLayer.AbsoluteUrlLaws | Source/BanetteTransport/Http/OriginLayer.h:185-189 | the test ignores letter case, accepts the lower-case schemes, and accepts only URLs starting with `http` |
| OriginLayer.StripTrailingSlashes | Source/BanetteKit/Layers/HttpOriginLayer.h:127-131 | the origin is the result followed by slashes only, and the result does not end in `/` |
| OriginLayer.StripLeadingSlashes | Source/BanetteKit/Layers/HttpOriginLayer.h:134-138 | the path is slashes only followed by the result, and the result does not start with `/` |
| OriginLayer.CombineUrl | Source/BanetteKit/Layers/HttpOriginLayer.h:124-147 | the URL starts with the stripped origin, and is the stripped origin alone iff the path is all slashes |
| OriginLayer.CombineCanonical | Source/BanetteKit/Layers/HttpOriginLayer.h:140-146 | however many slashes the origin ends and the path starts with, they are joined by exactly one `/`, or the origin stands alone |
| OriginLayer.DocumentedCombinations | Source/BanetteKit/Layers/HttpOriginLayer.h:117-122 | the four documented combinations give `https://example.com/a/b` |
| OriginLayer.CombineUrlByIndex | Source/BanetteTransport/Http/OriginLayer.h:199-226 | the transport's index-based combination equals the kit's |
| OriginLayer.OriginEnd | Source/BanetteTransport/Http/OriginLayer.h:202-207 | the index scan stops where the trailing slashes begin |
| OriginLayer.PathStart | Source/BanetteTransport/Http/OriginLayer.h:210-215 | the index scan stops where the leading slashes end |
| OriginLayer.Route | Source/BanetteKit/Layers/HttpOriginLayer.h:79-101 | absolute URLs pass unchanged, a relative URL with an empty origin is `InvalidUrl`, otherwise only the URL changes, to the combination |
| OriginLayer.ForwardedUrlIsAbsolute | Source/BanetteTransport/Http/OriginLayer.h:166-170 | with an absolute origin every forwarded URL is absolute |
| OriginLayer.SlashOnlyOrigin | Source/BanetteTransport/Http/OriginLayer.h:160-164 | an origin of one `/` passes the emptiness test and forwards `v1` as `/v1` |
| OriginLayer.Resolve | Source/BanetteTransport/Http/OriginLayer.h:123-157 | a static origin as is; with a provider a non-empty cache is used, otherwise the provider is asked and its answer cached only when non-empty |
| OriginLayer.ResolveKeepsCacheOk | Source/BanetteTransport/Http/OriginLayer.h:144-149 | the cache never holds an empty origin, and the provider is asked iff nothing is cached |
| OriginLayer.TransportRoute | Source/BanetteTransport/Http/OriginLayer.h:113-171 | an absolute URL is forwarded before any origin is resolved, leaving the cache; otherwise the resolved origin routes the request |
| OriginLayer.Origins | Source/BanetteTransport/Http/OriginLayer.h:136-151 | one origin per request of a sequence |
| OriginLayer.OriginsFromFirstAnswer | Source/BanetteTransport/Http/OriginLayer.h:125-153 | each request sees the cached origin or the first non-empty answer so far, and until there is one the provider's current answer |
| InjectHeader.AddToLayer | Source/BanetteKit/Layers/InjectHeaderLayer.h:49-53 | the name finds the value, other names are unchanged, keys stay unique, and the set grows by at most one |
| InjectHeader.StepFind | Source/BanetteKit/Layers/InjectHeaderLayer.h:91-103 | one merge step redirects the injected key exactly when overriding or when the key is absent |
| InjectHeader.MergeHeaders | Source/BanetteKit/Layers/InjectHeaderLayer.h:89-104 | the merge keeps request keys unique |
| InjectHeader.MergeOverrideFind | Source/BanetteKit/Layers/InjectHeaderLayer.h:91-95 | with override a key finds its last injected value, or the request's when not injected |
| InjectHeader.MergeKeepFind | Source/BanetteKit/Layers/InjectHeaderLayer.h:97-103 | without override a key keeps the request's value, and a missing one gets the injected value |
| InjectHeader.MergeLoop | Source/BanetteKit/Layers/InjectHeaderLayer.h:89-104 | the loop over the injection set computes the merge |
| InjectHeader.Inject | Source/BanetteKit/Layers/InjectHeaderLayer.h:82-108 | only the headers change, and their keys stay unique |
| InjectHeader.InjectFind | Source/BanetteKit/Layers/InjectHeaderLayer.h:86-104 | override gives the injected value; keep gives the request's value when present, else the injected one; keys not injected are unchanged |
| InjectHeader.InjectKeys | Source/BanetteKit/Layers/InjectHeaderLayer.h:89-104 | the key set afterwards is the union of the request's and the injected keys |
| InjectHeader.OverrideExample | Source/BanetteKit/Layers/InjectHeaderLayer.h:94 | overriding `x-auth: old` with `X-Auth: Token` keeps the stored spelling and takes the new value |
| Retry.From | Source/BanetteKit/Layers/RetryLayer.h:64-78 | the outcome from an attempt on is some later attempt's outcome |
| Retry.RetryOutcome | Source/BanetteKit/Layers/RetryLayer.h:61-99 | no attempts give the default result; otherwise the outcome of some attempt |
| Retry.RetryCall | Source/BanetteKit/Layers/RetryLayer.h:61-99 | at most the maximum number of calls, all with the same request; the result is the last call's, every earlier call failed, and stopping early means success |
| Retry.FirstValidWins | Source/BanetteKit/Layers/RetryLayer.h:68-72 | the first valid attempt's outcome is returned |
| Retry.FromFirstValid | Source/BanetteKit/Layers/RetryLayer.h:64-72 | failed attempts are skipped up to the first valid one |
| Retry.AllFailLast | Source/BanetteKit/Layers/RetryLayer.h:75-78 | when every attempt fails the last attempt's failure is returned |
| Retry.DefaultRetriesTwice | Source/BanetteKit/Layers/RetryLayer.h:14-21 | with the default three attempts, two failures then a success give the success |
| LayerChain.AddLayer | Source/BanetteCore/Concepts/BanetteLayer.h:25-30 | the layer is appended and the earlier layers kept |
| LayerChain.Nest | Source/BanetteCore/Concepts/BanetteLayer.h:37-40 | no layers give the base service; otherwise the first layer is outermost |
| LayerChain.Build | Source/BanetteCore/Concepts/BanetteLayer.h:32-43 | the loop from the last layer to the first computes the nesting |
| LayerChain.StackOfNest | Source/BanetteCore/Concepts/BanetteLayer.h:33-42 | the built service unfolds back to the layer list, outermost first, and the base service |
| LayerChain.NestSnoc | Source/BanetteCore/Concepts/BanetteLayer.h:37-40 | a layer added last wraps the base directly |
| LayerChain.AddLayerBuild | Source/BanetteCore/Concepts/BanetteLayer.h:25-43 | building after `Layer(l)` is building the earlier chain on `l` wrapped around the base |
| LayerChain.TwoLayers | Source/BanetteCore/Concepts/BanetteLayer.h:39 | layers `a` then `b` build `a` around `b` around the base |

## Left out

- Loading the spec (`load_openapi_spec`: file and HTTP fetch, JSON and YAML parsing), `lib.rs` (FFI, files, Tera rendering), `build.rs` and the FFI bindings: I/O and foreign code. Only `infer_format` of the loader is modelled.
- `main.rs` apart from the `extra_headers` closure: argument parsing and the call into the generator.
- The filter registries (`filter/mod.rs`, `openapi/filter/mod.rs`): they only register names.
- Unicode case mapping: `to_uppercase`, `to_lowercase` and `is_uppercase` are modelled on ASCII letters only; other characters pass unchanged.
- Rust `trim` removes Unicode White_Space and is modelled with that list. UE's `TrimStartAndEnd` is modelled as removing ASCII space and tab to carriage return.
- Error messages: each failure is a variant of `FilterError` carrying the data the message names, not its wording.
- JSON numbers are integers; no filter modelled reads a number's value.
- The iteration order of serde maps and `TMap` is the order of the association list, left abstract.
- Coroutines, `co_await`, the `FCriticalSection` lock of the origin cache, the retry delay and `UE_LOG`: the model is sequential. The provider's answer, the engine's completion and the inner service are parameters.
- Float timeouts and delays are `real`; nothing is computed with them.
- `RateLimitLayer.h`, `JsonLayer.h`, `JsonConverter.h`, `ExtractLayer.h`, the service and layer concepts, the builders and the test library: clock, engine JSON and compile-time plumbing.
- `HttpClient.Prepare`: the null-module check of `FHttpClient::Call` cannot fail, because the module is taken by reference. `RequestCreationFailed` is never produced, and `NoResponse` is declared but never used.
- `HttpClient.ToVerb`: the `default` branch of the switch cannot be reached with an enumerator and is not modelled.
- The engine's `SetHeader` is modelled as `TMap::Add`; the engine's own header storage is not part of this model.
- Status codes are `int`; the `int32` width never matters here.
- `Retry.RetryCall`: the `int32` attempt counter cannot overflow against a `uint8` maximum. With `MaxAttempts == 0` the loop does not run and the default-constructed `TResult` is returned; the model writes that value as `Unset`.
- `SchemaType.LastSegmentIsSuffix`: the `"Unknown"` fallback of `split('/').last()` cannot happen, because a split always has a last piece.
- `OriginLayer.h` declares `ModifiedRequest` `const` and then assigns its `Url`, which relies on the field being `mutable`; the model simply sets the URL.
- `BanetteHttp.BuildHttpRequest`: header lookups are stated for a record whose keys are unique, which every `TMap` is.
