/** Resolution of an OpenAPI / JSON Schema node to the name of the Unreal C++
    type the generated code uses for it (the `to_ue_type` filter), and the
    older resolver kept in the combined filter file. */
module SchemaType {
  import opened Wrappers
  import opened Strings
  import opened Json

  // ---------------------------------------------------------------------
  // The `type` keyword, including nullable type unions
  // ---------------------------------------------------------------------

  /** An entry of a `type` array that names a concrete (non-null) type. */
  predicate IsConcrete(v: Value) {
    v.Str? && v.s != "null"
  }

  /** The string entries of a `type` array other than "null", in order. */
  function ConcreteTypes(a: seq<Value>): (r: seq<string>)
    ensures |r| <= |a|
    ensures forall t :: t in r <==> Str(t) in a && t != "null"
    decreases |a|
  {
    if |a| == 0 then []
    else
      assert a == [a[0]] + a[1..];
      (if IsConcrete(a[0]) then [a[0].s] else []) + ConcreteTypes(a[1..])
  }

  /** Entry `i` is the one and only concrete entry of `a`. */
  predicate SoleConcreteAt(a: seq<Value>, i: int) {
    0 <= i < |a| && IsConcrete(a[i])
    && forall j :: 0 <= j < |a| && j != i ==> !IsConcrete(a[j])
  }

  lemma NoConcrete(a: seq<Value>)
    ensures ConcreteTypes(a) == [] <==> forall j :: 0 <= j < |a| ==> !IsConcrete(a[j])
  {
    if ConcreteTypes(a) != [] {
      var t := ConcreteTypes(a)[0];
      assert t in ConcreteTypes(a);
      var j :| 0 <= j < |a| && a[j] == Str(t);
      assert IsConcrete(a[j]);
    } else {
      forall j | 0 <= j < |a| ensures !IsConcrete(a[j]) {
        assert a[j] in a;
      }
    }
  }

  /** The concrete types of a union number exactly one iff a single entry is
      concrete, and then that entry is the one found. */
  lemma {:induction false} SoleConcrete(a: seq<Value>)
    ensures |ConcreteTypes(a)| == 1 <==> exists i :: SoleConcreteAt(a, i)
    ensures forall i :: SoleConcreteAt(a, i) ==> ConcreteTypes(a) == [a[i].s]
    decreases |a|
  {
    if |a| > 0 {
      var rest := a[1..];
      SoleConcrete(rest);
      NoConcrete(rest);
      if IsConcrete(a[0]) {
        assert ConcreteTypes(a) == [a[0].s] + ConcreteTypes(rest);
        forall i | SoleConcreteAt(a, i) ensures i == 0 {
        }
        if forall j :: 0 <= j < |rest| ==> !IsConcrete(rest[j]) {
          assert SoleConcreteAt(a, 0);
        }
      } else {
        assert ConcreteTypes(a) == ConcreteTypes(rest);
        forall i | SoleConcreteAt(a, i) ensures SoleConcreteAt(rest, i - 1) {
        }
        forall i | SoleConcreteAt(rest, i) ensures SoleConcreteAt(a, i + 1) {
        }
      }
    }
  }

  /** The schema's `type` keyword names the single type `t`: either it is the
      string `t`, or it is an array whose only concrete entry is `t`. */
  predicate DeclaresType(schema: Value, t: string) {
    match Get(schema, "type")
    case Some(Str(u)) => u == t
    case Some(Arr(a)) => exists i :: 0 <= i < |a| && SoleConcreteAt(a, i) && a[i].s == t
    case _ => false
  }

  /** The type the resolver acts on: the declared type, or "object" when
      the `type` keyword is missing or does not single out one type. */
  function EffectiveType(schema: Value): (r: string)
    ensures forall t :: DeclaresType(schema, t) ==> r == t
    ensures (forall t :: !DeclaresType(schema, t)) ==> r == "object"
  {
    match Get(schema, "type")
    case Some(Str(u)) =>
      assert DeclaresType(schema, u);
      u
    case Some(Arr(a)) =>
      SoleConcrete(a);
      var c := ConcreteTypes(a);
      if |c| == 1 then
        assert DeclaresType(schema, c[0]);
        c[0]
      else "object"
    case _ => "object"
  }

  /** For any type other than the "object" fallback, the effective type is
      `t` exactly when the schema declares `t`. */
  lemma EffectiveTypeIff(schema: Value, t: string)
    requires t != "object"
    ensures EffectiveType(schema) == t <==> DeclaresType(schema, t)
  {
    if !(forall u :: !DeclaresType(schema, u)) {
      var u :| DeclaresType(schema, u);
      assert EffectiveType(schema) == u;
    }
  }

  // ---------------------------------------------------------------------
  // `$ref` targets
  // ---------------------------------------------------------------------

  /** The text after the last `/` of a reference (`split('/').last()`). */
  function LastSegment(ref: string): string {
    var parts := Split(ref, '/');
    parts[|parts| - 1]
  }

  /** The last segment is the longest suffix of the reference free of `/`. */
  lemma LastSegmentIsSuffix(ref: string)
    ensures '/' !in LastSegment(ref)
    ensures EndsWith(ref, LastSegment(ref))
    ensures |LastSegment(ref)| == |ref| || ref[|ref| - |LastSegment(ref)| - 1] == '/'
  {
    SplitLastPiece(ref, '/');
  }

  /** A `/`-free suffix is no longer than a suffix preceded by `/`. */
  lemma FreeSuffixBound(ref: string, x: string, y: string)
    requires EndsWith(ref, x) && (|x| == |ref| || ref[|ref| - |x| - 1] == '/')
    requires EndsWith(ref, y) && '/' !in y
    ensures |y| <= |x|
  {
    forall q | |ref| - |y| <= q < |ref| ensures ref[q] != '/' {
      assert ref[q] == y[q - (|ref| - |y|)];
      assert y[q - (|ref| - |y|)] in y;
    }
  }

  /** Those three facts single the last segment out. */
  lemma LastSegmentUnique(ref: string, seg: string)
    requires '/' !in seg && EndsWith(ref, seg)
    requires |seg| == |ref| || ref[|ref| - |seg| - 1] == '/'
    ensures LastSegment(ref) == seg
  {
    var l := LastSegment(ref);
    LastSegmentIsSuffix(ref);
    FreeSuffixBound(ref, l, seg);
    FreeSuffixBound(ref, seg, l);
  }

  /** The segment after a final `/` is the name that follows it. */
  lemma LastSegmentAfterSlash(prefix: string, name: string)
    requires '/' !in name
    ensures LastSegment(prefix + "/" + name) == name
  {
    var ref := prefix + "/" + name;
    assert ref[|ref| - |name|..] == name;
    assert ref[|ref| - |name| - 1] == '/';
    LastSegmentUnique(ref, name);
  }

  /** The `$ref` of a schema when it is a string. */
  function RefOf(schema: Value): Option<string> {
    GetStr(schema, "$ref")
  }

  // ---------------------------------------------------------------------
  // The resolver
  // ---------------------------------------------------------------------

  /** The UE integer type selected by an integer schema's `format`. */
  function IntegerName(format: Option<string>): (r: string)
    ensures r == "int64" <==> format == Some("int64")
    ensures r == "uint8" <==> format == Some("uint")
    ensures r != "int64" && r != "uint8" ==> r == "int32"
  {
    if format == Some("int64") then "int64"
    else if format == Some("uint") then "uint8"
    else "int32"
  }

  /** `get_cpp_type`: the UE type name of a schema node. Boolean schemas and
      string `$ref`s are decided before any other keyword is read; arrays
      recurse into `items`; everything unrecognised is `FInstancedStruct`. */
  function ToUeType(schema: Value): (r: string)
    ensures |r| > 0
    ensures schema == Bool(true) ==> r == "FInstancedStruct"
    ensures schema == Bool(false) ==> r == "void*"
    ensures !schema.Bool? && RefOf(schema).Some? ==> r == "F" + LastSegment(RefOf(schema).value)
    decreases schema
  {
    if schema.Bool? then
      if schema.b then "FInstancedStruct" else "void*"
    else if RefOf(schema).Some? then
      "F" + LastSegment(RefOf(schema).value)
    else
      var t := EffectiveType(schema);
      if t == "string" then "FString"
      else if t == "integer" then IntegerName(GetStr(schema, "format"))
      else if t == "number" then "float"
      else if t == "boolean" then "bool"
      else if t == "array" then
        match Get(schema, "items")
        case Some(items) => "TArray<" + ToUeType(items) + ">"
        case None => "TArray<FInstancedStruct>"
      else "FInstancedStruct"
  }

  // ---------------------------------------------------------------------
  // Reference reading: what a schema denotes, and how UE spells it
  // ---------------------------------------------------------------------

  datatype IntWidth = Int32 | Int64 | UInt8

  /** What a schema node denotes (JSON Schema / OpenAPI semantics). */
  datatype Kind =
    | AnyValue                 // the `true` schema, objects and unrecognised types
    | NoValue                  // the `false` schema: no instance is valid
    | Named(name: string)      // a reference to a named component
    | Text
    | Integer(width: IntWidth)
    | Number
    | Boolean
    | ListOf(items: Kind)      // an array; absent `items` allow any element

  function WidthOf(format: Option<string>): IntWidth {
    match format
    case Some(f) => if f == "int64" then Int64 else if f == "uint" then UInt8 else Int32
    case None => Int32
  }

  /** The meaning of a schema node, read keyword by keyword. */
  function Classify(schema: Value): Kind
    decreases schema
  {
    if schema.Bool? then
      if schema.b then AnyValue else NoValue
    else
      match RefOf(schema)
      case Some(ref) => Named(LastSegment(ref))
      case None =>
        if DeclaresType(schema, "string") then Text
        else if DeclaresType(schema, "integer") then Integer(WidthOf(GetStr(schema, "format")))
        else if DeclaresType(schema, "number") then Number
        else if DeclaresType(schema, "boolean") then Boolean
        else if DeclaresType(schema, "array") then
          match Get(schema, "items")
          case Some(items) => ListOf(Classify(items))
          case None => ListOf(AnyValue)
        else AnyValue
  }

  /** The UE spelling of each kind. */
  function UeName(k: Kind): string {
    match k
    case AnyValue => "FInstancedStruct"
    case NoValue => "void*"
    case Named(n) => "F" + n
    case Text => "FString"
    case Integer(w) => (match w case Int32 => "int32" case Int64 => "int64" case UInt8 => "uint8")
    case Number => "float"
    case Boolean => "bool"
    case ListOf(items) => "TArray<" + UeName(items) + ">"
  }

  /** The five recognised type names are read the same way by both. */
  lemma DeclaredTypes(schema: Value)
    ensures forall t :: t in ["string", "integer", "number", "boolean", "array"] ==>
              (EffectiveType(schema) == t <==> DeclaresType(schema, t))
  {
    EffectiveTypeIff(schema, "string");
    EffectiveTypeIff(schema, "integer");
    EffectiveTypeIff(schema, "number");
    EffectiveTypeIff(schema, "boolean");
    EffectiveTypeIff(schema, "array");
  }

  lemma WidthSpelling(format: Option<string>)
    ensures UeName(Integer(WidthOf(format))) == IntegerName(format)
  {
  }

  lemma SpellsScalarKind(schema: Value)
    requires !schema.Bool? && RefOf(schema).None? && EffectiveType(schema) != "array"
    ensures ToUeType(schema) == UeName(Classify(schema))
  {
    var t := EffectiveType(schema);
    EffectiveTypeIff(schema, "string");
    if t != "string" {
      EffectiveTypeIff(schema, "integer");
      if t == "integer" {
        WidthSpelling(GetStr(schema, "format"));
      } else {
        EffectiveTypeIff(schema, "number");
        EffectiveTypeIff(schema, "boolean");
        EffectiveTypeIff(schema, "array");
      }
    }
  }

  lemma ArrayKind(schema: Value)
    requires !schema.Bool? && RefOf(schema).None? && EffectiveType(schema) == "array"
    ensures Get(schema, "items").None? ==> Classify(schema) == ListOf(AnyValue)
    ensures Get(schema, "items").Some? ==> Classify(schema) == ListOf(Classify(Get(schema, "items").value))
    ensures Get(schema, "items").None? ==> ToUeType(schema) == "TArray<FInstancedStruct>"
    ensures Get(schema, "items").Some? ==>
              ToUeType(schema) == "TArray<" + ToUeType(Get(schema, "items").value) + ">"
  {
    DeclaredTypes(schema);
  }

  /** An array is spelled right once its items are. */
  lemma ArraySpellsKind(schema: Value)
    requires !schema.Bool? && RefOf(schema).None? && EffectiveType(schema) == "array"
    requires Get(schema, "items").Some? ==>
               ToUeType(Get(schema, "items").value) == UeName(Classify(Get(schema, "items").value))
    ensures ToUeType(schema) == UeName(Classify(schema))
  {
    ArrayKind(schema);
  }

  /** The resolver is the UE spelling of what the schema denotes. */
  lemma {:induction false} ToUeTypeSpellsKind(schema: Value)
    ensures ToUeType(schema) == UeName(Classify(schema))
    decreases schema
  {
    if schema.Bool? || RefOf(schema).Some? {
    } else if EffectiveType(schema) == "array" {
      var items := Get(schema, "items");
      if items.Some? {
        ToUeTypeSpellsKind(items.value);
      }
      ArraySpellsKind(schema);
    } else {
      SpellsScalarKind(schema);
    }
  }

  /** A reference to a schema component resolves to the component's name
      after `F`. */
  lemma ComponentRef(name: string)
    requires '/' !in name
    ensures ToUeType(Obj([("$ref", Str("#/components/schemas/" + name))])) == "F" + name
  {
    var ref := "#/components/schemas/" + name;
    assert ref == "#/components/schemas" + "/" + name;
    LastSegmentAfterSlash("#/components/schemas", name);
    assert RefOf(Obj([("$ref", Str(ref))])) == Some(ref);
  }

  lemma StringComponentRef()
    ensures ToUeType(Obj([("$ref", Str("#/components/schemas/String"))])) == "FString"
  {
    ComponentRef("String");
    assert "#/components/schemas/" + "String" == "#/components/schemas/String";
    assert "F" + "String" == "FString";
  }

  lemma StringTypeSchema()
    ensures ToUeType(Obj([("type", Str("string"))])) == "FString"
  {
    var t := Obj([("type", Str("string"))]);
    assert "type" != "$ref";
    assert RefOf(t) == None;
    assert Get(t, "type") == Some(Str("string"));
    assert DeclaresType(t, "string");
  }

  /** A component reference can collide with a built-in spelling: a schema
      named `String` and a string schema both become `FString`. */
  lemma ComponentNameClash()
    ensures ToUeType(Obj([("$ref", Str("#/components/schemas/String"))]))
            == ToUeType(Obj([("type", Str("string"))]))
  {
    StringComponentRef();
    StringTypeSchema();
  }

  // ---------------------------------------------------------------------
  // Properties of the resolver
  // ---------------------------------------------------------------------

  /** Making a type nullable does not change its UE type: replacing the
      `type` string `t` by any array whose only concrete entry is `t` (such as
      `[t, "null"]` or `["null", t]`) resolves identically. */
  lemma NullableResolvesAsBase(fields: seq<(string, Value)>, t: string, a: seq<Value>, i: int)
    requires Get(Obj(fields), "type") == Some(Str(t)) && t != "null"
    requires SoleConcreteAt(a, i) && a[i] == Str(t)
    ensures ToUeType(Obj(SetField(fields, "type", Arr(a)))) == ToUeType(Obj(fields))
  {
    var g := Obj(SetField(fields, "type", Arr(a)));
    GetSetSame(fields, "type", Arr(a));
    GetSetOther(fields, "type", Arr(a), "$ref");
    GetSetOther(fields, "type", Arr(a), "format");
    GetSetOther(fields, "type", Arr(a), "items");
    assert DeclaresType(g, t);
    assert DeclaresType(Obj(fields), t);
    assert EffectiveType(g) == EffectiveType(Obj(fields));
  }

  /** An integer schema resolves by its format alone: `int64` and `uint` are
      special, any other format, or none, gives `int32`. */
  lemma IntegerByFormat(schema: Value)
    requires !schema.Bool? && RefOf(schema).None? && DeclaresType(schema, "integer")
    ensures ToUeType(schema) == (match GetStr(schema, "format")
                                 case Some(f) => if f == "int64" then "int64"
                                                 else if f == "uint" then "uint8" else "int32"
                                 case None => "int32")
  {
  }

  /** An array schema resolves to `TArray` of its items' type, whatever its
      other keywords, and to `TArray<FInstancedStruct>` without `items`. */
  lemma ArrayWrapsItems(schema: Value)
    requires !schema.Bool? && RefOf(schema).None? && DeclaresType(schema, "array")
    ensures Get(schema, "items").Some? ==>
              ToUeType(schema) == "TArray<" + ToUeType(Get(schema, "items").value) + ">"
    ensures Get(schema, "items").None? ==> ToUeType(schema) == "TArray<FInstancedStruct>"
  {
  }

  /** Every node that is neither a boolean, a reference, nor one of the five
      recognised types resolves to `FInstancedStruct`. */
  lemma OthersAreInstancedStruct(schema: Value)
    requires !schema.Bool? && RefOf(schema).None?
    requires forall t :: t in ["string", "integer", "number", "boolean", "array"] ==> !DeclaresType(schema, t)
    ensures ToUeType(schema) == "FInstancedStruct"
  {
    var e := EffectiveType(schema);
    if e in ["string", "integer", "number", "boolean", "array"] {
      assert !DeclaresType(schema, e);
      assert forall t :: !DeclaresType(schema, t);
    }
  }

  // ---------------------------------------------------------------------
  // The older resolver of the combined filter file
  // ---------------------------------------------------------------------

  /** The older `get_cpp_type`: `type` is read only as a string, and only the
      `int64` format is special. */
  function LegacyToUeType(schema: Value): (r: string)
    ensures |r| > 0
    ensures schema == Bool(true) ==> r == "FInstancedStruct"
    ensures schema == Bool(false) ==> r == "void*"
    ensures !schema.Bool? && RefOf(schema).Some? ==> r == "F" + LastSegment(RefOf(schema).value)
    decreases schema
  {
    if schema.Bool? then
      if schema.b then "FInstancedStruct" else "void*"
    else if RefOf(schema).Some? then
      "F" + LastSegment(RefOf(schema).value)
    else
      var t := GetStr(schema, "type").GetOr("object");
      if t == "string" then "FString"
      else if t == "integer" then (if GetStr(schema, "format") == Some("int64") then "int64" else "int32")
      else if t == "number" then "float"
      else if t == "boolean" then "bool"
      else if t == "array" then
        match Get(schema, "items")
        case Some(items) => "TArray<" + LegacyToUeType(items) + ">"
        case None => "TArray<FInstancedStruct>"
      else "FInstancedStruct"
  }

  /** A node (and, through `items`, every node below it) on which the two
      resolvers read the same thing: no `type` array, no `uint` integer. */
  predicate LegacyCompatible(schema: Value)
    decreases schema
  {
    schema.Bool? || RefOf(schema).Some? ||
    (!(Get(schema, "type").Some? && Get(schema, "type").value.Arr?)
     && (DeclaresType(schema, "integer") ==> GetStr(schema, "format") != Some("uint"))
     && (DeclaresType(schema, "array") && Get(schema, "items").Some? ==>
           LegacyCompatible(Get(schema, "items").value)))
  }

  lemma {:induction false} LegacyAgrees(schema: Value)
    requires LegacyCompatible(schema)
    ensures LegacyToUeType(schema) == ToUeType(schema)
    decreases schema
  {
    if !schema.Bool? && RefOf(schema).None? {
      var t := GetStr(schema, "type").GetOr("object");
      assert EffectiveType(schema) == t;
      if t == "array" {
        match Get(schema, "items")
        case Some(items) => LegacyAgrees(items);
        case None =>
      }
    }
  }

  /** The older resolver ignores nullable unions: any `type` array gives
      `FInstancedStruct`. */
  lemma LegacyIgnoresTypeArrays(schema: Value)
    requires !schema.Bool? && RefOf(schema).None?
    requires Get(schema, "type").Some? && Get(schema, "type").value.Arr?
    ensures LegacyToUeType(schema) == "FInstancedStruct"
  {
  }

  /** On `format: "uint"` the two resolvers part: `int32` against `uint8`. */
  lemma LegacyUintIsInt32()
    ensures LegacyToUeType(Obj([("type", Str("integer")), ("format", Str("uint"))])) == "int32"
    ensures ToUeType(Obj([("type", Str("integer")), ("format", Str("uint"))])) == "uint8"
  {
    var s := Obj([("type", Str("integer")), ("format", Str("uint"))]);
    assert Get(s, "type") == Some(Str("integer"));
    assert Get(s, "format") == Some(Str("uint"));
    assert Get(s, "$ref") == None;
  }

  // ---------------------------------------------------------------------
  // Worked examples
  // ---------------------------------------------------------------------

  /** `["null", "integer"]` with `int64` is `int64`. */
  lemma NullFirstExample()
    ensures ToUeType(Obj([("type", Arr([Str("null"), Str("integer")])), ("format", Str("int64"))])) == "int64"
  {
    var a := [Str("null"), Str("integer")];
    var s := Obj([("type", Arr(a)), ("format", Str("int64"))]);
    assert Get(s, "type") == Some(Arr(a));
    assert "type" != "format";
    assert IndexFrom(s.fields, "format", 1) == 1;
    assert Get(s, "format") == Some(Str("int64"));
    assert Get(s, "$ref") == None;
    assert SoleConcreteAt(a, 1);
    assert DeclaresType(s, "integer");
  }

  /** `["null"]` alone falls back to `FInstancedStruct`. */
  lemma OnlyNullExample()
    ensures ToUeType(Obj([("type", Arr([Str("null")]))])) == "FInstancedStruct"
  {
    var b := [Str("null")];
    var s := Obj([("type", Arr(b))]);
    assert Get(s, "type") == Some(Arr(b));
    assert Get(s, "$ref") == None;
    assert ConcreteTypes(b) == [];
  }

  /** Two concrete types, `["integer", "string", "null"]`, fall back too. */
  lemma TwoConcreteTypesExample()
    ensures ToUeType(Obj([("type", Arr([Str("integer"), Str("string"), Str("null")]))])) == "FInstancedStruct"
  {
    var c := [Str("integer"), Str("string"), Str("null")];
    var s := Obj([("type", Arr(c))]);
    assert Get(s, "type") == Some(Arr(c));
    assert Get(s, "$ref") == None;
    TwoConcreteTypes();
    assert EffectiveType(s) == "object";
  }

  lemma TwoConcreteTypes()
    ensures ConcreteTypes([Str("integer"), Str("string"), Str("null")]) == ["integer", "string"]
  {
    var c := [Str("integer"), Str("string"), Str("null")];
    assert ConcreteTypes(c[2..]) == [];
    assert ConcreteTypes(c[1..]) == ["string"];
  }

  /** An array of `CharacterResponse` references. */
  function CharacterListSchema(): Value {
    Obj([("type", Str("array")), ("items", Obj([("$ref", Str("#/components/schemas/CharacterResponse"))]))])
  }

  lemma SpelledOut()
    ensures "#/components/schemas/" + "CharacterResponse" == "#/components/schemas/CharacterResponse"
    ensures "F" + "CharacterResponse" == "FCharacterResponse"
    ensures "TArray<" + "FCharacterResponse" + ">" == "TArray<FCharacterResponse>"
  {
  }

  lemma CharacterRefExample()
    ensures ToUeType(Obj([("$ref", Str("#/components/schemas/CharacterResponse"))])) == "FCharacterResponse"
  {
    ComponentRef("CharacterResponse");
    SpelledOut();
  }

  /** The array of references resolves to `TArray<FCharacterResponse>`. */
  lemma CharacterListTypeExample()
    ensures ToUeType(CharacterListSchema()) == "TArray<FCharacterResponse>"
  {
    var schema := CharacterListSchema();
    var items := Obj([("$ref", Str("#/components/schemas/CharacterResponse"))]);
    CharacterRefExample();
    SpelledOut();
    assert "type" != "$ref" && "items" != "$ref" && "type" != "items";
    assert IndexFrom(schema.fields, "items", 1) == 1;
    assert Get(schema, "items") == Some(items);
    assert RefOf(schema) == None;
    assert Get(schema, "type") == Some(Str("array"));
    assert DeclaresType(schema, "array");
    ArrayWrapsItems(schema);
  }
}
