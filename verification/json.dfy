/** The JSON value tree the generator filters receive (serde_json `Value`).
    Objects are association lists in iteration order; numbers are integers. */
module Json {
  import opened Wrappers

  datatype Value =
    | Null
    | Bool(b: bool)
    | Num(n: int)
    | Str(s: string)
    | Arr(elems: seq<Value>)
    | Obj(fields: seq<(string, Value)>)

  /** The keys of an object's fields, in iteration order. */
  function Keys(fields: seq<(string, Value)>): (r: seq<string>)
    ensures |r| == |fields|
    ensures forall i :: 0 <= i < |fields| ==> r[i] == fields[i].0
  {
    seq(|fields|, i requires 0 <= i < |fields| => fields[i].0)
  }

  /** Index of the first field named `key` at or after `from`, or -1. */
  function IndexFrom(fields: seq<(string, Value)>, key: string, from: nat): (i: int)
    requires from <= |fields|
    ensures i == -1 || (from <= i < |fields| && fields[i].0 == key)
    ensures i >= 0 ==> forall j :: from <= j < i ==> fields[j].0 != key
    ensures i < 0 ==> forall j :: from <= j < |fields| ==> fields[j].0 != key
    decreases |fields| - from
  {
    if from == |fields| then -1
    else if fields[from].0 == key then from
    else IndexFrom(fields, key, from + 1)
  }

  /** Index of the first field named `key`, or -1 when there is none. */
  function IndexOf(fields: seq<(string, Value)>, key: string): (i: int)
    ensures i == -1 || (0 <= i < |fields| && fields[i].0 == key)
    ensures i >= 0 ==> forall j :: 0 <= j < i ==> fields[j].0 != key
    ensures i < 0 <==> key !in Keys(fields)
  {
    IndexFrom(fields, key, 0)
  }

  /** Member lookup (`Value::get` with a string index): `None` for a missing
      key and for every value that is not an object. The value found is a
      proper part of `v`, which lets recursive descents terminate. */
  function Get(v: Value, key: string): (r: Option<Value>)
    ensures r.Some? <==> v.Obj? && key in Keys(v.fields)
    ensures r.Some? ==> r.value < v
    ensures r.Some? ==> r.value == v.fields[IndexOf(v.fields, key)].1
  {
    if v.Obj? then
      var i := IndexOf(v.fields, key);
      if i < 0 then None
      else
        assert v.fields[i] in v.fields;
        Some(v.fields[i].1)
    else None
  }

  /** The string held by a `Str` value (`Value::as_str`). */
  function AsStr(v: Value): (r: Option<string>)
    ensures r.Some? <==> v.Str?
    ensures r.Some? ==> v == Str(r.value)
  {
    if v.Str? then Some(v.s) else None
  }

  /** `v.get(key).and_then(as_str)`: the member `key` when it is a string. */
  function GetStr(v: Value, key: string): (r: Option<string>)
    ensures r.Some? <==> Get(v, key).Some? && Get(v, key).value.Str?
    ensures r.Some? ==> Get(v, key) == Some(Str(r.value))
  {
    match Get(v, key)
    case Some(Str(s)) => Some(s)
    case _ => None
  }

  /** The first entry of an object in iteration order, if it has any. */
  function FirstEntry(v: Value): (r: Option<(string, Value)>)
    ensures r.Some? <==> v.Obj? && |v.fields| > 0
    ensures r.Some? ==> r.value == v.fields[0]
  {
    if v.Obj? && |v.fields| > 0 then Some(v.fields[0]) else None
  }

  /** Set member `key` to `x`: the first field with that key takes the new
      value in place, or a new field is appended. */
  function SetField(fields: seq<(string, Value)>, key: string, x: Value): (r: seq<(string, Value)>)
    ensures key in Keys(fields) ==> |r| == |fields|
    ensures key !in Keys(fields) ==> r == fields + [(key, x)]
  {
    var i := IndexOf(fields, key);
    if i < 0 then fields + [(key, x)] else fields[i := (key, x)]
  }

  lemma GetSetSame(fields: seq<(string, Value)>, key: string, x: Value)
    ensures Get(Obj(SetField(fields, key, x)), key) == Some(x)
  {
    var r := SetField(fields, key, x);
    var i := IndexOf(fields, key);
    if i < 0 {
      assert Keys(r)[|fields|] == key;
      assert forall j :: 0 <= j < |fields| ==> r[j].0 != key;
    } else {
      assert Keys(r)[i] == key;
      assert forall j :: 0 <= j < i ==> r[j].0 != key;
    }
  }

  lemma GetSetOther(fields: seq<(string, Value)>, key: string, x: Value, other: string)
    requires other != key
    ensures Get(Obj(SetField(fields, key, x)), other) == Get(Obj(fields), other)
  {
    var r := SetField(fields, key, x);
    var i := IndexOf(fields, key);
    assert forall j :: 0 <= j < |fields| ==> (r[j].0 == other <==> fields[j].0 == other);
    assert forall j :: 0 <= j < |fields| ==> (r[j].0 == other ==> r[j] == fields[j]);
    if i < 0 {
      assert r[|fields|].0 != other;
    }
    var a := IndexOf(r, other);
    var b := IndexOf(fields, other);
    if b >= 0 {
      assert Keys(r)[b] == other;
    }
    if a >= 0 && a < |fields| {
      assert Keys(fields)[a] == other;
    }
  }
}
