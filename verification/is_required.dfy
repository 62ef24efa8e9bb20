/** `is_required`: whether a property name appears in a schema's `required`
    list. The newer filter module and the older combined one hold identical
    copies. */
module IsRequired {
  import opened Wrappers
  import opened Json
  import opened Errors
  /** `iter().any(|v| v.as_str() == Some(name))`: some element of the list is
      the name as a string; elements that are not strings never match. */
  function AnyNamed(xs: seq<Value>, name: string): (b: bool)
    ensures b <==> exists i :: 0 <= i < |xs| && xs[i] == Str(name)
  {
    if |xs| == 0 then false
    else if AsStr(xs[0]) == Some(name) then true
    else
      var b := AnyNamed(xs[1..], name);
      assert forall i :: 1 <= i < |xs| ==> xs[i] == xs[1..][i - 1];
      b
  }

  /** The filter: `NameNotString` for a non-string name, then
      `RequiredListMissing` unless `required_list` is an array; otherwise
      whether some element is the name as a string. */
  function IsRequired(name: Value, requiredList: Option<Value>): (r: Result<bool, FilterError>)
    ensures !name.Str? ==> r == Failure(NameNotString)
    ensures name.Str? && !(requiredList.Some? && requiredList.value.Arr?) ==> r == Failure(RequiredListMissing)
    ensures r.Success? ==> (r.value <==> Str(name.s) in requiredList.value.elems)
  {
    if !name.Str? then Failure(NameNotString)
    else
      match requiredList
      case Some(Arr(xs)) => Success(AnyNamed(xs, name.s))
      case _ => Failure(RequiredListMissing)
  }

  /** An empty list never requires anything. */
  lemma EmptyListNotRequired(name: string)
    ensures IsRequired(Str(name), Some(Arr([]))) == Success(false)
  {
  }

  /** Elements that are not strings never match: adding them changes nothing. */
  lemma NonStringsIgnored(name: string, xs: seq<Value>, y: Value)
    requires !y.Str?
    ensures IsRequired(Str(name), Some(Arr(xs + [y]))) == IsRequired(Str(name), Some(Arr(xs)))
  {
    var ys := xs + [y];
    assert forall i :: 0 <= i < |xs| ==> ys[i] == xs[i];
    assert Str(name) in ys ==> Str(name) in xs;
  }
}
