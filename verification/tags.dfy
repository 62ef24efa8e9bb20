/** `tags_to_pipe_separated`: an operation's tag array written as one
    `|`-separated string. */
module Tags {
  import opened Wrappers
  import opened Strings
  import opened Json
  import opened Errors

  /** Every element is a string. */
  predicate AllStrings(xs: seq<Value>) {
    forall i :: 0 <= i < |xs| ==> xs[i].Str?
  }

  /** The strings of an all-string array, in order. */
  function Strs(xs: seq<Value>): (r: seq<string>)
    requires AllStrings(xs)
    ensures |r| == |xs|
    ensures forall i :: 0 <= i < |xs| ==> xs[i] == Str(r[i])
  {
    seq(|xs|, i requires 0 <= i < |xs| => xs[i].s)
  }

  /** The filter: `NotAnArray` for a non-array input; otherwise the elements
      are read in order and the first one that is not a string stops the
      filter with its index; when all are strings they are joined by `|`. */
  method TagsToPipeSeparated(v: Value) returns (r: Result<string, FilterError>)
    ensures !v.Arr? ==> r == Failure(NotAnArray)
    ensures v.Arr? && AllStrings(v.elems) ==> r == Success(Join(Strs(v.elems), "|"))
    ensures v.Arr? && !AllStrings(v.elems) ==>
              r.Failure? && r.error.ElementNotString? && r.error.index < |v.elems|
              && !v.elems[r.error.index].Str?
              && AllStrings(v.elems[..r.error.index])
  {
    if !v.Arr? {
      return Failure(NotAnArray);
    }
    var xs := v.elems;
    var tags: seq<string> := [];
    var i := 0;
    while i < |xs|
      invariant 0 <= i <= |xs|
      invariant |tags| == i
      invariant forall j :: 0 <= j < i ==> xs[j] == Str(tags[j])
    {
      if !xs[i].Str? {
        assert AllStrings(xs[..i]) by {
          forall j | 0 <= j < i ensures xs[..i][j].Str? {
            assert xs[..i][j] == xs[j];
          }
        }
        return Failure(ElementNotString(i));
      }
      tags := tags + [xs[i].s];
      i := i + 1;
    }
    assert tags == Strs(xs);
    return Success(Join(tags, "|"));
  }

  /** The joined string splits on `|` back into the tags when no tag holds
      a `|`; the characters of each tag are kept as they are. */
  lemma PipeRoundTrip(tags: seq<string>)
    requires |tags| > 0
    requires forall i :: 0 <= i < |tags| ==> '|' !in tags[i]
    ensures Split(Join(tags, "|"), '|') == tags
  {
    SplitJoin(tags, '|');
  }

  /** No tags give the empty string, and one tag gives itself. */
  lemma FewTags(t: string)
    ensures Join(Strs([]), "|") == ""
    ensures Join(Strs([Str(t)]), "|") == t
  {
    assert Strs([Str(t)]) == [t];
  }
}
