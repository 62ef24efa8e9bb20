/** `infer_format` of the spec loader: the file format chosen from the
    path's suffix. Reading the file or URL is not part of this model. */
module Loader {
  import opened Wrappers
  import opened Strings
  import opened Errors

  datatype SpecFormat = JsonFormat | YamlFormat

  /** `.json` is checked first, then `.yaml` and `.yml`; the comparison is case
      sensitive, and any other path is an error that names it. */
  function InferFormat(path: string): (r: Result<SpecFormat, FilterError>)
    ensures r == Success(JsonFormat) <==> EndsWith(path, ".json")
    ensures r == Success(YamlFormat) <==> EndsWith(path, ".yaml") || EndsWith(path, ".yml")
    ensures r.Failure? ==> r.error == FormatUndetected(path)
  {
    SuffixesExclusive(path);
    if EndsWith(path, ".json") then Success(JsonFormat)
    else if EndsWith(path, ".yaml") || EndsWith(path, ".yml") then Success(YamlFormat)
    else Failure(FormatUndetected(path))
  }

  /** No path ends with both a JSON and a YAML suffix, so the order of the
      tests does not matter. */
  lemma SuffixesExclusive(path: string)
    ensures !(EndsWith(path, ".json") && (EndsWith(path, ".yaml") || EndsWith(path, ".yml")))
  {
    if EndsWith(path, ".json") {
      var n := |path|;
      assert path[n - 1] == 'n' by { assert path[n - 5..][4] == path[n - 1]; }
      assert path[n - 4..][3] == path[n - 1];
      assert n >= 5 ==> path[n - 5..][4] == path[n - 1];
    }
  }

  lemma EndsWithConcat(stem: string, suffix: string)
    ensures EndsWith(stem + suffix, suffix)
  {
    assert (stem + suffix)[|stem|..] == suffix;
  }

  /** Every stem with a recognised suffix is accepted. */
  lemma SuffixDecides(stem: string)
    ensures InferFormat(stem + ".json") == Success(JsonFormat)
    ensures InferFormat(stem + ".yaml") == Success(YamlFormat)
    ensures InferFormat(stem + ".yml") == Success(YamlFormat)
  {
    EndsWithConcat(stem, ".json");
    EndsWithConcat(stem, ".yaml");
    EndsWithConcat(stem, ".yml");
  }

  /** An upper-case suffix is not recognised. */
  lemma UpperCaseSuffixRejected(stem: string)
    ensures InferFormat(stem + ".JSON") == Failure(FormatUndetected(stem + ".JSON"))
  {
    var p := stem + ".JSON";
    assert p[|p| - 1] == 'N';
  }
}
