/** The identifier synthesiser: `path_to_func_name` builds a C++ function
    name from an HTTP verb and an OpenAPI path template, using
    `convert_to_pascal_case` on every segment. Case mapping is ASCII. */
module FuncName {
  import opened Wrappers
  import opened Strings
  import opened Json
  import opened Errors

  // ---------------------------------------------------------------------
  // PascalCase conversion
  // ---------------------------------------------------------------------

  /** `_` and `-` separate words. */
  predicate IsSeparator(c: char) {
    c == '_' || c == '-'
  }

  /** The conversion loop from a given state of the capitalise-next flag:
      separators are dropped and set the flag, an uppercase letter is kept and
      clears it, any other character is uppercased when the flag is set. */
  function PascalFrom(s: string, capitalizeNext: bool): (r: string)
    ensures |r| <= |s|
    ensures forall i :: 0 <= i < |r| ==> !IsSeparator(r[i])
    ensures r == "" <==> forall i :: 0 <= i < |s| ==> IsSeparator(s[i])
    decreases |s|
  {
    if |s| == 0 then ""
    else
      var c := s[0];
      var rest := s[1..];
      if IsSeparator(c) then PascalFrom(rest, true)
      else if IsAsciiUpper(c) then [c] + PascalFrom(rest, false)
      else if capitalizeNext then [AsciiUpperChar(c)] + PascalFrom(rest, false)
      else [c] + PascalFrom(rest, false)
  }

  /** `convert_to_pascal_case`. */
  function PascalCase(s: string): (r: string)
    ensures forall i :: 0 <= i < |r| ==> !IsSeparator(r[i])
    ensures r == "" <==> forall i :: 0 <= i < |s| ==> IsSeparator(s[i])
  {
    PascalFrom(s, true)
  }

  // Reference reading: capitalise every word

  /** The maximal runs of non-separator characters, including empty runs
      between adjacent separators. */
  function Words(s: string): (r: seq<string>)
    ensures |r| >= 1
    decreases |s|
  {
    if |s| == 0 then [""]
    else
      var w := Words(s[1..]);
      if IsSeparator(s[0]) then [""] + w
      else [[s[0]] + w[0]] + w[1..]
  }

  /** A word with its first letter uppercased. */
  function Capitalize(w: string): string {
    if |w| == 0 then "" else [AsciiUpperChar(w[0])] + w[1..]
  }

  function CapitalizeAll(ws: seq<string>): string
    decreases |ws|
  {
    if |ws| == 0 then "" else Capitalize(ws[0]) + CapitalizeAll(ws[1..])
  }

  lemma {:induction false} PascalFromWords(s: string)
    ensures PascalFrom(s, true) == CapitalizeAll(Words(s))
    ensures PascalFrom(s, false) == Words(s)[0] + CapitalizeAll(Words(s)[1..])
    decreases |s|
  {
    if |s| > 0 {
      var w := Words(s[1..]);
      PascalFromWords(s[1..]);
      if IsSeparator(s[0]) {
        assert Words(s) == [""] + w;
        assert ([""] + w)[1..] == w;
      } else {
        var c := s[0];
        assert Words(s) == [[c] + w[0]] + w[1..];
        assert (([[c] + w[0]] + w[1..])[1..]) == w[1..];
        assert Capitalize([c] + w[0]) == [AsciiUpperChar(c)] + w[0];
        if IsAsciiUpper(c) {
          assert AsciiUpperChar(c) == c;
        }
      }
    }
  }

  /** PascalCase is the concatenation of the capitalised words. */
  lemma PascalCaseCapitalizesWords(s: string)
    ensures PascalCase(s) == CapitalizeAll(Words(s))
  {
    PascalFromWords(s);
  }

  /** Without separators the conversion only uppercases the first letter. */
  lemma {:induction false} PascalNoSeparators(s: string)
    requires forall i :: 0 <= i < |s| ==> !IsSeparator(s[i])
    ensures PascalCase(s) == Capitalize(s)
    ensures PascalFrom(s, false) == s
    decreases |s|
  {
    if |s| > 0 {
      PascalNoSeparators(s[1..]);
      if IsAsciiUpper(s[0]) {
        assert AsciiUpperChar(s[0]) == s[0];
      }
      assert s == [s[0]] + s[1..];
    }
  }

  /** A separator restarts the conversion: the words on either side of it
      convert independently. */
  lemma {:induction false} PascalFromSeparator(x: string, c: char, y: string, capitalizeNext: bool)
    requires IsSeparator(c)
    ensures PascalFrom(x + [c] + y, capitalizeNext) == PascalFrom(x, capitalizeNext) + PascalFrom(y, true)
    decreases |x|
  {
    if |x| == 0 {
      assert x + [c] + y == [c] + y;
      assert ([c] + y)[1..] == y;
    } else {
      assert (x + [c] + y)[0] == x[0];
      assert (x + [c] + y)[1..] == x[1..] + [c] + y;
      PascalFromSeparator(x[1..], c, y, true);
      PascalFromSeparator(x[1..], c, y, false);
    }
  }

  lemma PascalCaseSeparator(x: string, c: char, y: string)
    requires IsSeparator(c)
    ensures PascalCase(x + [c] + y) == PascalCase(x) + PascalCase(y)
  {
    PascalFromSeparator(x, c, y, true);
  }

  /** Converting twice changes nothing. */
  lemma PascalIdempotent(s: string)
    ensures PascalCase(PascalCase(s)) == PascalCase(s)
  {
    var p := PascalCase(s);
    PascalNoSeparators(p);
    if |p| > 0 {
      assert p == [p[0]] + p[1..];
      PascalFirstNotLower(s);
      assert AsciiUpperChar(p[0]) == p[0];
    }
  }

  /** The first character of a conversion is never an ASCII lowercase letter. */
  lemma {:induction false} PascalFirstNotLower(s: string)
    ensures |PascalCase(s)| > 0 ==> !IsAsciiLower(PascalCase(s)[0])
    decreases |s|
  {
    if |s| > 0 && IsSeparator(s[0]) {
      PascalFirstNotLower(s[1..]);
    }
  }

  // ---------------------------------------------------------------------
  // Path segments
  // ---------------------------------------------------------------------

  /** The segments of a path after all leading `/` are removed. */
  function Segments(path: string): (r: seq<string>)
    ensures |r| >= 1
  {
    Split(TrimStartChar(path, '/'), '/')
  }

  /** A segment is a parameter when it is enclosed in braces. */
  predicate IsParam(seg: string) {
    StartsWith(seg, "{") && EndsWith(seg, "}")
  }

  /** The text between the braces of a parameter segment. */
  function ParamName(seg: string): (r: string)
    requires IsParam(seg)
    ensures |r| + 2 == |seg| && seg == "{" + r + "}"
  {
    assert seg[..1][0] == seg[0] == '{';
    assert seg[|seg| - 1..][0] == seg[|seg| - 1] == '}';
    seg[1..|seg| - 1]
  }

  /** The PascalCase names of the literal segments, in path order; empty
      segments are skipped. */
  function LiteralNames(segs: seq<string>): seq<string>
    decreases |segs|
  {
    if |segs| == 0 then []
    else
      var seg := segs[|segs| - 1];
      LiteralNames(segs[..|segs| - 1])
        + (if seg != "" && !IsParam(seg) then [PascalCase(seg)] else [])
  }

  /** The PascalCase names of the parameter segments, in path order; empty
      segments and the empty parameter `{}` are skipped. */
  function ParamNames(segs: seq<string>): seq<string>
    decreases |segs|
  {
    if |segs| == 0 then []
    else
      var seg := segs[|segs| - 1];
      ParamNames(segs[..|segs| - 1])
        + (if seg != "" && IsParam(seg) && ParamName(seg) != "" then [PascalCase(ParamName(seg))] else [])
  }

  /** The segment loop of `path_to_func_name`: every segment goes to exactly
      one of the two lists, or is dropped, and each list keeps path order. */
  method Partition(segs: seq<string>) returns (literals: seq<string>, params: seq<string>)
    ensures literals == LiteralNames(segs)
    ensures params == ParamNames(segs)
  {
    literals := [];
    params := [];
    var i := 0;
    while i < |segs|
      invariant 0 <= i <= |segs|
      invariant literals == LiteralNames(segs[..i])
      invariant params == ParamNames(segs[..i])
    {
      var part := segs[i];
      assert segs[..i + 1][..i] == segs[..i];
      if part != "" {
        if IsParam(part) {
          var name := ParamName(part);
          if name != "" {
            params := params + [PascalCase(name)];
          }
        } else {
          literals := literals + [PascalCase(part)];
        }
      }
      i := i + 1;
    }
    assert segs[..|segs|] == segs;
  }

  /** Both name lists distribute over concatenated segment lists. */
  lemma {:induction false} NamesAppend(a: seq<string>, b: seq<string>)
    ensures LiteralNames(a + b) == LiteralNames(a) + LiteralNames(b)
    ensures ParamNames(a + b) == ParamNames(a) + ParamNames(b)
    decreases |b|
  {
    if |b| > 0 {
      var b' := b[..|b| - 1];
      assert (a + b)[..|a + b| - 1] == a + b';
      NamesAppend(a, b');
    } else {
      assert a + b == a;
    }
  }

  /** An empty segment contributes nothing, so `//` reads as `/`. */
  lemma EmptySegmentIgnored(a: seq<string>, b: seq<string>)
    ensures LiteralNames(a + [""] + b) == LiteralNames(a + b)
    ensures ParamNames(a + [""] + b) == ParamNames(a + b)
  {
    var x := a + [""];
    EmptySegmentNames();
    NamesAppend(x, b);
    NamesAppend(a, [""]);
    NamesAppend(a, b);
    var la, pa := LiteralNames(a), ParamNames(a);
    assert la + [] == la;
    assert pa + [] == pa;
  }

  lemma EmptySegmentNames()
    ensures LiteralNames([""]) == [] && ParamNames([""]) == []
  {
    assert [""][..0] == [];
  }

  lemma SplitDoubledSlash(x: string, y: string)
    ensures Split(x + "//" + y, '/') == Split(x, '/') + [""] + Split(y, '/')
  {
    assert x + "//" + y == x + ['/'] + (['/'] + y);
    SplitConcat(x, '/', ['/'] + y);
    SplitAtFirst("", '/', y);
    assert "" + ['/'] + y == ['/'] + y;
  }

  lemma SplitSingleSlash(x: string, y: string)
    ensures Split(x + "/" + y, '/') == Split(x, '/') + Split(y, '/')
  {
    assert x + "/" + y == x + ['/'] + y;
    SplitConcat(x, '/', y);
  }

  /** A doubled `/` inside a path yields the same names as a single one. */
  lemma DoubledSlashIgnored(x: string, y: string)
    ensures LiteralNames(Split(x + "//" + y, '/')) == LiteralNames(Split(x + "/" + y, '/'))
    ensures ParamNames(Split(x + "//" + y, '/')) == ParamNames(Split(x + "/" + y, '/'))
  {
    SplitDoubledSlash(x, y);
    SplitSingleSlash(x, y);
    EmptySegmentIgnored(Split(x, '/'), Split(y, '/'));
  }

  // ---------------------------------------------------------------------
  // The function name
  // ---------------------------------------------------------------------

  /** METHOD, then `_` and the literals joined by `_`, then `_By_` and the
      parameters joined by `_`; each group only when non-empty. */
  function ComposeName(verb: string, literals: seq<string>, params: seq<string>): string {
    verb
      + (if |literals| > 0 then "_" + Join(literals, "_") else "")
      + (if |params| > 0 then "_By_" + Join(params, "_") else "")
  }

  /** The composed name splits back on `_` into the verb, the literals, and
      (after a `By` marker) the parameters: no name is lost or reordered. */
  lemma ComposeNameSplits(verb: string, literals: seq<string>, params: seq<string>)
    requires '_' !in verb
    requires forall k :: 0 <= k < |literals| ==> '_' !in literals[k]
    requires forall k :: 0 <= k < |params| ==> '_' !in params[k]
    ensures Split(ComposeName(verb, literals, params), '_')
            == [verb] + literals + (if |params| > 0 then ["By"] + params else [])
  {
    var tail := (if |params| > 0 then ["By"] + params else []);
    var parts := [verb] + literals + tail;
    forall k | 0 <= k < |parts| ensures '_' !in parts[k] {
      if k == 0 {
      } else if k <= |literals| {
        assert parts[k] == literals[k - 1];
      } else {
        assert parts[k] == tail[k - 1 - |literals|];
        if k - 1 - |literals| > 0 {
          assert tail[k - 1 - |literals|] == params[k - 2 - |literals|];
        }
      }
    }
    SplitJoin(parts, '_');
    JoinSections(verb, literals, tail);
    if |params| > 0 {
      JoinCons("By", params, "_");
      assert "_" + Join(tail, "_") == "_By_" + Join(params, "_");
    }
    assert ComposeName(verb, literals, params) == Join(parts, "_");
  }

  /** Joining the verb, literals and trailer with `_` is the composed name. */
  lemma JoinSections(verb: string, literals: seq<string>, tail: seq<string>)
    ensures Join([verb] + literals + tail, "_")
            == verb + (if |literals| > 0 then "_" + Join(literals, "_") else "")
                      + (if |tail| > 0 then "_" + Join(tail, "_") else "")
  {
    JoinConcat([verb], literals, "_");
    JoinConcat([verb] + literals, tail, "_");
    assert Join([verb], "_") == verb;
  }

  /** Join of a concatenation of lists, each side non-empty or not. */
  lemma {:induction false} JoinConcat(a: seq<string>, b: seq<string>, sep: string)
    requires |a| > 0
    ensures Join(a + b, sep) == Join(a, sep) + (if |b| > 0 then sep + Join(b, sep) else "")
    decreases |a|
  {
    if |b| == 0 {
      assert a + b == a;
    } else if |a| == 1 {
      assert a + b == [a[0]] + b;
      JoinCons(a[0], b, sep);
    } else {
      var h, t := a[0], a[1..];
      assert a == [h] + t;
      assert a + b == [h] + (t + b);
      JoinConcat(t, b, sep);
      JoinCons(h, t + b, sep);
      JoinCons(h, t, sep);
      var jt, jb := Join(t, sep), Join(b, sep);
      assert Join(a + b, sep) == h + sep + (jt + sep + jb);
      assert h + sep + (jt + sep + jb) == (h + sep + jt) + sep + jb;
    }
  }

  /** `path_to_func_name`: a non-string path and a missing or non-string
      `method` are errors (the path is checked first); the verb is uppercased. */
  function PathToFuncName(path: Value, verb: Option<Value>): (r: Result<string, FilterError>)
    ensures !path.Str? ==> r == Failure(PathNotString)
    ensures path.Str? && !(verb.Some? && verb.value.Str?) ==> r == Failure(MissingMethod)
    ensures r.Success? ==>
              var segs := Segments(path.s);
              r.value == ComposeName(AsciiUpper(verb.value.s), LiteralNames(segs), ParamNames(segs))
  {
    if !path.Str? then Failure(PathNotString)
    else
      match verb
      case Some(Str(m)) =>
        var segs := Segments(path.s);
        Success(ComposeName(AsciiUpper(m), LiteralNames(segs), ParamNames(segs)))
      case _ => Failure(MissingMethod)
  }


  /** A path written as `/` and its segments joined by `/` has exactly those
      segments, when none contains `/` and the first is not empty. */
  lemma SegmentsOfJoined(parts: seq<string>)
    requires |parts| > 0 && |parts[0]| > 0
    requires forall k :: 0 <= k < |parts| ==> '/' !in parts[k]
    ensures Segments("/" + Join(parts, "/")) == parts
  {
    var j := Join(parts, "/");
    if |parts| > 1 {
      JoinCons(parts[0], parts[1..], "/");
      assert parts == [parts[0]] + parts[1..];
    }
    assert j[0] == parts[0][0];
    assert parts[0][0] in parts[0];
    var p := "/" + j;
    assert SkipForward(p, x => x == '/', 1) == 1;
    assert TrimStartChar(p, '/') == p[1..] == j;
    SplitJoin(parts, '/');
  }
}
