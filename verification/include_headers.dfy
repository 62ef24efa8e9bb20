/** The two readers of the generator's extra-header option: the parser's
    `parse_include_headers`, which accepts full `#include` directives or a
    `;`-separated list of header names, and the command-line front end's own
    splitting of `extra_headers`, which knows only full directives. */
module IncludeHeaders {
  import opened Wrappers
  import opened Strings

  /** `filter_map(…).collect()`: the pieces `f` keeps, in order. */
  function Collect(parts: seq<string>, f: string -> Option<string>): (r: seq<string>)
    ensures |r| <= |parts|
    ensures forall i :: 0 <= i < |r| ==> exists j :: 0 <= j < |parts| && f(parts[j]) == Some(r[i])
    ensures (forall j :: 0 <= j < |parts| ==> f(parts[j]).Some?) ==>
              |r| == |parts| && forall i :: 0 <= i < |r| ==> f(parts[i]) == Some(r[i])
  {
    if |parts| == 0 then []
    else
      var rest := Collect(parts[1..], f);
      assert forall j :: 1 <= j < |parts| ==> parts[j] == parts[1..][j - 1];
      match f(parts[0])
      case Some(d) =>
        var r := [d] + rest;
        assert forall i :: 1 <= i < |r| ==> r[i] == rest[i - 1];
        r
      case None => rest
  }

  const IncludeKeyword: string := "#include"

  /** Full mode, one piece: trimmed, dropped when empty, written after
      `#include ` with one trailing `;` removed if it has one. */
  function FullPiece(part: string): (r: Option<string>)
    ensures r.Some? <==> RustTrim(part) != ""
    ensures r.Some? ==> StartsWith(r.value, "#include ")
    ensures r.Some? ==>
              var h := "#include " + RustTrim(part);
              (EndsWith(h, ";") ==> r.value + ";" == h) && (!EndsWith(h, ";") ==> r.value == h)
  {
    var t := RustTrim(part);
    if t == "" then None
    else
      var h := "#include " + t;
      StartsWithConcat("#include ", t);
      if EndsWith(h, ";") then
        var d := h[..|h| - 1];
        assert d + ";" == h;
        assert d[..9] == h[..9];
        Some(d)
      else Some(h)
  }

  /** Simplified mode, one piece: trimmed, dropped when empty, written as
      `#include "piece"`. */
  function SimplePiece(part: string): (r: Option<string>)
    ensures r.Some? <==> RustTrim(part) != ""
    ensures r.Some? ==> r.value == "#include \"" + RustTrim(part) + "\""
  {
    var t := RustTrim(part);
    if t == "" then None else Some("#include \"" + t + "\"")
  }

  /** `d` is the simplified-mode directive of one of `parts`. */
  predicate IsQuotedPiece(d: string, parts: seq<string>) {
    exists j :: 0 <= j < |parts| && d == "#include \"" + RustTrim(parts[j]) + "\""
  }

  /** `parse_include_headers`. */
  function ParseIncludeHeaders(input: string): (r: seq<string>)
    ensures input == "" ==> r == []
    ensures input != "" && Contains(input, IncludeKeyword) ==> r == Collect(SplitOn(input, IncludeKeyword), FullPiece)
    ensures input != "" && !Contains(input, IncludeKeyword) ==> r == Collect(Split(input, ';'), SimplePiece)
    ensures Contains(input, IncludeKeyword) ==> forall i :: 0 <= i < |r| ==> StartsWith(r[i], "#include ")
    ensures !Contains(input, IncludeKeyword) ==> forall i :: 0 <= i < |r| ==> IsQuotedPiece(r[i], Split(input, ';'))
  {
    if input == "" then []
    else if Contains(input, IncludeKeyword) then Collect(SplitOn(input, IncludeKeyword), FullPiece)
    else Collect(Split(input, ';'), SimplePiece)
  }

  /** Collecting keeps the order of the pieces: the directives of two runs of
      pieces are those of the first run followed by those of the second. */
  lemma {:induction false} CollectAppend(a: seq<string>, b: seq<string>, f: string -> Option<string>)
    ensures Collect(a + b, f) == Collect(a, f) + Collect(b, f)
    decreases |a|
  {
    if |a| > 0 {
      assert (a + b)[0] == a[0];
      assert (a + b)[1..] == a[1..] + b;
      CollectAppend(a[1..], b, f);
    } else {
      assert a + b == b;
    }
  }

  /** What a full-mode directive may carry after `#include `: a header
      starting with a non-blank character and not holding the keyword. */
  predicate FullHeader(d: string) {
    |d| > 0 && !RustWhitespace(d[0]) && !Contains(d, IncludeKeyword)
  }

  /** The text between two keywords in a full-mode list: ` header;`. */
  function Pieces(ds: seq<string>): (r: seq<string>)
    ensures |r| == |ds|
    ensures forall i :: 0 <= i < |ds| ==> r[i] == " " + ds[i] + ";"
  {
    if |ds| == 0 then [] else [" " + ds[0] + ";"] + Pieces(ds[1..])
  }

  /** The directives a full-mode list stands for, without their `;`. */
  function Directives(ds: seq<string>): (r: seq<string>)
    ensures |r| == |ds|
    ensures forall i :: 0 <= i < |ds| ==> r[i] == "#include " + ds[i]
  {
    if |ds| == 0 then [] else ["#include " + ds[0]] + Directives(ds[1..])
  }

  /** A full-mode list: every header written as `#include header;`, one after
      the other. */
  function FullList(ds: seq<string>): string {
    if |ds| == 0 then "" else "#include " + ds[0] + ";" + FullList(ds[1..])
  }

  /** A full-mode list is the keyword-joined pieces after an empty lead. */
  lemma {:induction false} FullListIsJoin(ds: seq<string>)
    requires |ds| > 0
    ensures FullList(ds) == IncludeKeyword + Join(Pieces(ds), IncludeKeyword)
    decreases |ds|
  {
    var d, rest := ds[0], ds[1..];
    var piece := " " + d + ";";
    assert "#include " + d + ";" == IncludeKeyword + piece;
    if |rest| == 0 {
      assert Pieces(ds) == [piece];
    } else {
      FullListIsJoin(rest);
      assert Pieces(ds) == [piece] + Pieces(rest);
      JoinCons(piece, Pieces(rest), IncludeKeyword);
    }
  }

  /** One piece of a full-mode list gives back its header's directive. */
  lemma FullPieceOfHeader(d: string)
    requires FullHeader(d)
    ensures FullPiece(" " + d + ";") == Some("#include " + d)
  {
    var x := d + ";";
    assert x[0] == d[0] && x[|x| - 1] == ';';
    TrimAfterSpace(x);
    assert " " + d + ";" == " " + x;
    var h := "#include " + x;
    assert h[|h| - 1] == ';';
    assert h[..|h| - 1] == "#include " + d;
  }

  lemma KeywordLacksSpaceAndSemicolon()
    ensures ' ' !in IncludeKeyword && ';' !in IncludeKeyword
  {
  }

  /** The piece ` header;` does not hold the keyword. */
  lemma PieceKeepsKeywordOut(d: string)
    requires FullHeader(d)
    ensures !Contains(" " + d + ";", IncludeKeyword)
  {
    KeywordLacksSpaceAndSemicolon();
    assert " " + d + ";" == [' '] + d + [';'];
    ContainsBetween(' ', d, ';', IncludeKeyword);
  }

  /** No piece holds the keyword ... */
  lemma PiecesFree(ds: seq<string>, ps: seq<string>)
    requires forall k :: 0 <= k < |ds| ==> FullHeader(ds[k])
    requires ps == Pieces(ds)
    ensures forall k :: 0 <= k < |ps| ==> !Contains(ps[k], IncludeKeyword)
  {
    forall k | 0 <= k < |ps| ensures !Contains(ps[k], IncludeKeyword) {
      PieceKeepsKeywordOut(ds[k]);
    }
  }

  /** ... and each ends in `;`, which the keyword lacks. */
  lemma PiecesEnds(ds: seq<string>, ps: seq<string>)
    requires ps == Pieces(ds)
    ensures forall k :: 0 <= k < |ps| - 1 ==> |ps[k]| == 0 || ps[k][|ps[k]| - 1] !in IncludeKeyword
  {
    KeywordLacksSpaceAndSemicolon();
    forall k | 0 <= k < |ps| - 1 ensures ps[k][|ps[k]| - 1] !in IncludeKeyword {
      var q := ps[k];
      assert q == " " + ds[k] + ";";
      assert q[|q| - 1] == ';';
    }
  }

  /** Split on the keyword, a full-mode list gives an empty lead and then
      one piece per header. */
  lemma SplitFullList(ds: seq<string>)
    requires |ds| > 0
    requires forall k :: 0 <= k < |ds| ==> FullHeader(ds[k])
    ensures SplitOn(FullList(ds), IncludeKeyword) == [""] + Pieces(ds)
  {
    var ps := Pieces(ds);
    FullListIsJoin(ds);
    SplitOnLead(Join(ps, IncludeKeyword), IncludeKeyword);
    PiecesFree(ds, ps);
    PiecesEnds(ds, ps);
    SplitOnJoin(ps, IncludeKeyword);
  }

  /** Every piece of a full-mode list gives its header's directive. */
  lemma CollectPieces(ds: seq<string>)
    requires forall k :: 0 <= k < |ds| ==> FullHeader(ds[k])
    ensures Collect(Pieces(ds), FullPiece) == Directives(ds)
  {
    var ps, want := Pieces(ds), Directives(ds);
    forall j | 0 <= j < |ps| ensures FullPiece(ps[j]) == Some(want[j]) {
      FullPieceOfHeader(ds[j]);
    }
    var r := Collect(ps, FullPiece);
    assert |r| == |want|;
    forall i | 0 <= i < |r| ensures r[i] == want[i] {
      assert FullPiece(ps[i]) == Some(r[i]);
    }
  }

  /** Full mode reads a list of `#include header;` directives back as the
      directives, in order, each without its `;`. */
  lemma FullRoundTrip(ds: seq<string>)
    requires |ds| > 0
    requires forall k :: 0 <= k < |ds| ==> FullHeader(ds[k])
    ensures ParseIncludeHeaders(FullList(ds)) == Directives(ds)
  {
    var kw, s := IncludeKeyword, FullList(ds);
    FullListIsJoin(ds);
    assert s[..|kw|] == kw;
    assert OccursAt(s, kw, 0);
    ContainsIff(s, kw);
    SplitFullList(ds);
    var ps := Pieces(ds);
    assert FullPiece("").None?;
    assert ([""] + ps)[1..] == ps;
    CollectPieces(ds);
  }

  /** The command line's directive for one piece: trimmed, dropped when
      empty, written after `#include ` with a `;` appended unless it already
      ends with one. */
  function MainPiece(part: string): (r: Option<string>)
    ensures r.Some? <==> RustTrim(part) != ""
    ensures r.Some? ==> StartsWith(r.value, "#include ") && EndsWith(r.value, ";")
  {
    var t := RustTrim(part);
    if t == "" then None
    else
      var h := "#include " + t;
      StartsWithConcat("#include ", t);
      if EndsWith(h, ";") then Some(h)
      else
        StartsWithConcat(h, ";");
        StartsWithTrans(h + ";", h, "#include ");
        assert (h + ";")[|h|..] == ";";
        Some(h + ";")
  }

  /** The `extra_headers` splitting of the command line. */
  function ExtraHeaderDirectives(extra: string): (r: seq<string>)
    ensures extra == "" ==> r == []
    ensures forall i :: 0 <= i < |r| ==> StartsWith(r[i], "#include ") && EndsWith(r[i], ";")
  {
    if extra == "" then [] else Collect(SplitOn(extra, IncludeKeyword), MainPiece)
  }

  /** Per piece, the command line's directive is the parser's full-mode
      directive with a `;` after it. */
  lemma MainPieceIsFullPiece(part: string)
    ensures MainPiece(part).Some? <==> FullPiece(part).Some?
    ensures MainPiece(part).Some? ==> MainPiece(part).value == FullPiece(part).value + ";"
  {
  }

  function WithSemicolons(ds: seq<string>): (r: seq<string>)
    ensures |r| == |ds|
    ensures forall i :: 0 <= i < |ds| ==> r[i] == ds[i] + ";"
  {
    if |ds| == 0 then [] else [ds[0] + ";"] + WithSemicolons(ds[1..])
  }

  lemma {:induction false} CollectMainFull(parts: seq<string>)
    ensures Collect(parts, MainPiece) == WithSemicolons(Collect(parts, FullPiece))
  {
    if |parts| > 0 {
      CollectMainFull(parts[1..]);
      MainPieceIsFullPiece(parts[0]);
      var m, f := Collect(parts[1..], MainPiece), Collect(parts[1..], FullPiece);
      if FullPiece(parts[0]).Some? {
        var d := FullPiece(parts[0]).value;
        assert ([d] + f)[1..] == f;
      }
    }
  }

  /** On input holding `#include`, the command line writes the parser's
      directives, each with one `;` after it. */
  lemma ExtraHeadersMatchParser(input: string)
    requires Contains(input, IncludeKeyword)
    ensures ExtraHeaderDirectives(input) == WithSemicolons(ParseIncludeHeaders(input))
  {
    CollectMainFull(SplitOn(input, IncludeKeyword));
  }

  /** Header names as the simplified list writes them. */
  function Quoted(names: seq<string>): (r: seq<string>)
    ensures |r| == |names|
    ensures forall i :: 0 <= i < |names| ==> r[i] == "#include \"" + names[i] + "\""
  {
    if |names| == 0 then [] else ["#include \"" + names[0] + "\""] + Quoted(names[1..])
  }

  /** A name the simplified list carries through unchanged: not empty, no `;`,
      no surrounding whitespace. */
  predicate PlainName(n: string) {
    |n| > 0 && ';' !in n && !RustWhitespace(n[0]) && !RustWhitespace(n[|n| - 1])
  }

  lemma PlainPiece(n: string)
    requires PlainName(n)
    ensures SimplePiece(n) == Some("#include \"" + n + "\"")
  {
    assert RustTrim(n) == n;
  }

  lemma {:induction false} CollectSimple(names: seq<string>)
    requires forall k :: 0 <= k < |names| ==> PlainName(names[k])
    ensures Collect(names, SimplePiece) == Quoted(names)
  {
    if |names| > 0 {
      var n, rest := names[0], names[1..];
      assert forall k :: 0 <= k < |rest| ==> rest[k] == names[k + 1];
      CollectSimple(rest);
      PlainPiece(n);
      var q := "#include \"" + n + "\"";
      assert Collect(names, SimplePiece) == [q] + Collect(rest, SimplePiece);
    }
  }

  lemma JoinStartsWithFirst(parts: seq<string>, sep: string)
    requires |parts| > 0
    ensures StartsWith(Join(parts, sep), parts[0])
  {
    if |parts| > 1 {
      var a := parts[0] + sep;
      StartsWithConcat(a, Join(parts[1..], sep));
      StartsWithConcat(parts[0], sep);
      StartsWithTrans(Join(parts, sep), a, parts[0]);
    } else {
      StartsWithConcat(parts[0], "");
      assert parts[0] + "" == parts[0];
    }
  }

  /** Simplified mode reads a `;`-joined list of plain names back as one
      quoted directive per name, in order. */
  lemma SimplifiedRoundTrip(names: seq<string>)
    requires |names| > 0
    requires forall k :: 0 <= k < |names| ==> PlainName(names[k])
    requires !Contains(Join(names, ";"), IncludeKeyword)
    ensures ParseIncludeHeaders(Join(names, ";")) == Quoted(names)
  {
    var s := Join(names, ";");
    JoinStartsWithFirst(names, ";");
    assert |s| > 0;
    forall k | 0 <= k < |names| ensures ';' !in names[k] {
      assert PlainName(names[k]);
    }
    SplitJoin(names, ';');
    CollectSimple(names);
  }

  /** Without `#include` in it, the command line reads a whole trimmed
      option as a single directive, whatever `;` it holds inside. */
  lemma SingleDirectiveWithoutKeyword(s: string)
    requires |s| > 0 && !RustWhitespace(s[0]) && !RustWhitespace(s[|s| - 1])
    requires !Contains(s, IncludeKeyword) && !EndsWith(s, ";")
    ensures ExtraHeaderDirectives(s) == ["#include " + s + ";"]
  {
    assert RustTrim(s) == s;
    var h := "#include " + s;
    assert h[|h| - 1] == s[|s| - 1];
    assert !EndsWith(h, ";");
    assert MainPiece(s) == Some(h + ";");
    assert SplitOn(s, IncludeKeyword) == [s];
    assert ([] + [s])[1..] == [];
  }

  lemma QuotedAndAngledHeaders()
    ensures FullHeader("\"a.h\"") && FullHeader("<vector>")
  {
    var v := "<vector>";
    assert v != IncludeKeyword;
    assert !OccursAt(v, IncludeKeyword, 0);
  }

  lemma QuotedAndAngledList()
    ensures FullList(["\"a.h\"", "<vector>"]) == "#include \"a.h\";#include <vector>;"
  {
    var ds := ["\"a.h\"", "<vector>"];
    assert ds[1..] == ["<vector>"];
    assert FullList(["<vector>"]) == "#include <vector>;";
  }

  lemma QuotedAndAngledDirectives()
    ensures Directives(["\"a.h\"", "<vector>"]) == ["#include \"a.h\"", "#include <vector>"]
  {
    var r := Directives(["\"a.h\"", "<vector>"]);
    var x, y := "#include \"a.h\"", "#include <vector>";
    assert r[0] == x;
    assert r[1] == y;
    assert r == [x, y];
  }

  /** A quoted and an angled directive, each closed by `;`, come back
      without their `;`. */
  lemma FullFormatExample()
    ensures ParseIncludeHeaders("#include \"a.h\";#include <vector>;") == ["#include \"a.h\"", "#include <vector>"]
  {
    var ds := ["\"a.h\"", "<vector>"];
    QuotedAndAngledHeaders();
    QuotedAndAngledList();
    QuotedAndAngledDirectives();
    FullRoundTrip(ds);
  }

  /** `a.h;b.h` gives two directives to the parser ... */
  lemma ParserReadsNameList()
    ensures ParseIncludeHeaders("a.h;b.h") == ["#include \"" + "a.h" + "\"", "#include \"" + "b.h" + "\""]
  {
    var s := "a.h;b.h";
    var names := ["a.h", "b.h"];
    assert names[1..] == ["b.h"];
    assert s == Join(names, ";");
    assert !Contains(s, IncludeKeyword);
    SimplifiedRoundTrip(names);
    var qa, qb := "#include \"" + "a.h" + "\"", "#include \"" + "b.h" + "\"";
    assert Quoted(["b.h"]) == [qb] + Quoted([]);
    assert Quoted(names) == [qa] + Quoted(["b.h"]);
  }

  /** ... and one to the command line, which has no simplified mode. */
  lemma CommandLineReadsOneDirective()
    ensures ExtraHeaderDirectives("a.h;b.h") == ["#include " + "a.h;b.h" + ";"]
  {
    var s := "a.h;b.h";
    assert !Contains(s, IncludeKeyword);
    assert s[|s| - 1] == 'h';
    SingleDirectiveWithoutKeyword(s);
  }
}
