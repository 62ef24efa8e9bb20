/** String primitives shared by the generator filters and the transport layers:
    prefix/suffix tests, substring search, splitting and joining, trimming and
    ASCII case mapping. Strings are sequences of Unicode scalar values. */
module Strings {

  predicate StartsWith(s: string, prefix: string) {
    |prefix| <= |s| && s[..|prefix|] == prefix
  }

  predicate EndsWith(s: string, suffix: string) {
    |suffix| <= |s| && s[|s| - |suffix|..] == suffix
  }

  lemma StartsWithConcat(a: string, b: string)
    ensures StartsWith(a + b, a)
  {
    assert (a + b)[..|a|] == a;
  }

  lemma StartsWithTrans(s: string, t: string, u: string)
    requires StartsWith(s, t) && StartsWith(t, u)
    ensures StartsWith(s, u)
  {
    assert s[..|u|] == s[..|t|][..|u|];
  }

  /** `p` occurs in `s` starting at index `i`. */
  predicate OccursAt(s: string, p: string, i: int) {
    0 <= i && i + |p| <= |s| && s[i..i + |p|] == p
  }

  /** Index of the first occurrence of `p` in `s` at or after `from`, or -1. */
  function FindSubFrom(s: string, p: string, from: nat): (r: int)
    ensures r == -1 || (from <= r && OccursAt(s, p, r))
    ensures r >= 0 ==> forall j :: from <= j < r ==> !OccursAt(s, p, j)
    ensures r < 0 ==> forall j :: from <= j ==> !OccursAt(s, p, j)
    decreases |s| - from
  {
    if from + |p| > |s| then -1
    else if s[from..from + |p|] == p then from
    else FindSubFrom(s, p, from + 1)
  }

  /** Index of the first occurrence of `p` in `s`, or -1 when there is none. */
  function FindSub(s: string, p: string): (r: int)
    ensures r == -1 || OccursAt(s, p, r)
    ensures r >= 0 ==> forall j :: 0 <= j < r ==> !OccursAt(s, p, j)
    ensures r < 0 ==> forall j :: !OccursAt(s, p, j)
  {
    FindSubFrom(s, p, 0)
  }

  /** Substring test (Rust `str::contains`). */
  predicate Contains(s: string, p: string) {
    FindSub(s, p) >= 0
  }

  lemma ContainsIff(s: string, p: string)
    ensures Contains(s, p) <==> exists i :: OccursAt(s, p, i)
  {
  }

  /** Pieces of `s` between the non-overlapping occurrences of `sep`, left to
      right (Rust `str::split` with a string pattern). */
  function SplitOn(s: string, sep: string): (r: seq<string>)
    requires |sep| > 0
    ensures |r| >= 1
    decreases |s|
  {
    var i := FindSub(s, sep);
    if i < 0 then [s] else [s[..i]] + SplitOn(s[i + |sep|..], sep)
  }

  /** Split on a single character (Rust `str::split(char)`). */
  function Split(s: string, c: char): (r: seq<string>)
    ensures |r| >= 1
  {
    SplitOn(s, [c])
  }

  function Join(parts: seq<string>, sep: string): string {
    if |parts| == 0 then ""
    else if |parts| == 1 then parts[0]
    else parts[0] + sep + Join(parts[1..], sep)
  }

  lemma JoinCons(a: string, rest: seq<string>, sep: string)
    requires |rest| > 0
    ensures Join([a] + rest, sep) == a + sep + Join(rest, sep)
  {
    assert ([a] + rest)[1..] == rest;
  }

  lemma JoinAppend(parts: seq<string>, a: string, sep: string)
    requires |parts| > 0
    ensures Join(parts + [a], sep) == Join(parts, sep) + sep + a
  {
    if |parts| == 1 {
      assert parts + [a] == [parts[0]] + [a];
    } else {
      assert (parts + [a])[1..] == parts[1..] + [a];
      JoinAppend(parts[1..], a, sep);
    }
  }

  /** Cutting `s` around an occurrence of `p` at `i` and gluing it back restores `s`. */
  lemma CutAround(s: string, p: string, i: int)
    requires OccursAt(s, p, i)
    ensures s == s[..i] + p + s[i + |p|..]
  {
    assert s == s[..i] + s[i..i + |p|] + s[i + |p|..];
  }

  /** Joining the pieces back with the separator restores the input. */
  lemma {:induction false} JoinSplitOn(s: string, sep: string)
    requires |sep| > 0
    ensures Join(SplitOn(s, sep), sep) == s
    decreases |s|
  {
    var i := FindSub(s, sep);
    if i >= 0 {
      var rest := s[i + |sep|..];
      assert SplitOn(s, sep) == [s[..i]] + SplitOn(rest, sep);
      JoinSplitOn(rest, sep);
      JoinCons(s[..i], SplitOn(rest, sep), sep);
      CutAround(s, sep, i);
    }
  }

  /** No piece contains the separator. */
  lemma {:induction false} SplitOnPiecesFree(s: string, sep: string)
    requires |sep| > 0
    ensures forall k :: 0 <= k < |SplitOn(s, sep)| ==> !Contains(SplitOn(s, sep)[k], sep)
    decreases |s|
  {
    var i := FindSub(s, sep);
    if i >= 0 {
      var rest := s[i + |sep|..];
      SplitOnPiecesFree(rest, sep);
      var head := s[..i];
      forall j | OccursAt(head, sep, j) ensures false {
        assert head[j..j + |sep|] == s[j..j + |sep|];
        assert OccursAt(s, sep, j);
      }
      assert !Contains(head, sep);
      assert SplitOn(s, sep) == [head] + SplitOn(rest, sep);
    }
  }

  /** In `p + sep + t` the first `sep` is the one after `p` when `p` holds no
      `sep` and does not end in one of its characters. */
  lemma FirstSepAfter(p: string, sep: string, t: string)
    requires |sep| > 0 && !Contains(p, sep)
    requires |p| == 0 || p[|p| - 1] !in sep
    ensures FindSub(p + sep + t, sep) == |p|
  {
    var s := p + sep + t;
    assert s[|p|..|p| + |sep|] == sep;
    assert OccursAt(s, sep, |p|);
    ContainsIff(p, sep);
    forall j | 0 <= j < |p| ensures !OccursAt(s, sep, j) {
      if j + |sep| <= |p| {
        assert s[j..j + |sep|] == p[j..j + |sep|];
        assert !OccursAt(p, sep, j);
      } else if j + |sep| <= |s| {
        assert s[j..j + |sep|][|p| - 1 - j] == p[|p| - 1];
      }
    }
  }

  /** Splitting a join gives the parts back when no part holds the separator
      and no part but the last ends in a character of the separator (so no
      occurrence can straddle a part and the separator after it). */
  lemma {:induction false} SplitOnJoin(parts: seq<string>, sep: string)
    requires |parts| > 0 && |sep| > 0
    requires forall k :: 0 <= k < |parts| ==> !Contains(parts[k], sep)
    requires forall k :: 0 <= k < |parts| - 1 ==> |parts[k]| == 0 || parts[k][|parts[k]| - 1] !in sep
    ensures SplitOn(Join(parts, sep), sep) == parts
    decreases |parts|
  {
    var p := parts[0];
    if |parts| == 1 {
      assert !Contains(p, sep);
    } else {
      var rest := parts[1..];
      var tail := Join(rest, sep);
      var s := Join(parts, sep);
      assert s == p + sep + tail;
      FirstSepAfter(p, sep, tail);
      assert s[..|p|] == p;
      assert s[|p| + |sep|..] == tail;
      assert forall k :: 0 <= k < |rest| ==> rest[k] == parts[k + 1];
      SplitOnJoin(rest, sep);
      assert parts == [p] + rest;
    }
  }

  /** A leading separator splits off an empty first piece. */
  lemma SplitOnLead(x: string, sep: string)
    requires |sep| > 0
    ensures SplitOn(sep + x, sep) == [""] + SplitOn(x, sep)
  {
    var s := sep + x;
    assert OccursAt(s, sep, 0);
    assert s[|sep|..] == x;
  }

  /** A pattern none of whose characters is `a` or `b` occurs in `[a] + d + [b]`
      only when it occurs in `d`. */
  lemma ContainsBetween(a: char, d: string, b: char, p: string)
    requires |p| > 0 && a !in p && b !in p && !Contains(d, p)
    ensures !Contains([a] + d + [b], p)
  {
    var s := [a] + d + [b];
    ContainsIff(d, p);
    forall j ensures !OccursAt(s, p, j) {
      NotAtBetween(a, d, b, p, j);
    }
    ContainsIff(s, p);
  }

  lemma NotAtBetween(a: char, d: string, b: char, p: string, j: int)
    requires |p| > 0 && a !in p && b !in p
    requires forall i :: !OccursAt(d, p, i)
    ensures !OccursAt([a] + d + [b], p, j)
  {
    var s := [a] + d + [b];
    if 0 <= j && j + |p| <= |s| {
      var w := s[j..j + |p|];
      if j == 0 {
        assert w[0] == a;
      } else if j + |p| == |s| {
        assert w[|p| - 1] == b;
      } else {
        assert w == d[j - 1..j - 1 + |p|];
        assert !OccursAt(d, p, j - 1);
      }
    }
  }

  /** A one-character pattern occurs exactly where that character stands. */
  lemma OccursAtChar(s: string, c: char, j: int)
    ensures OccursAt(s, [c], j) <==> 0 <= j < |s| && s[j] == c
  {
    if 0 <= j < |s| {
      assert s[j..j + 1] == [s[j]];
    }
  }

  lemma FindCharAbsent(s: string, c: char)
    requires c !in s
    ensures FindSub(s, [c]) == -1
  {
    forall j | 0 <= j < |s| ensures !OccursAt(s, [c], j) {
      OccursAtChar(s, c, j);
    }
  }

  lemma FindCharAfter(a: string, c: char, b: string)
    requires c !in a
    ensures FindSub(a + [c] + b, [c]) == |a|
  {
    var s := a + [c] + b;
    OccursAtChar(s, c, |a|);
    forall j | 0 <= j < |a| ensures !OccursAt(s, [c], j) {
      assert s[j] == a[j];
      OccursAtChar(s, c, j);
    }
  }

  /** Index of the first `c` in `s`, or -1 (FString `FindChar` and `Split`
      searching from the start). */
  function IndexOfChar(s: string, c: char): (i: int)
    ensures i == -1 <==> c !in s
    ensures i >= 0 ==> i < |s| && s[i] == c && c !in s[..i]
  {
    if |s| == 0 then -1
    else if s[0] == c then 0
    else
      var j := IndexOfChar(s[1..], c);
      assert j >= 0 ==> s[..j + 1] == [s[0]] + s[1..][..j];
      if j < 0 then -1 else j + 1
  }

  /** One step of `Split`: the piece before the first `c`, then the split of the rest. */
  lemma SplitStep(s: string, c: char)
    ensures FindSub(s, [c]) < 0 ==> Split(s, c) == [s]
    ensures FindSub(s, [c]) >= 0 ==>
              Split(s, c) == [s[..FindSub(s, [c])]] + Split(s[FindSub(s, [c]) + 1..], c)
  {
  }

  /** Splitting at a first `c` preceded by `a`. */
  lemma SplitAtFirst(a: string, c: char, b: string)
    requires c !in a
    ensures Split(a + [c] + b, c) == [a] + Split(b, c)
  {
    var s := a + [c] + b;
    FindCharAfter(a, c, b);
    SplitStep(s, c);
    assert s[..|a|] == a;
    assert s[|a| + 1..] == b;
  }

  /** A string free of `c` splits into itself. */
  lemma SplitFree(a: string, c: char)
    requires c !in a
    ensures Split(a, c) == [a]
  {
    FindCharAbsent(a, c);
  }

  /** A string holding `c` splits into the piece before its first `c` and the
      split of what follows. */
  lemma FirstCut(x: string, c: char) returns (pre: string, post: string)
    requires c in x
    ensures x == pre + [c] + post && c !in pre
    ensures Split(x, c) == [pre] + Split(post, c)
  {
    var k :| 0 <= k < |x| && x[k] == c;
    OccursAtChar(x, c, k);
    var i := FindSub(x, [c]);
    pre, post := x[..i], x[i + 1..];
    OccursAtChar(x, c, i);
    forall j | 0 <= j < i ensures pre[j] != c {
      OccursAtChar(x, c, j);
    }
    assert x == pre + [c] + post;
    SplitAtFirst(pre, c, post);
  }

  /** Splitting distributes over a `c` between two strings. */
  lemma {:induction false} SplitConcat(x: string, c: char, y: string)
    ensures Split(x + [c] + y, c) == Split(x, c) + Split(y, c)
    decreases |x|
  {
    if c !in x {
      SplitFree(x, c);
      SplitAtFirst(x, c, y);
    } else {
      var pre, post := FirstCut(x, c);
      assert x + [c] + y == pre + [c] + (post + [c] + y);
      SplitAtFirst(pre, c, post + [c] + y);
      SplitConcat(post, c, y);
    }
  }

  /** The last piece of a split is the longest suffix free of `c`. */
  lemma {:induction false} SplitLastPiece(s: string, c: char)
    ensures c !in Split(s, c)[|Split(s, c)| - 1]
    ensures EndsWith(s, Split(s, c)[|Split(s, c)| - 1])
    ensures |Split(s, c)[|Split(s, c)| - 1]| == |s|
            || s[|s| - |Split(s, c)[|Split(s, c)| - 1]| - 1] == c
    decreases |s|
  {
    SplitStep(s, c);
    var i := FindSub(s, [c]);
    if i < 0 {
      forall j | 0 <= j < |s| ensures s[j] != c {
        OccursAtChar(s, c, j);
      }
    } else {
      var rest := s[i + 1..];
      OccursAtChar(s, c, i);
      SplitLastPiece(rest, c);
      var parts := Split(s, c);
      assert parts[|parts| - 1] == Split(rest, c)[|Split(rest, c)| - 1];
      assert s[|s| - |rest|..] == rest;
    }
  }

  /** Splitting the join of separator-free parts on that separator restores the parts. */
  lemma {:induction false} SplitJoin(parts: seq<string>, c: char)
    requires |parts| > 0
    requires forall k :: 0 <= k < |parts| ==> c !in parts[k]
    ensures Split(Join(parts, [c]), c) == parts
    decreases |parts|
  {
    if |parts| == 1 {
      FindCharAbsent(parts[0], c);
    } else {
      var rest := Join(parts[1..], [c]);
      var s := parts[0] + [c] + rest;
      FindCharAfter(parts[0], c, rest);
      assert s[..|parts[0]|] == parts[0];
      assert s[|parts[0]| + 1..] == rest;
      SplitJoin(parts[1..], c);
      assert parts == [parts[0]] + parts[1..];
    }
  }

  /** The first index at or after `i` whose character does not satisfy `ws`. */
  function SkipForward(s: string, ws: char -> bool, i: nat): (k: nat)
    requires i <= |s|
    ensures i <= k <= |s|
    ensures k == |s| || !ws(s[k])
    ensures forall j :: i <= j < k ==> ws(s[j])
    decreases |s| - i
  {
    if i < |s| && ws(s[i]) then SkipForward(s, ws, i + 1) else i
  }

  /** The least index `k` at or after `lo`, and at most `i`, such that every
      character in `s[k..i]` satisfies `ws`. */
  function SkipBackward(s: string, ws: char -> bool, lo: nat, i: nat): (k: nat)
    requires lo <= i <= |s|
    ensures lo <= k <= i
    ensures k == lo || !ws(s[k - 1])
    ensures forall j :: k <= j < i ==> ws(s[j])
    decreases i
  {
    if i > lo && ws(s[i - 1]) then SkipBackward(s, ws, lo, i - 1) else i
  }

  /** Remove the leading characters satisfying `ws`. */
  function TrimStartBy(s: string, ws: char -> bool): (r: string)
    ensures |r| <= |s| && r == s[|s| - |r|..]
    ensures |r| == 0 || !ws(r[0])
    ensures forall i :: 0 <= i < |s| - |r| ==> ws(s[i])
  {
    s[SkipForward(s, ws, 0)..]
  }

  /** Remove leading and trailing characters satisfying `ws`: the result is the
      slice `s[a..b]` where `s[..a]` and `s[b..]` hold only `ws` characters. */
  function TrimBy(s: string, ws: char -> bool): (r: string)
    ensures |r| <= |s|
    ensures |r| == 0 || (!ws(r[0]) && !ws(r[|r| - 1]))
    ensures |r| == 0 <==> forall i :: 0 <= i < |s| ==> ws(s[i])
    ensures (|s| == 0 || (!ws(s[0]) && !ws(s[|s| - 1]))) ==> r == s
  {
    var a := SkipForward(s, ws, 0);
    var b := SkipBackward(s, ws, a, |s|);
    s[a..b]
  }

  /** Remove every leading `c` (Rust `trim_start_matches(c)`). */
  function TrimStartChar(s: string, c: char): (r: string)
    ensures |r| <= |s| && r == s[|s| - |r|..]
    ensures |r| == 0 || r[0] != c
    ensures forall i :: 0 <= i < |s| - |r| ==> s[i] == c
  {
    TrimStartBy(s, x => x == c)
  }

  /** Whitespace as Rust's `char::is_whitespace` (the Unicode White_Space property). */
  predicate RustWhitespace(c: char) {
    ('\t' <= c <= '\r') || c == ' ' || c == '\U{0085}' || c == '\U{00A0}' || c == '\U{1680}'
    || ('\U{2000}' <= c <= '\U{200A}') || c == '\U{2028}' || c == '\U{2029}'
    || c == '\U{202F}' || c == '\U{205F}' || c == '\U{3000}'
  }

  /** Rust `str::trim`. */
  function RustTrim(s: string): string {
    TrimBy(s, RustWhitespace)
  }

  /** One leading space goes, and a text starting and ending with other
      characters stays as it is. */
  lemma TrimAfterSpace(x: string)
    requires |x| > 0 && !RustWhitespace(x[0]) && !RustWhitespace(x[|x| - 1])
    ensures RustTrim(" " + x) == x
  {
    var s := " " + x;
    assert s[1] == x[0];
    assert SkipForward(s, RustWhitespace, 1) == 1;
    assert SkipForward(s, RustWhitespace, 0) == 1;
    assert s[|s| - 1] == x[|x| - 1];
    assert SkipBackward(s, RustWhitespace, 1, |s|) == |s|;
    assert s[1..] == x;
  }

  predicate IsAsciiUpper(c: char) {
    'A' <= c <= 'Z'
  }

  predicate IsAsciiLower(c: char) {
    'a' <= c <= 'z'
  }

  function AsciiUpperChar(c: char): (r: char)
    ensures !IsAsciiLower(r)
    ensures IsAsciiLower(c) ==> IsAsciiUpper(r) && r as int == c as int - 32
    ensures !IsAsciiLower(c) ==> r == c
  {
    if IsAsciiLower(c) then (c as int - 32) as char else c
  }

  function AsciiLowerChar(c: char): (r: char)
    ensures !IsAsciiUpper(r)
    ensures IsAsciiUpper(c) ==> IsAsciiLower(r) && r as int == c as int + 32
    ensures !IsAsciiUpper(c) ==> r == c
  {
    if IsAsciiUpper(c) then (c as int + 32) as char else c
  }

  function AsciiUpper(s: string): (r: string)
    ensures |r| == |s|
    ensures forall i :: 0 <= i < |s| ==> r[i] == AsciiUpperChar(s[i])
  {
    seq(|s|, i requires 0 <= i < |s| => AsciiUpperChar(s[i]))
  }

  function AsciiLower(s: string): (r: string)
    ensures |r| == |s|
    ensures forall i :: 0 <= i < |s| ==> r[i] == AsciiLowerChar(s[i])
  {
    seq(|s|, i requires 0 <= i < |s| => AsciiLowerChar(s[i]))
  }

  /** Lowercasing forgets an earlier uppercasing. */
  lemma LowerOfUpper(s: string)
    ensures AsciiLower(AsciiUpper(s)) == AsciiLower(s)
  {
    var a, b := AsciiLower(AsciiUpper(s)), AsciiLower(s);
    forall i | 0 <= i < |s| ensures a[i] == b[i] {
      var c := s[i];
      assert a[i] == AsciiLowerChar(AsciiUpperChar(c));
    }
  }

  /** ASCII case-insensitive equality, the comparison FString uses by default. */
  predicate EqualsIgnoreCase(a: string, b: string) {
    AsciiLower(a) == AsciiLower(b)
  }

  predicate StartsWithIgnoreCase(s: string, prefix: string) {
    |prefix| <= |s| && EqualsIgnoreCase(s[..|prefix|], prefix)
  }

  /** Replace every occurrence of `c` by `rep` (Rust `str::replace(char, &str)`). */
  function ReplaceChar(s: string, c: char, rep: string): (r: string)
    ensures c !in s ==> r == s
  {
    if |s| == 0 then ""
    else (if s[0] == c then rep else [s[0]]) + ReplaceChar(s[1..], c, rep)
  }

  lemma ReplaceCharAppend(a: string, b: string, c: char, rep: string)
    ensures ReplaceChar(a + b, c, rep) == ReplaceChar(a, c, rep) + ReplaceChar(b, c, rep)
  {
    if |a| > 0 {
      assert (a + b)[1..] == a[1..] + b;
      ReplaceCharAppend(a[1..], b, c, rep);
    } else {
      assert a + b == b;
    }
  }

  /** Decimal rendering of an integer, with a leading `-` when negative (C `%d`). */
  function IntToString(n: int): (r: string)
    ensures |r| > 0
    decreases if n < 0 then 1 - n else n
  {
    if n < 0 then "-" + IntToString(-n)
    else if n < 10 then [DigitChar(n)]
    else IntToString(n / 10) + [DigitChar(n % 10)]
  }

  function DigitChar(d: int): char
    requires 0 <= d < 10
  {
    "0123456789"[d]
  }
}
