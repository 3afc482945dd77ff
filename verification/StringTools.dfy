/** The string helpers of src/common/string.cpp. */
module StringTools {
  import opened CStrings

  // ----- joining -----

  /** `xs[0] + d + xs[1] + d + ...` */
  function Join(xs: seq<string>, d: string): string {
    if xs == [] then "" else if |xs| == 1 then xs[0] else xs[0] + d + Join(xs[1..], d)
  }

  lemma {:induction false} JoinAppend(xs: seq<string>, x: string, d: string)
    ensures Join(xs + [x], d) == if xs == [] then x else Join(xs, d) + d + x
  {
    if xs == [] {
      assert xs + [x] == [x];
    } else if |xs| == 1 {
      assert (xs + [x])[1..] == [x];
    } else {
      JoinAppend(xs[1..], x, d);
      assert (xs + [x])[1..] == xs[1..] + [x];
      assert xs[0] + d + (Join(xs[1..], d) + d + x) == xs[0] + d + Join(xs[1..], d) + d + x;
    }
  }

  /** `merge_string`; a length of 0, or one beyond the end, stands for all of `source`. */
  method MergeString(delim: string, source: seq<string>, resultLen: nat) returns (str: string)
    ensures str == Join(if resultLen == 0 || resultLen > |source| then source else source[..resultLen], delim)
  {
    str := "";
    if source == [] { return; }
    var len := if resultLen == 0 || resultLen > |source| then |source| else resultLen;
    for i := 0 to len
      invariant str == Join(source[..i], delim)
    {
      JoinAppend(source[..i], source[i], delim);
      assert source[..i + 1] == source[..i] + [source[i]];
      if i == 0 {
        str := str + source[i];
      } else {
        str := str + delim + source[i];
      }
    }
    assert source[..|source|] == source;
  }

  // ----- splitting at a set of characters -----

  /** `find_first_of`; |s| for npos. */
  function FirstOf(s: string, delims: string): (k: nat)
    ensures k <= |s|
    ensures k < |s| ==> s[k] in delims
    ensures forall i :: 0 <= i < k ==> s[i] !in delims
  {
    if s == "" || s[0] in delims then 0 else 1 + FirstOf(s[1..], delims)
  }

  /** The maximal non-empty pieces of `s` without delimiter characters. */
  function Pieces(s: string, delims: string): seq<string>
    decreases |s|
  {
    if s == "" then []
    else
      var k := FirstOf(s, delims);
      (if k > 0 then [s[..k]] else []) + (if k < |s| then Pieces(s[k + 1..], delims) else [])
  }

  lemma PiecesStep(s: string, delims: string)
    ensures var k := FirstOf(s, delims);
            Pieces(s, delims) == (if k > 0 then [s[..k]] else []) + (if k < |s| then Pieces(s[k + 1..], delims) else [])
  {
  }

  /** `split_string` into a vector. */
  method SplitString(str: string, delim: string, results: seq<string>) returns (r: seq<string>)
    ensures r == results + Pieces(str, delim)
  {
    hide Pieces, FirstOf;
    r := results;
    var tmp := str;
    var cutAt := FirstOf(tmp, delim);
    while cutAt != |tmp|
      invariant cutAt == FirstOf(tmp, delim)
      invariant results + Pieces(str, delim) == r + Pieces(tmp, delim)
      decreases |tmp|
    {
      PiecesStep(tmp, delim);
      if cutAt > 0 {
        ghost var left := Pieces(tmp[cutAt + 1..], delim);
        assert r + ([tmp[..cutAt]] + left) == r + [tmp[..cutAt]] + left;
        r := r + [tmp[..cutAt]];
      }
      tmp := tmp[cutAt + 1..];
      cutAt := FirstOf(tmp, delim);
    }
    PiecesStep(tmp, delim);
    assert tmp[..|tmp|] == tmp;
    if |tmp| > 0 { r := r + [tmp]; }
  }

  function AsSet(xs: seq<string>): set<string> { set x | x in xs }

  lemma AsSetOfPieces(s: string, delims: string)
    ensures var k := FirstOf(s, delims);
            AsSet(Pieces(s, delims)) ==
            (if k > 0 then {s[..k]} else {}) + (if k < |s| then AsSet(Pieces(s[k + 1..], delims)) else {})
  {
    hide FirstOf, Pieces;
    PiecesStep(s, delims);
  }

  /** `split_string` into a set. */
  method SplitStringToSet(str: string, delim: string, results: set<string>) returns (r: set<string>)
    ensures r == results + AsSet(Pieces(str, delim))
  {
    hide Pieces, FirstOf, AsSet;
    r := results;
    var tmp := str;
    var cutAt := FirstOf(tmp, delim);
    while cutAt != |tmp|
      invariant cutAt == FirstOf(tmp, delim)
      invariant results + AsSet(Pieces(str, delim)) == r + AsSet(Pieces(tmp, delim))
      decreases |tmp|
    {
      AsSetOfPieces(tmp, delim);
      if cutAt > 0 { r := r + {tmp[..cutAt]}; }
      tmp := tmp[cutAt + 1..];
      cutAt := FirstOf(tmp, delim);
    }
    AsSetOfPieces(tmp, delim);
    assert tmp[..|tmp|] == tmp;
    if |tmp| > 0 { r := r + {tmp}; }
  }

  predicate Free(x: string, delims: string) { forall i :: 0 <= i < |x| ==> x[i] !in delims }

  predicate AllDelims(x: string, delims: string) { forall i :: 0 <= i < |x| ==> x[i] in delims }

  /** Non-empty strings without delimiter characters. */
  predicate Clean(xs: seq<string>, delims: string) {
    forall i :: 0 <= i < |xs| ==> xs[i] != "" && Free(xs[i], delims)
  }

  lemma {:induction false} PiecesAreClean(s: string, delims: string)
    ensures Clean(Pieces(s, delims), delims)
    decreases |s|
  {
    if s != "" {
      var k := FirstOf(s, delims);
      PiecesStep(s, delims);
      if k < |s| { PiecesAreClean(s[k + 1..], delims); }
      hide Pieces;
    }
  }

  lemma {:induction false} FirstOfFreePrefix(x: string, rest: string, delims: string)
    requires Free(x, delims) && (rest == "" || rest[0] in delims)
    ensures FirstOf(x + rest, delims) == |x|
  {
    if x == "" {
      assert x + rest == rest;
    } else {
      assert (x + rest)[1..] == x[1..] + rest;
      FirstOfFreePrefix(x[1..], rest, delims);
    }
  }

  lemma {:induction false} DelimsAreSkipped(d: string, rest: string, delims: string)
    requires AllDelims(d, delims)
    ensures Pieces(d + rest, delims) == Pieces(rest, delims)
  {
    if d == "" {
      assert d + rest == rest;
    } else {
      assert FirstOf(d + rest, delims) == 0;
      assert (d + rest)[1..] == d[1..] + rest;
      DelimsAreSkipped(d[1..], rest, delims);
    }
  }

  lemma FirstPiece(x: string, rest: string, delims: string)
    requires x != "" && Free(x, delims) && (rest == "" || rest[0] in delims)
    ensures Pieces(x + rest, delims) == [x] + (if rest == "" then [] else Pieces(rest[1..], delims))
  {
    hide Pieces, FirstOf, Free;
    FirstOfFreePrefix(x, rest, delims);
    PiecesStep(x + rest, delims);
    assert (x + rest)[..|x|] == x;
    if rest != "" { assert (x + rest)[|x| + 1..] == rest[1..]; }
  }

  lemma JoinCons(xs: seq<string>, d: string)
    requires |xs| >= 2
    ensures Join(xs, d) == xs[0] + (d + Join(xs[1..], d))
  {
  }

  lemma CleanCons(xs: seq<string>, d: string)
    requires xs != [] && Clean(xs, d)
    ensures xs[0] != "" && Free(xs[0], d) && Clean(xs[1..], d)
  {
  }

  lemma DelimitedRest(d: string, rest: string)
    requires d != ""
    ensures (d + rest)[1..] == d[1..] + rest && (d + rest)[0] in d && AllDelims(d[1..], d)
  {
  }

  lemma {:induction false} PiecesOfJoin(xs: seq<string>, d: string)
    requires d != "" && Clean(xs, d)
    ensures Pieces(Join(xs, d), d) == xs
    decreases |xs|
  {
    if xs != [] {
      hide Pieces, Free, AllDelims, Clean;
      var x, others := xs[0], xs[1..];
      CleanCons(xs, d);
      if |xs| == 1 {
        assert x + "" == x && [x] + [] == xs;
        FirstPiece(x, "", d);
      } else {
        hide Join;
        JoinCons(xs, d);
        DelimitedRest(d, Join(others, d));
        FirstPiece(x, d + Join(others, d), d);
        DelimsAreSkipped(d[1..], Join(others, d), d);
        PiecesOfJoin(others, d);
        assert [x] + others == xs;
      }
    }
  }

  /** Splitting a merged list gives the list back exactly when its strings are non-empty and free of delimiters. */
  lemma SplitInvertsMerge(xs: seq<string>, d: string)
    requires d != ""
    ensures Pieces(Join(xs, d), d) == xs <==> Clean(xs, d)
  {
    PiecesAreClean(Join(xs, d), d);
    if Clean(xs, d) { PiecesOfJoin(xs, d); }
  }

  // ----- replacing -----

  predicate OccursAt(s: string, sub: string, i: nat) { i + |sub| <= |s| && s[i..i + |sub|] == sub }

  lemma OccursLater(s: string, sub: string, j: nat)
    requires 1 <= j && s != ""
    ensures OccursAt(s, sub, j) <==> OccursAt(s[1..], sub, j - 1)
  {
    if j + |sub| <= |s| { SliceOfTail(s, j, j + |sub|); }
  }

  lemma SliceOfTail(s: string, a: nat, b: nat)
    requires 1 <= a <= b <= |s|
    ensures s[a..b] == s[1..][a - 1..b - 1]
  {
    var t := s[1..];
    forall i | 0 <= i < b - a ensures s[a..b][i] == t[a - 1..b - 1][i] {
      assert s[a..b][i] == s[a + i] && t[a - 1..b - 1][i] == t[a - 1 + i];
    }
  }

  /** `find`; |s| + 1 for npos. */
  function Find(s: string, sub: string): (i: nat)
    ensures i == |s| + 1 || OccursAt(s, sub, i)
    ensures forall j :: 0 <= j < i ==> !OccursAt(s, sub, j)
  {
    if OccursAt(s, sub, 0) then 0
    else if s == "" then 1
    else
      var i := Find(s[1..], sub);
      assert i <= |s[1..]| ==> OccursAt(s, sub, 1 + i) by { OccursLater(s, sub, 1 + i); }
      assert forall j :: 0 <= j < 1 + i ==> !OccursAt(s, sub, j) by {
        forall j | 0 <= j < 1 + i ensures !OccursAt(s, sub, j) {
          if j > 0 { OccursLater(s, sub, j); }
        }
      }
      1 + i
  }

  predicate Contains(s: string, sub: string) { Find(s, sub) <= |s| }

  /** `s` cut at its leftmost non-overlapping occurrences of `sub`. */
  function Cut(s: string, sub: string): (r: seq<string>)
    requires sub != ""
    ensures r != []
    decreases |s|
  {
    var i := Find(s, sub);
    if i > |s| then [s] else [s[..i]] + Cut(s[i + |sub|..], sub)
  }

  function Replaced(s: string, sub: string, new_: string): string
    requires sub != ""
  {
    Join(Cut(s, sub), new_)
  }

  lemma ReplacedStep(s: string, sub: string, new_: string)
    requires sub != ""
    ensures var i := Find(s, sub);
            Replaced(s, sub, new_) ==
            if i > |s| then s else s[..i] + new_ + Replaced(s[i + |sub|..], sub, new_)
  {
    hide Find;
    var i := Find(s, sub);
    CutStep(s, sub);
    hide Cut;
    if i <= |s| { JoinOfCons(s[..i], Cut(s[i + |sub|..], sub), new_); }
  }

  lemma CutStep(s: string, sub: string)
    requires sub != ""
    ensures var i := Find(s, sub);
            Cut(s, sub) == if i > |s| then [s] else [s[..i]] + Cut(s[i + |sub|..], sub)
  {
    hide Find;
  }

  lemma JoinOfCons(x: string, xs: seq<string>, d: string)
    requires xs != []
    ensures Join([x] + xs, d) == x + d + Join(xs, d)
  {
    assert ([x] + xs)[1..] == xs;
  }

  /** `xs` joined by `sub` is `s`; no piece starts an occurrence before its own end, and the last holds none. */
  predicate LeftmostSplit(xs: seq<string>, s: string, sub: string) {
    && xs != [] && Join(xs, sub) == s
    && (forall i :: 0 <= i < |xs| - 1 ==> Find(xs[i] + sub, sub) == |xs[i]|)
    && !Contains(xs[|xs| - 1], sub)
  }

  lemma OccursInPrefix(a: string, b: string, sub: string, j: nat)
    requires j + |sub| <= |a|
    ensures OccursAt(a + b, sub, j) <==> OccursAt(a, sub, j)
  {
    assert (a + b)[j..j + |sub|] == a[j..j + |sub|];
  }

  lemma OccursAtEnd(x: string, sub: string)
    ensures OccursAt(x + sub, sub, |x|)
  {
  }

  /** The first occurrence in `x + sub + rest` is at the end of `x` exactly when it is in `x + sub`. */
  lemma FindInPrefix(x: string, sub: string, rest: string)
    ensures Find(x + sub, sub) == |x| <==> Find(x + sub + rest, sub) == |x|
  {
    hide Find;
    OccursAtEnd(x, sub);
    OccursInPrefix(x + sub, rest, sub, |x|);
    forall j | 0 <= j < |x| ensures OccursAt(x + sub + rest, sub, j) <==> OccursAt(x + sub, sub, j) {
      OccursInPrefix(x + sub, rest, sub, j);
    }
  }

  lemma JoinOfTwo(xs: seq<string>, d: string)
    requires |xs| >= 2
    ensures Join(xs, d) == xs[0] + d + Join(xs[1..], d)
  {
  }

  lemma LeftmostTail(xs: seq<string>, s: string, sub: string)
    requires |xs| >= 2 && LeftmostSplit(xs, s, sub)
    ensures var i := Find(s, sub);
            i == |xs[0]| && i + |sub| <= |s| && s[..i] == xs[0] && LeftmostSplit(xs[1..], s[i + |sub|..], sub)
  {
    hide Find, Join;
    var rest := Join(xs[1..], sub);
    JoinOfTwo(xs, sub);
    FindInPrefix(xs[0], sub, rest);
    assert s[|xs[0]| + |sub|..] == rest;
    assert forall i :: 0 <= i < |xs[1..]| ==> xs[1..][i] == xs[i + 1];
  }

  lemma {:induction false} OnlyCutIsLeftmost(xs: seq<string>, s: string, sub: string)
    requires sub != "" && LeftmostSplit(xs, s, sub)
    ensures xs == Cut(s, sub)
    decreases |s|
  {
    hide Find;
    if |xs| == 1 {
      assert xs == [s];
    } else {
      LeftmostTail(xs, s, sub);
      OnlyCutIsLeftmost(xs[1..], s[|xs[0]| + |sub|..], sub);
      assert xs == [xs[0]] + xs[1..];
    }
  }

  lemma JoinOfOne(x: string, d: string)
    ensures Join([x], d) == x
  {
  }

  lemma ConsIsLeftmost(x: string, xs: seq<string>, s: string, sub: string)
    requires LeftmostSplit(xs, s, sub) && Find(x + sub, sub) == |x|
    ensures LeftmostSplit([x] + xs, x + sub + s, sub)
  {
    hide Find;
    JoinOfCons(x, xs, sub);
    hide Join;
    var ys := [x] + xs;
    assert forall k :: 0 < k < |ys| ==> ys[k] == xs[k - 1];
  }

  lemma {:induction false} CutIsLeftmost(s: string, sub: string)
    requires sub != ""
    ensures LeftmostSplit(Cut(s, sub), s, sub)
    decreases |s|
  {
    hide Find, Cut, Join;
    var i := Find(s, sub);
    CutStep(s, sub);
    if i <= |s| {
      var x, left := s[..i], s[i + |sub|..];
      assert OccursAt(s, sub, i);
      assert s == x + sub + left;
      hide OccursAt;
      CutIsLeftmost(left, sub);
      FindInPrefix(x, sub, left);
      ConsIsLeftmost(x, Cut(left, sub), left, sub);
    } else {
      JoinOfOne(s, sub);
    }
  }

  /** Replacing a string by itself changes nothing: the first early return. */
  lemma ReplacedBySame(s: string, sub: string)
    requires sub != ""
    ensures Replaced(s, sub, sub) == s
  {
    hide Cut, Join, Find;
    CutIsLeftmost(s, sub);
  }

  /** `replace` cuts at the leftmost occurrences that do not overlap: there is exactly one such way to cut. */
  lemma CutIsTheLeftmostSplit(xs: seq<string>, s: string, sub: string)
    requires sub != ""
    ensures LeftmostSplit(xs, s, sub) <==> xs == Cut(s, sub)
  {
    hide LeftmostSplit, Cut;
    CutIsLeftmost(s, sub);
    if LeftmostSplit(xs, s, sub) { OnlyCutIsLeftmost(xs, s, sub); }
  }

  /** `replace`, returning the new value of `str`. */
  method Replace(str: string, sub: string, new_: string) returns (r: string)
    ensures r == if sub == "" then str else Replaced(str, sub, new_)
  {
    if sub == new_ {
      if sub != "" { ReplacedBySame(str, sub); }
      return str;
    }
    if sub == "" { return str; }
    if |sub| > |str| {
      ReplacedStep(str, sub, new_);
      return str;
    }
    r := ReplaceLoop(str, sub, new_);
  }

  method ReplaceLoop(str: string, sub: string, new_: string) returns (result: string)
    requires sub != ""
    ensures result == Replaced(str, sub, new_)
  {
    hide Replaced, Find;
    result := "";
    var lastIndex := 0;
    assert str[0..] == str;
    var index := Find(str, sub);
    while index <= |str| - lastIndex
      invariant 0 <= lastIndex <= |str|
      invariant index == Find(str[lastIndex..], sub)
      invariant Replaced(str, sub, new_) == result + Replaced(str[lastIndex..], sub, new_)
      decreases |str| - lastIndex
    {
      ghost var s := str[lastIndex..];
      assert OccursAt(s, sub, index);
      var next := lastIndex + index + |sub|;
      ReplacedStep(s, sub, new_);
      assert s[index + |sub|..] == str[next..] && s[..index] == str[lastIndex..lastIndex + index];
      Regroup(result, s[..index], new_, Replaced(str[next..], sub, new_));
      result := result + str[lastIndex..lastIndex + index];
      result := result + new_;
      lastIndex := next;
      index := Find(str[lastIndex..], sub);
    }
    ReplacedStep(str[lastIndex..], sub, new_);
    result := result + str[lastIndex..];
  }

  lemma Regroup(a: string, b: string, c: string, d: string)
    ensures a + (b + c + d) == a + b + c + d
  {
  }

  // ----- splitting a character buffer in place -----

  /** From `off` on the buffer holds the C string `text`. */
  predicate HoldsText(buffer: seq<char>, off: nat, text: string) {
    && off + |text| < |buffer|
    && buffer[off..off + |text|] == text
    && buffer[off + |text|] == NUL
    && (forall i :: 0 <= i < |text| ==> text[i] != NUL)
  }

  /** All pieces between delimiters, empty ones included. */
  function Cells(s: string, dim: char): (r: seq<string>)
    ensures r != []
    decreases |s|
  {
    var k := FirstOf(s, [dim]);
    if k == |s| then [s] else [s[..k]] + Cells(s[k + 1..], dim)
  }

  function NonEmpty(xs: seq<string>): seq<string> {
    if xs == [] then [] else (if xs[0] == "" then [] else [xs[0]]) + NonEmpty(xs[1..])
  }

  function Kept(s: string, dim: char, keepNull: bool): seq<string> {
    if keepNull then Cells(s, dim) else NonEmpty(Cells(s, dim))
  }

  lemma KeptStep(s: string, dim: char, keepNull: bool)
    ensures var k := FirstOf(s, [dim]);
            Kept(s, dim, keepNull) ==
            (if k > 0 || keepNull then [s[..k]] else [])
            + (if k < |s| then Kept(s[k + 1..], dim, keepNull) else [])
  {
    hide Cells, NonEmpty, FirstOf;
    var k := FirstOf(s, [dim]);
    CellsStep(s, dim);
    NonEmptyOfNone();
    NonEmptyOfCons(s[..k], if k < |s| then Cells(s[k + 1..], dim) else []);
    assert [s[..k]] + [] == [s[..k]];
  }

  lemma CellsStep(s: string, dim: char)
    ensures var k := FirstOf(s, [dim]);
            Cells(s, dim) == [s[..k]] + (if k < |s| then Cells(s[k + 1..], dim) else [])
  {
    assert s[..|s|] == s;
  }

  lemma NonEmptyOfNone()
    ensures NonEmpty([]) == []
  {
  }

  lemma NonEmptyOfCons(x: string, xs: seq<string>)
    ensures NonEmpty([x] + xs) == (if x == "" then [] else [x]) + NonEmpty(xs)
  {
    assert ([x] + xs)[1..] == xs;
  }

  /** Without null pieces the buffer version keeps exactly the pieces of the vector version. */
  lemma {:induction false} KeptArePieces(s: string, dim: char)
    ensures Kept(s, dim, false) == Pieces(s, [dim])
    decreases |s|
  {
    hide Kept, Pieces;
    var k := FirstOf(s, [dim]);
    KeptStep(s, dim, false);
    PiecesStep(s, [dim]);
    if k < |s| { KeptArePieces(s[k + 1..], dim); }
  }

  /** With null pieces, joining them by the delimiter gives the text back. */
  lemma {:induction false} JoinOfCells(s: string, dim: char)
    ensures Join(Kept(s, dim, true), [dim]) == s
    decreases |s|
  {
    var k := FirstOf(s, [dim]);
    CellsStep(s, dim);
    if k < |s| {
      assert s == s[..k] + [dim] + s[k + 1..];
      hide Cells, FirstOf, Join;
      JoinOfCells(s[k + 1..], dim);
      JoinOfCons(s[..k], Cells(s[k + 1..], dim), [dim]);
    } else {
      assert s[..k] == s;
    }
  }

  lemma StillHolds(before: seq<char>, after: seq<char>, off: nat, text: string)
    requires HoldsText(before, off, text) && |after| == |before|
    requires forall i :: 0 <= i <= off + |text| ==> after[i] == before[i]
    ensures HoldsText(after, off, text)
  {
    assert after[off..off + |text|] == before[off..off + |text|];
  }

  /** Offset `results[i]` starts the C string `cells[i]`, and all of them end before `limit`. */
  predicate HoldsAll(buffer: seq<char>, results: seq<nat>, cells: seq<string>, limit: nat) {
    && |results| == |cells|
    && forall i :: 0 <= i < |results| ==> HoldsText(buffer, results[i], cells[i]) && results[i] + |cells[i]| < limit
  }

  lemma RaiseLimit(buffer: seq<char>, results: seq<nat>, cells: seq<string>, limit: nat, limit': nat)
    requires HoldsAll(buffer, results, cells, limit) && limit <= limit'
    ensures HoldsAll(buffer, results, cells, limit')
  {
  }

  lemma AddCell(buffer: seq<char>, results: seq<nat>, cells: seq<string>, l: nat, cell: string, limit: nat)
    requires HoldsAll(buffer, results, cells, l) && HoldsText(buffer, l, cell) && l + |cell| < limit
    ensures HoldsAll(buffer, results + [l], cells + [cell], limit)
  {
    hide HoldsText;
  }

  lemma AllStillHold(before: seq<char>, after: seq<char>, results: seq<nat>, cells: seq<string>, limit: nat)
    requires HoldsAll(before, results, cells, limit) && |after| == |before| && limit <= |before|
    requires forall i :: 0 <= i < limit ==> after[i] == before[i]
    ensures HoldsAll(after, results, cells, limit)
  {
    forall i | 0 <= i < |results| ensures HoldsText(after, results[i], cells[i]) {
      StillHolds(before, after, results[i], cells[i]);
    }
  }

  lemma FirstOfPrefix(s: string, dim: char, k: nat)
    requires k <= |s| && (k < |s| ==> s[k] == dim) && forall i :: 0 <= i < k ==> s[i] != dim
    ensures FirstOf(s, [dim]) == k
  {
  }

  /** The text and its terminator from offset `p` on. */
  predicate TextFrom(buffer: seq<char>, text: string, p: nat)
  {
    && p <= |text| < |buffer|
    && (forall i :: p <= i < |text| ==> buffer[i] == text[i])
    && buffer[|text|] == NUL
    && (forall i :: 0 <= i < |text| ==> text[i] != NUL)
  }

  /** Between two turns: the cells before `l` are done, `l` starts the next one, and it has no delimiter before `p`. */
  ghost predicate Splitting(buffer: seq<char>, text: string, dim: char, keepNull: bool, l: nat, p: nat,
                            results: seq<nat>, cells: seq<string>) {
    && l <= p && TextFrom(buffer, text, p)
    && (forall i :: l <= i < p ==> buffer[i] == text[i] && text[i] != dim)
    && HoldsAll(buffer, results, cells, l)
    && Kept(text, dim, keepNull) == cells + Kept(text[l..], dim, keepNull)
  }

  lemma NextCell(text: string, dim: char, keepNull: bool, l: nat, p: nat, cells: seq<string>, cells': seq<string>)
    requires l <= p < |text| && text[p] == dim && forall i :: l <= i < p ==> text[i] != dim
    requires Kept(text, dim, keepNull) == cells + Kept(text[l..], dim, keepNull)
    requires cells' == if p > l || keepNull then cells + [text[l..p]] else cells
    ensures Kept(text, dim, keepNull) == cells' + Kept(text[p + 1..], dim, keepNull)
  {
    hide Kept, FirstOf;
    var rest, left := text[l..], Kept(text[p + 1..], dim, keepNull);
    FirstOfPrefix(rest, dim, p - l);
    KeptStep(rest, dim, keepNull);
    assert rest[..p - l] == text[l..p] && rest[p - l + 1..] == text[p + 1..];
    assert cells + ([text[l..p]] + left) == cells + [text[l..p]] + left;
    assert cells + ([] + left) == cells + left;
  }

  lemma LastCell(text: string, dim: char, keepNull: bool, l: nat, cells: seq<string>, cells': seq<string>)
    requires l <= |text| && forall i :: l <= i < |text| ==> text[i] != dim
    requires Kept(text, dim, keepNull) == cells + Kept(text[l..], dim, keepNull)
    requires cells' == if |text| > l || keepNull then cells + [text[l..]] else cells
    ensures cells' == Kept(text, dim, keepNull)
  {
    hide Kept, FirstOf;
    var last := text[l..];
    FirstOfPrefix(last, dim, |last|);
    KeptStep(last, dim, keepNull);
    assert last[..|last|] == last;
    assert [last] + [] == [last] && cells + [] == cells;
  }

  /** A delimiter at `p` closes the cell that starts at `l`. */
  method CloseCell(str: array<char>, dim: char, keepNull: bool, l: nat, p: nat, results: seq<nat>,
                   ghost text: string, ghost cells: seq<string>) returns (results': seq<nat>, ghost cells': seq<string>)
    requires Splitting(str[..], text, dim, keepNull, l, p, results, cells) && str[p] == dim != NUL
    modifies str
    ensures Splitting(str[..], text, dim, keepNull, p + 1, p + 1, results', cells')
    ensures forall i :: 0 <= i < str.Length && i != p ==> str[i] == old(str[i])
  {
    hide Kept, HoldsText, HoldsAll;
    ghost var before, cell := str[..], text[l..p];
    str[p] := NUL;
    AllStillHold(before, str[..], results, cells, l);
    CellHeld(str[..], text, l, p);
    if p + 1 - l > 1 || keepNull {
      AddCell(str[..], results, cells, l, cell, p + 1);
      results', cells' := results + [l], cells + [cell];
    } else {
      RaiseLimit(str[..], results, cells, l, p + 1);
      results', cells' := results, cells;
    }
    NextCell(text, dim, keepNull, l, p, cells, cells');
  }

  lemma StartSplitting(buffer: seq<char>, text: string, dim: char, keepNull: bool)
    requires HoldsText(buffer, 0, text)
    ensures Splitting(buffer, text, dim, keepNull, 0, 0, [], [])
  {
    hide Kept;
    TextInBuffer(buffer, text);
    assert text[0..] == text;
  }

  lemma EndSplitting(buffer: seq<char>, text: string, dim: char, keepNull: bool, l: nat,
                     results: seq<nat>, cells: seq<string>)
    requires Splitting(buffer, text, dim, keepNull, l, |text|, results, cells)
    ensures HoldsAll(buffer, if |text| > l || keepNull then results + [l] else results,
                     Kept(text, dim, keepNull), |text| + 1)
  {
    hide Kept, HoldsText, HoldsAll;
    var last := text[l..];
    assert last == text[l..|text|];
    CellHeld(buffer, text, l, |text|);
    LastCell(text, dim, keepNull, l, cells, if |text| > l || keepNull then cells + [last] else cells);
    if |text| > l || keepNull {
      AddCell(buffer, results, cells, l, last, |text| + 1);
    } else {
      RaiseLimit(buffer, results, cells, l, |text| + 1);
    }
  }

  /** The in-place `split_string`: delimiters become terminators, results are offsets into the buffer. */
  method SplitInPlace(str: array<char>, dim: char, keepNull: bool, ghost text: string) returns (results: seq<nat>)
    requires HoldsText(str[..], 0, text)
    modifies str
    ensures HoldsAll(str[..], results, Kept(text, dim, keepNull), |text| + 1)
    ensures forall i :: |text| <= i < str.Length ==> str[i] == old(str[i])
  {
    hide Kept, HoldsText, HoldsAll;
    results := [];
    var p, l := 0, 0;
    ghost var cells: seq<string> := [];
    StartSplitting(str[..], text, dim, keepNull);
    while str[p] != NUL
      invariant Splitting(str[..], text, dim, keepNull, l, p, results, cells)
      invariant forall i :: |text| <= i < str.Length ==> str[i] == old(str[i])
      decreases |text| - p
    {
      if str[p] == dim {
        results, cells := CloseCell(str, dim, keepNull, l, p, results, text, cells);
        p := p + 1;
        l := p;
      } else {
        p := p + 1;
      }
    }
    EndSplitting(str[..], text, dim, keepNull, l, results, cells);
    if p - l > 0 || keepNull { results := results + [l]; }
  }

  predicate TextIn(buffer: seq<char>, text: string) { TextFrom(buffer, text, 0) }

  lemma TextInBuffer(buffer: seq<char>, text: string)
    requires HoldsText(buffer, 0, text)
    ensures TextIn(buffer, text)
  {
    assert forall i :: 0 <= i < |text| ==> buffer[i] == buffer[0..|text|][i];
  }

  lemma CellHeld(buffer: seq<char>, text: string, l: nat, p: nat)
    requires l <= p <= |text| && p < |buffer| && buffer[p] == NUL
    requires forall i :: l <= i < p ==> buffer[i] == text[i] && text[i] != NUL
    ensures HoldsText(buffer, l, text[l..p])
  {
    assert buffer[l..p] == text[l..p];
  }
}
