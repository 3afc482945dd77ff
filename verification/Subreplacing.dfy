/** `subreplace` of src/common/vulcan_utility.cpp: replacing the first occurrence until none is left. */
module Subreplacing {
  import opened Numerals
  import opened StringTools

  // ----- the loop as a function -----

  /** One turn of the loop. */
  function Turn(dst: string, sub: string, new_: string): string
    requires Contains(dst, sub)
  {
    var pos := Find(dst, sub);
    dst[..pos] + new_ + dst[pos + |sub|..]
  }

  /** At most `n` turns; none once no occurrence is left. */
  function Turns(dst: string, sub: string, new_: string, n: nat): string
    decreases n
  {
    if n == 0 || !Contains(dst, sub) then dst else Turns(Turn(dst, sub, new_), sub, new_, n - 1)
  }

  predicate Ended(dst: string, sub: string, new_: string, n: nat) { !Contains(Turns(dst, sub, new_, n), sub) }

  /** The loop ends on `dst`. */
  ghost predicate Ends(dst: string, sub: string, new_: string) { exists n: nat :: Ended(dst, sub, new_, n) }

  /** The loop ends on `dst` with `result`. */
  ghost predicate Yields(dst: string, sub: string, new_: string, result: string) {
    !Contains(result, sub) && exists n: nat :: Turns(dst, sub, new_, n) == result
  }

  lemma {:induction false} EndedStays(dst: string, sub: string, new_: string, n: nat, m: nat)
    requires Ended(dst, sub, new_, n)
    ensures Turns(dst, sub, new_, n + m) == Turns(dst, sub, new_, n)
    decreases n
  {
    hide Turn, Contains;
    if n > 0 && Contains(dst, sub) { EndedStays(Turn(dst, sub, new_), sub, new_, n - 1, m); }
  }

  /** The loop yields at most one result. */
  lemma YieldsOnce(dst: string, sub: string, new_: string, a: string, b: string)
    requires Yields(dst, sub, new_, a) && Yields(dst, sub, new_, b)
    ensures a == b
  {
    hide Turns, Contains;
    var n: nat :| Turns(dst, sub, new_, n) == a;
    var m: nat :| Turns(dst, sub, new_, m) == b;
    EndedStays(dst, sub, new_, n, m);
    EndedStays(dst, sub, new_, m, n);
  }

  /** `subreplace`, on every call that returns. */
  method Subreplace(resource: string, sub: string, new_: string) returns (dst: string)
    requires Ends(resource, sub, new_)
    ensures Yields(resource, sub, new_, dst)
    ensures Safe(sub, new_) ==> dst == Replaced(resource, sub, new_)
  {
    hide Find, Safe, Replaced;
    dst := resource;
    ghost var n: nat :| Ended(resource, sub, new_, n);
    ghost var left := n;
    var pos := Find(dst, sub);
    while pos <= |dst|
      invariant pos == Find(dst, sub)
      invariant Turns(resource, sub, new_, n) == Turns(dst, sub, new_, left)
      decreases left
    {
      assert left > 0;
      dst := dst[..pos] + new_ + dst[pos + |sub|..];
      left := left - 1;
      pos := Find(dst, sub);
    }
    if Safe(sub, new_) {
      SafeIsNotEmpty(sub, new_);
      SafeYieldsReplaced(resource, sub, new_);
      YieldsOnce(resource, sub, new_, dst, Replaced(resource, sub, new_));
    }
  }

  // ----- when one pass from the left suffices -----

  function Front(sub: string, i: nat): string requires i <= |sub| { sub[..i] }

  function Back(sub: string, i: nat): string requires i <= |sub| { sub[i..] }

  predicate EndsIn(s: string, p: string) { |p| <= |s| && s[|s| - |p|..] == p }

  /** No occurrence can straddle a replacement that `sub[..i]` precedes or ends. */
  predicate SafeAt(sub: string, new_: string, i: nat)
    requires i <= |sub|
  {
    && !EndsIn(new_, Front(sub, i))
    && (Back(sub, i) <= new_ || new_ <= Back(sub, i) ==> Find(Front(sub, i) + sub, sub) < i)
  }

  /** What a caller can check of the two arguments before the call. */
  predicate Safe(sub: string, new_: string) {
    && sub != "" && !Contains(new_, sub)
    && forall i :: 0 < i < |sub| ==> SafeAt(sub, new_, i)
  }

  /** Whatever follows `done`, no occurrence of `sub` starts inside it. */
  ghost predicate Sealed(done: string, sub: string) {
    forall tail: string, j :: 0 <= j < |done| ==> !OccursAt(done + tail, sub, j)
  }

  lemma OccursShifted(a: string, b: string, sub: string, j: nat)
    requires j >= |a|
    ensures OccursAt(a + b, sub, j) <==> OccursAt(b, sub, j - |a|)
  {
    if j + |sub| <= |a + b| { assert (a + b)[j..j + |sub|] == b[j - |a|..j - |a| + |sub|]; }
  }

  lemma FindShifted(a: string, b: string, sub: string)
    requires Sealed(a, sub)
    ensures Find(a + b, sub) == |a| + Find(b, sub)
  {
    forall j | |a| <= j ensures OccursAt(a + b, sub, j) <==> OccursAt(b, sub, j - |a|) {
      OccursShifted(a, b, sub, j);
    }
    var i := Find(a + b, sub);
    assert forall j :: 0 <= j < |a| ==> !OccursAt(a + b, sub, j);
    if i < |a| + Find(b, sub) {
      OccursShifted(a, b, sub, i);
    } else if i > |a| + Find(b, sub) {
      OccursShifted(a, b, sub, |a| + Find(b, sub));
    }
  }

  lemma SealedAppend(a: string, b: string, sub: string)
    requires Sealed(a, sub) && Sealed(b, sub)
    ensures Sealed(a + b, sub)
  {
    forall tail: string, j | 0 <= j < |a + b| ensures !OccursAt(a + b + tail, sub, j) {
      assert a + b + tail == a + (b + tail);
      if j >= |a| { OccursShifted(a, b + tail, sub, j); }
    }
  }

  /** An occurrence at `j` that reaches past the end of `a` splits into the end of `a` and the front of what follows. */
  lemma Straddles(a: string, b: string, sub: string, j: nat)
    requires OccursAt(a + b, sub, j) && j < |a| < j + |sub|
    ensures var i := |a| - j;
            && 0 < i < |sub| && EndsIn(a, Front(sub, i))
            && |Back(sub, i)| <= |b| && b[..|sub| - i] == Back(sub, i)
  {
    var i := |a| - j;
    var t := a + b;
    assert t[j..j + |sub|] == sub;
    assert a[j..] == t[j..|a|] == t[j..j + |sub|][..i];
    assert b[..|sub| - i] == t[|a|..j + |sub|] == t[j..j + |sub|][i..];
  }

  /** No occurrence starts in the gap before a leftmost occurrence once that occurrence is replaced. */
  lemma NotInGap(gap: string, sub: string, new_: string, tail: string, j: nat)
    requires Safe(sub, new_) && Find(gap + sub, sub) == |gap| && j < |gap|
    ensures !OccursAt(gap + (new_ + tail), sub, j)
  {
    hide Find, Contains;
    if OccursAt(gap + (new_ + tail), sub, j) {
      assert !OccursAt(gap + sub, sub, j);
      if j + |sub| <= |gap| {
        OccursInPrefix(gap, new_ + tail, sub, j);
        OccursInPrefix(gap, sub, sub, j);
      } else {
        Straddles(gap, new_ + tail, sub, j);
        var i := |gap| - j;
        PrefixOfBoth(Back(sub, i), new_, tail);
        assert SafeAt(sub, new_, i);
        EarlierOccurrence(gap, sub, Front(sub, i));
      }
    }
  }

  lemma PrefixOfBoth(q: string, a: string, b: string)
    requires |q| <= |a + b| && (a + b)[..|q|] == q
    ensures q <= a || a <= q
  {
    if |q| <= |a| { assert (a + b)[..|q|] == a[..|q|]; } else { assert q[..|a|] == (a + b)[..|a|]; }
  }

  lemma SplitEnd(gap: string, p: string, sub: string) returns (front: string)
    requires EndsIn(gap, p)
    ensures |gap| == |front| + |p| && gap + sub == front + (p + sub)
  {
    front := gap[..|gap| - |p|];
    assert gap == front + p;
  }

  lemma FoundBy(s: string, sub: string, k: nat)
    requires OccursAt(s, sub, k)
    ensures Find(s, sub) <= k <= |s|
  {
    hide Find;
  }

  lemma FoundAt(s: string, sub: string)
    requires Find(s, sub) <= |s|
    ensures OccursAt(s, sub, Find(s, sub))
  {
    hide Find;
  }

  lemma FoundBehind(front: string, rest: string, sub: string)
    requires Find(rest, sub) <= |rest|
    ensures Find(front + rest, sub) <= |front| + Find(rest, sub)
  {
    hide Find, OccursAt;
    FoundAt(rest, sub);
    OccursShifted(front, rest, sub, |front| + Find(rest, sub));
    FoundBy(front + rest, sub, |front| + Find(rest, sub));
  }

  /** An occurrence in `p + sub` before its end is one in `gap + sub` when `gap` ends in `p`. */
  lemma EarlierOccurrence(gap: string, sub: string, p: string)
    requires EndsIn(gap, p) && Find(p + sub, sub) < |p|
    ensures Find(gap + sub, sub) < |gap|
  {
    hide Find, OccursAt, EndsIn;
    var front := SplitEnd(gap, p, sub);
    FoundBehind(front, p + sub, sub);
  }

  lemma SafeEnding(sub: string, new_: string, i: nat)
    requires Safe(sub, new_) && 0 < i < |sub|
    ensures !EndsIn(new_, Front(sub, i))
  {
    assert SafeAt(sub, new_, i);
  }

  lemma NotInReplacement(sub: string, new_: string, tail: string, j: nat)
    requires Safe(sub, new_) && j < |new_|
    ensures !OccursAt(new_ + tail, sub, j)
  {
    hide Find;
    if OccursAt(new_ + tail, sub, j) {
      if j + |sub| <= |new_| {
        OccursInPrefix(new_, tail, sub, j);
      } else {
        SafeEnding(sub, new_, |new_| - j);
        Straddles(new_, tail, sub, j);
      }
    }
  }

  /** The text before a leftmost occurrence, closed by the replacement, is sealed. */
  lemma ReplacementSeals(gap: string, sub: string, new_: string)
    requires Safe(sub, new_) && Find(gap + sub, sub) == |gap|
    ensures Sealed(gap + new_, sub)
  {
    hide Find, Safe, OccursAt;
    forall tail: string, j | 0 <= j < |gap + new_| ensures !OccursAt(gap + new_ + tail, sub, j) {
      assert gap + new_ + tail == gap + (new_ + tail);
      if j < |gap| {
        NotInGap(gap, sub, new_, tail, j);
      } else {
        OccursShifted(gap, new_ + tail, sub, j);
        NotInReplacement(sub, new_, tail, j - |gap|);
      }
    }
  }

  /** After `n` turns `result` is reached and nothing is left to replace. */
  predicate Reaches(dst: string, sub: string, new_: string, result: string, n: nat) {
    Turns(dst, sub, new_, n) == result && !Contains(result, sub)
  }

  lemma ReachesFromNext(dst: string, sub: string, new_: string, result: string, n: nat)
    requires Contains(dst, sub) && Reaches(Turn(dst, sub, new_), sub, new_, result, n)
    ensures Reaches(dst, sub, new_, result, n + 1)
  {
    hide Turn, Contains;
  }

  /** `s` cut at its first occurrence of `sub`. */
  predicate CutAtFirst(s: string, sub: string, gap: string, left: string) {
    && s == gap + sub + left && Find(s, sub) == |gap| && Find(gap + sub, sub) == |gap|
  }

  lemma FirstCut(s: string, sub: string) returns (gap: string, left: string)
    requires Contains(s, sub)
    ensures CutAtFirst(s, sub, gap, left)
  {
    hide Find;
    FoundAt(s, sub);
    gap, left := s[..Find(s, sub)], s[Find(s, sub) + |sub|..];
    assert s == gap + sub + left;
    hide OccursAt;
    FindInPrefix(gap, sub, left);
  }

  lemma ReplacedAtCut(s: string, sub: string, new_: string, gap: string, left: string)
    requires sub != "" && CutAtFirst(s, sub, gap, left)
    ensures Replaced(s, sub, new_) == gap + new_ + Replaced(left, sub, new_) && |left| < |s|
  {
    hide Find, Replaced;
    ReplacedStep(s, sub, new_);
    assert s[..|gap|] == gap && s[|gap| + |sub|..] == left;
  }

  lemma TurnIs(dst: string, sub: string, new_: string, before: string, after: string)
    requires dst == before + sub + after && Find(dst, sub) == |before|
    ensures Contains(dst, sub) && Turn(dst, sub, new_) == before + new_ + after
  {
    hide Find;
    assert dst[..|before|] == before && dst[|before| + |sub|..] == after;
  }

  lemma Regroup4(a: string, b: string, c: string, d: string)
    ensures a + (b + c + d) == a + b + c + d
  {
  }

  lemma TurnAtCut(done: string, s: string, sub: string, new_: string, gap: string, left: string)
    requires CutAtFirst(s, sub, gap, left) && Find(done + s, sub) == |done| + Find(s, sub)
    ensures Contains(done + s, sub) && Turn(done + s, sub, new_) == done + gap + new_ + left
  {
    hide Find, Turn, Contains;
    Regroup4(done, gap, sub, left);
    TurnIs(done + s, sub, new_, done + gap, left);
  }

  /** One turn on `done + rest`: the sealed part grows by the gap before the occurrence and the replacement. */
  lemma ReplaceFirst(done: string, rest: string, sub: string, new_: string) returns (done': string, left: string)
    requires Safe(sub, new_) && Sealed(done, sub) && Contains(rest, sub)
    ensures Contains(done + rest, sub) && Turn(done + rest, sub, new_) == done' + left
    ensures Sealed(done', sub) && |left| < |rest|
    ensures done + Replaced(rest, sub, new_) == done' + Replaced(left, sub, new_)
  {
    SafeIsNotEmpty(sub, new_);
    hide Find, Safe, Sealed, Replaced, Turn, OccursAt, Contains, CutAtFirst;
    var gap, left' := FirstCut(rest, sub);
    assert done + gap + new_ == done + (gap + new_);
    FindShifted(done, rest, sub);
    ReplacedAtCut(rest, sub, new_, gap, left');
    TurnAtCut(done, rest, sub, new_, gap, left');
    CutSeals(rest, sub, new_, gap, left');
    SealedAppend(done, gap + new_, sub);
    done', left := done + (gap + new_), left';
    Regroup3(done, gap, new_, Replaced(left, sub, new_));
  }

  lemma CutSeals(s: string, sub: string, new_: string, gap: string, left: string)
    requires Safe(sub, new_) && CutAtFirst(s, sub, gap, left)
    ensures Sealed(gap + new_, sub)
  {
    hide Find, Safe, Sealed;
    ReplacementSeals(gap, sub, new_);
  }

  /** Behind sealed text, the turns do to the rest what a single pass does. */
  lemma {:induction false} TurnsReplace(done: string, rest: string, sub: string, new_: string) returns (n: nat)
    requires sub != "" && Safe(sub, new_) && Sealed(done, sub)
    ensures Reaches(done + rest, sub, new_, done + Replaced(rest, sub, new_), n)
    decreases |rest|
  {
    hide Find, Safe, Sealed, Replaced, Reaches, Turn, OccursAt, Contains;
    if Contains(rest, sub) {
      var done', left := ReplaceFirst(done, rest, sub, new_);
      var m := TurnsReplace(done', left, sub, new_);
      ReachesFromNext(done + rest, sub, new_, done' + Replaced(left, sub, new_), m);
      n := m + 1;
    } else {
      NothingToReplace(done, rest, sub, new_);
      n := 0;
    }
  }

  lemma NothingToReplace(done: string, rest: string, sub: string, new_: string)
    requires sub != "" && Sealed(done, sub) && !Contains(rest, sub)
    ensures Reaches(done + rest, sub, new_, done + Replaced(rest, sub, new_), 0)
  {
    hide Find, Replaced;
    FindShifted(done, rest, sub);
    ContainsBehind(done, rest, sub);
    ReplacedStep(rest, sub, new_);
  }

  lemma ContainsBehind(done: string, rest: string, sub: string)
    requires Find(done + rest, sub) == |done| + Find(rest, sub)
    ensures Contains(done + rest, sub) == Contains(rest, sub) == (Find(rest, sub) <= |rest|)
  {
    hide Find;
  }

  lemma Regroup3(a: string, b: string, c: string, d: string)
    ensures a + (b + c) + d == a + (b + c + d)
  {
  }

  lemma SafeIsNotEmpty(sub: string, new_: string)
    requires Safe(sub, new_)
    ensures sub != ""
  {
  }

  lemma SafeYieldsReplaced(s: string, sub: string, new_: string)
    requires Safe(sub, new_)
    ensures Yields(s, sub, new_, Replaced(s, sub, new_)) && Ends(s, sub, new_)
  {
    SafeIsNotEmpty(sub, new_);
    hide Safe, Replaced, Turns, Contains;
    assert Sealed("", sub) && "" + s == s && "" + Replaced(s, sub, new_) == Replaced(s, sub, new_);
    var n := TurnsReplace("", s, sub, new_);
    assert Ended(s, sub, new_, n);
  }

  // ----- exactly when the two helpers agree -----

  lemma ShortIsKept(s: string, sub: string, new_: string)
    requires |s| < |sub|
    ensures Replaced(s, sub, new_) == s
  {
    hide Find;
    if Contains(s, sub) { FoundAt(s, sub); }
    ReplacedStep(s, sub, new_);
  }

  lemma OccursFirst(s: string, sub: string, rest: string)
    requires s == sub + rest
    ensures CutAtFirst(s, sub, "", rest)
  {
    hide Find;
    FoundBy(sub + rest, sub, 0);
    FoundBy("" + sub, sub, 0);
  }

  /** When the replacement contains what it replaces, replacing the string itself leaves an occurrence. */
  lemma ContainingLeaves(sub: string, new_: string)
    requires sub != "" && Contains(new_, sub)
    ensures Contains(Replaced(sub, sub, new_), sub)
  {
    hide Find, Replaced;
    assert sub == sub + "";
    OccursFirst(sub, sub, "");
    ReplacedAtCut(sub, sub, new_, "", "");
    ShortIsKept("", sub, new_);
    assert "" + new_ + "" == new_;
  }

  /** When it ends in a front of `sub`, the back of `sub` behind an occurrence completes another. */
  lemma EndingLeaves(sub: string, new_: string, i: nat)
    requires 0 < i < |sub| && EndsIn(new_, Front(sub, i))
    ensures Contains(Replaced(sub + Back(sub, i), sub, new_), sub)
  {
    hide Find, Replaced;
    var p, q := Front(sub, i), Back(sub, i);
    OccursFirst(sub + q, sub, q);
    ReplacedAtCut(sub + q, sub, new_, "", q);
    ShortIsKept(q, sub, new_);
    var front := SplitEnd(new_, p, q);
    assert "" + new_ + q == front + (p + q) && p + q == sub;
    OccursAtEnd(front, sub);
    FoundBy(front + sub, sub, |front|);
  }

  /** When it covers or is covered by the back of `sub`, the front of `sub` before an occurrence completes another. */
  lemma CoveringLeaves(sub: string, new_: string, i: nat, rest: string)
    requires 0 < i < |sub| && Find(Front(sub, i) + sub, sub) == i
    requires if rest == "" then Back(sub, i) <= new_ else Back(sub, i) == new_ + rest
    ensures Contains(Replaced(Front(sub, i) + sub + rest, sub, new_), sub)
  {
    hide Find, Replaced;
    var p, q := Front(sub, i), Back(sub, i);
    assert |rest| < |sub| && |p| == i && p + q == sub;
    hide Front, Back;
    FindInPrefix(p, sub, rest);
    ReplacedAtCut(p + sub + rest, sub, new_, p, rest);
    ShortIsKept(rest, sub, new_);
    hide OccursAt;
    Completes(p, q, new_, rest, sub);
    FoundBy(p + new_ + rest, sub, 0);
  }

  lemma Completes(p: string, q: string, new_: string, rest: string, sub: string)
    requires p + q == sub && if rest == "" then q <= new_ else q == new_ + rest
    ensures OccursAt(p + new_ + rest, sub, 0)
  {
    var r := p + new_ + rest;
    assert r[0..|sub|] == p + (new_ + rest)[..|q|];
    assert (new_ + rest)[..|q|] == q;
  }

  lemma UnsafeLeaves(sub: string, new_: string) returns (s: string)
    requires sub != "" && !Safe(sub, new_)
    ensures Contains(Replaced(s, sub, new_), sub)
  {
    if Contains(new_, sub) {
      ContainingLeaves(sub, new_);
      s := sub;
    } else {
      hide Find;
      var i :| 0 < i < |sub| && !SafeAt(sub, new_, i);
      var p, q := Front(sub, i), Back(sub, i);
      if EndsIn(new_, p) {
        EndingLeaves(sub, new_, i);
        s := sub + q;
      } else {
        OccursAtEnd(p, sub);
        FoundBy(p + sub, sub, i);
        var rest := if q <= new_ then "" else q[|new_|..];
        CoveringLeaves(sub, new_, i, rest);
        s := p + sub + rest;
      }
    }
  }

  /** `replace` leaves no occurrence in any text if and only if the arguments are safe. */
  lemma NothingLeftExactlyWhenSafe(sub: string, new_: string)
    requires sub != ""
    ensures (forall s :: !Contains(Replaced(s, sub, new_), sub)) <==> Safe(sub, new_)
  {
    hide Contains, Replaced, Safe, Yields;
    if Safe(sub, new_) {
      forall s ensures !Contains(Replaced(s, sub, new_), sub) {
        SafeYieldsReplaced(s, sub, new_);
        YieldsNothingLeft(s, sub, new_, Replaced(s, sub, new_));
      }
    } else {
      var s := UnsafeLeaves(sub, new_);
    }
  }

  lemma YieldsNothingLeft(s: string, sub: string, new_: string, result: string)
    requires Yields(s, sub, new_, result)
    ensures !Contains(result, sub)
  {
  }

  /** `subreplace` ends with the result of `replace` on every text if and only if the arguments are safe. */
  lemma HelpersAgreeExactlyWhenSafe(sub: string, new_: string)
    requires sub != ""
    ensures (forall s :: Yields(s, sub, new_, Replaced(s, sub, new_))) <==> Safe(sub, new_)
  {
    hide Contains, Replaced, Safe, Yields;
    if Safe(sub, new_) {
      forall s ensures Yields(s, sub, new_, Replaced(s, sub, new_)) { SafeYieldsReplaced(s, sub, new_); }
    } else {
      var s := UnsafeLeaves(sub, new_);
      if Yields(s, sub, new_, Replaced(s, sub, new_)) {
        YieldsNothingLeft(s, sub, new_, Replaced(s, sub, new_));
      }
    }
  }

  lemma YieldsAfterTurn(dst: string, sub: string, new_: string, result: string)
    requires Contains(dst, sub) && Yields(Turn(dst, sub, new_), sub, new_, result)
    ensures Yields(dst, sub, new_, result)
  {
    hide Find, Turn, Contains;
    var n: nat :| Turns(Turn(dst, sub, new_), sub, new_, n) == result;
    assert Turns(dst, sub, new_, n + 1) == result;
  }

  lemma YieldsItself(dst: string, sub: string, new_: string)
    requires !Contains(dst, sub)
    ensures Yields(dst, sub, new_, dst)
  {
    hide Contains;
    assert Turns(dst, sub, new_, 0) == dst;
  }

  /** The helpers differ on unsafe arguments: from "aabb" one pass takes the inner "ab", the loop everything. */
  lemma RestartingCascades()
    ensures !Safe("ab", "") && Replaced("aabb", "ab", "") == "ab" && Yields("aabb", "ab", "", "")
  {
    hide Find, Replaced, Turns;
    InnerIsFirst();
    OccursFirst("ab", "ab", "");
    ReplacedAtCut("aabb", "ab", "", "a", "b");
    ShortIsKept("b", "ab", "");
    TurnIs("aabb", "ab", "", "a", "b");
    TurnIs("ab", "ab", "", "", "");
    assert "a" + "" + "b" == "ab" && "" + "" + "" == "";
    if Contains("", "ab") { FoundAt("", "ab"); }
    YieldsItself("", "ab", "");
    YieldsAfterTurn("ab", "ab", "", "");
    YieldsAfterTurn("aabb", "ab", "", "");
    if Safe("ab", "") {
      SafeYieldsReplaced("aabb", "ab", "");
      YieldsOnce("aabb", "ab", "", "", "ab");
    }
  }

  lemma InnerIsFirst()
    ensures CutAtFirst("aabb", "ab", "a", "b")
  {
    assert OccursAt("aabb", "ab", 1) && OccursAt("a" + "ab", "ab", 1);
    assert "aabb"[0..2][1] == 'a' && "ab"[1] == 'b' && ("a" + "ab")[0..2][1] == 'a';
    assert !OccursAt("aabb", "ab", 0) && !OccursAt("a" + "ab", "ab", 0);
    hide Find;
    FoundBy("aabb", "ab", 1);
    FoundBy("a" + "ab", "ab", 1);
    FoundAt("aabb", "ab");
    FoundAt("a" + "ab", "ab");
  }

  // ----- when the loop ends -----

  /** When the replacement contains what it replaces, a turn leaves another occurrence. */
  lemma TurnLeavesAnother(dst: string, sub: string, new_: string)
    requires Contains(dst, sub) && Contains(new_, sub)
    ensures Contains(Turn(dst, sub, new_), sub)
  {
    hide Find;
    FoundAt(dst, sub);
    FoundAt(new_, sub);
    var before, after := dst[..Find(dst, sub)], dst[Find(dst, sub) + |sub|..];
    var j := Find(new_, sub);
    OccursInPrefix(new_, after, sub, j);
    OccursShifted(before, new_ + after, sub, |before| + j);
    assert before + new_ + after == before + (new_ + after);
    FoundBy(before + new_ + after, sub, |before| + j);
  }

  /** Then the loop never ends once it starts. */
  lemma {:induction false} NeverEnds(dst: string, sub: string, new_: string, n: nat)
    requires Contains(dst, sub) && Contains(new_, sub)
    ensures !Ended(dst, sub, new_, n)
    decreases n
  {
    hide Turn, Contains;
    if n > 0 {
      TurnLeavesAnother(dst, sub, new_);
      NeverEnds(Turn(dst, sub, new_), sub, new_, n - 1);
    }
  }

  lemma EndsAfterTurn(dst: string, sub: string, new_: string)
    requires Contains(dst, sub) && Ends(Turn(dst, sub, new_), sub, new_)
    ensures Ends(dst, sub, new_)
  {
    hide Turn, Contains;
    var n: nat :| Ended(Turn(dst, sub, new_), sub, new_, n);
    assert Ended(dst, sub, new_, n + 1);
  }

  lemma EndsAtOnce(dst: string, sub: string, new_: string)
    requires !Contains(dst, sub)
    ensures Ends(dst, sub, new_)
  {
    assert Ended(dst, sub, new_, 0);
  }

  lemma {:induction false} ShrinkingEnds(dst: string, sub: string, new_: string)
    requires |new_| < |sub|
    ensures Ends(dst, sub, new_)
    decreases |dst|
  {
    hide Ends, Find;
    if Contains(dst, sub) {
      FoundAt(dst, sub);
      ShrinkingEnds(Turn(dst, sub, new_), sub, new_);
      EndsAfterTurn(dst, sub, new_);
    } else {
      EndsAtOnce(dst, sub, new_);
    }
  }

  // A string as a numeral in base `BASE`, so that replacing by a string of the same length always raises or always
  // lowers the number.

  const BASE := 0x11_0000

  function Power(n: nat): (p: nat)
    ensures p > 0
  {
    if n == 0 then 1 else BASE * Power(n - 1)
  }

  function Number(s: string): (v: nat)
    ensures v < Power(|s|)
  {
    if s == "" then 0 else BASE * Number(s[..|s| - 1]) + s[|s| - 1] as int
  }

  lemma {:induction false} NumberOfConcat(a: string, b: string)
    ensures Number(a + b) == Number(a) * Power(|b|) + Number(b)
    decreases |b|
  {
    if b == "" {
      assert a + b == a;
    } else {
      var front, last := b[..|b| - 1], b[|b| - 1] as int;
      NumberOfConcat(a, front);
      assert (a + b)[..|a + b| - 1] == a + front;
      Distribute(BASE, Number(a), Power(|front|), Number(front), last);
    }
  }

  lemma {:induction false} NumberDecides(a: string, b: string)
    requires |a| == |b| && Number(a) == Number(b)
    ensures a == b
  {
    if a != "" {
      var k := |a| - 1;
      NumberDecides(a[..k], b[..k]);
      assert a == a[..k] + [a[k]] && b == b[..k] + [b[k]];
    }
  }

  /** How far a turn by a string of the same length moves the number. */
  lemma TurnMoves(dst: string, sub: string, new_: string)
    requires Contains(dst, sub) && |new_| == |sub|
    ensures |Turn(dst, sub, new_)| == |dst|
    ensures Number(new_) < Number(sub) ==> Number(Turn(dst, sub, new_)) < Number(dst)
    ensures Number(new_) > Number(sub) ==> Number(Turn(dst, sub, new_)) > Number(dst)
  {
    hide Find, Number, Power;
    FoundAt(dst, sub);
    var before, after := dst[..Find(dst, sub)], dst[Find(dst, sub) + |sub|..];
    assert dst == before + sub + after && Turn(dst, sub, new_) == before + new_ + after;
    if Number(new_) < Number(sub) { MiddleDecides(before, new_, sub, after); }
    if Number(new_) > Number(sub) { MiddleDecides(before, sub, new_, after); }
  }

  lemma MiddleDecides(before: string, x: string, y: string, after: string)
    requires |x| == |y| && Number(x) < Number(y)
    ensures Number(before + x + after) < Number(before + y + after)
  {
    hide Number, Power;
    NumberOfConcat(before, x);
    NumberOfConcat(before, y);
    NumberOfConcat(before + x, after);
    NumberOfConcat(before + y, after);
    Scale(Number(before + x), Number(before + y), Power(|after|));
  }

  lemma Scale(x: nat, y: nat, p: nat)
    requires x < y && p > 0
    ensures x * p < y * p
  {
  }

  lemma {:induction false} SameLengthEnds(dst: string, sub: string, new_: string)
    requires |new_| == |sub| && new_ != sub
    ensures Ends(dst, sub, new_)
    decreases if Number(new_) < Number(sub) then Number(dst) else Power(|dst|) - Number(dst)
  {
    hide Ends, Turn, Contains, Number, Power;
    if Contains(dst, sub) {
      if Number(new_) == Number(sub) { NumberDecides(new_, sub); }
      TurnMoves(dst, sub, new_);
      SameLengthEnds(Turn(dst, sub, new_), sub, new_);
      EndsAfterTurn(dst, sub, new_);
    } else {
      EndsAtOnce(dst, sub, new_);
    }
  }

  /** For a replacement no longer than what it replaces, the loop ends unless it replaces a string by itself. */
  lemma EndsExactlyUnlessSame(dst: string, sub: string, new_: string)
    requires sub != "" && |new_| <= |sub|
    ensures Ends(dst, sub, new_) <==> new_ != sub || !Contains(dst, sub)
  {
    hide Ended, Contains;
    if !Contains(dst, sub) {
      EndsAtOnce(dst, sub, new_);
    } else if new_ == sub {
      assert Contains(new_, sub) by { ContainsItself(sub); }
      forall n: nat ensures !Ended(dst, sub, new_, n) { NeverEnds(dst, sub, new_, n); }
    } else if |new_| < |sub| {
      ShrinkingEnds(dst, sub, new_);
    } else {
      SameLengthEnds(dst, sub, new_);
    }
  }

  lemma ContainsItself(sub: string)
    ensures Contains(sub, sub)
  {
    FoundBy(sub, sub, 0);
  }

  /** For a single character the loop ends unless the replacement holds that character. */
  lemma EndsExactlyForOneCharacter(dst: string, c: char, new_: string)
    ensures Ends(dst, [c], new_) <==> c !in new_ || c !in dst
  {
    hide Ended, Contains, Safe;
    ContainsCharacter(dst, c);
    ContainsCharacter(new_, c);
    if c !in new_ {
      OneCharacterIsSafe(c, new_);
      SafeYieldsReplaced(dst, [c], new_);
    } else if c !in dst {
      EndsAtOnce(dst, [c], new_);
    } else {
      forall n: nat ensures !Ended(dst, [c], new_, n) { NeverEnds(dst, [c], new_, n); }
    }
  }

  lemma OccursOne(s: string, c: char, k: nat)
    requires OccursAt(s, [c], k)
    ensures c in s
  {
    assert s[k..k + 1][0] == s[k];
  }

  lemma ContainsCharacter(s: string, c: char)
    ensures Contains(s, [c]) <==> c in s
  {
    hide Find, OccursAt;
    if Contains(s, [c]) {
      FoundAt(s, [c]);
      OccursOne(s, c, Find(s, [c]));
    }
    if c in s {
      var k :| 0 <= k < |s| && s[k] == c;
      assert s[..k] + [c] + s[k + 1..] == s;
      OccursAtEnd(s[..k], [c]);
      OccursInPrefix(s[..k] + [c], s[k + 1..], [c], k);
      FoundBy(s, [c], k);
    }
  }

  lemma OneCharacterIsSafe(c: char, new_: string)
    requires c !in new_
    ensures Safe([c], new_)
  {
    ContainsCharacter(new_, c);
  }
}
