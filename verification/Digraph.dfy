/** Finite directed graphs, walks, cycles, and orders in which every node follows its predecessors. */
module Digraph {
  type Graph = map<int, set<int>>

  predicate Closed(g: Graph) { forall u, v :: u in g && v in g[u] ==> v in g }

  function Predecessors(g: Graph, v: int): set<int> { set u | u in g && v in g[u] }

  /** Consecutive nodes are joined by edges. */
  predicate IsWalk(g: Graph, p: seq<int>) {
    && p != []
    && (forall i :: 0 <= i < |p| ==> p[i] in g)
    && (forall i :: 0 <= i < |p| - 1 ==> p[i + 1] in g[p[i]])
  }

  predicate IsCycle(g: Graph, p: seq<int>) { IsWalk(g, p) && |p| >= 2 && p[0] == p[|p| - 1] }

  ghost predicate OnCycle(g: Graph, c: int) { exists p :: IsCycle(g, p) && p[0] == c }

  /** Some cycle reaches `n` (possibly because `n` lies on it). */
  ghost predicate BehindCycle(g: Graph, n: int) {
    exists p :: IsWalk(g, p) && OnCycle(g, p[0]) && p[|p| - 1] == n
  }

  ghost predicate Acyclic(g: Graph) { forall p :: !IsCycle(g, p) }

  predicate NoDuplicates<T(==)>(xs: seq<T>) { forall i, j :: 0 <= i < j < |xs| ==> xs[i] != xs[j] }

  function Elements(xs: seq<int>): set<int> { set x | x in xs }

  /** Every node of `xs` comes after all its predecessors. */
  predicate IsTopological(g: Graph, xs: seq<int>) {
    forall i :: 0 <= i < |xs| ==> xs[i] in g && Predecessors(g, xs[i]) <= Elements(xs[..i])
  }

  /** Every node that was left out still waits for a predecessor that was left out. */
  predicate IsExhaustive(g: Graph, xs: seq<int>) {
    forall n :: n in g && n !in xs ==> !(Predecessors(g, n) <= Elements(xs))
  }

  // ----- pigeonhole -----

  lemma {:induction false} CountElements(xs: seq<int>)
    requires NoDuplicates(xs)
    ensures |Elements(xs)| == |xs|
  {
    if xs != [] {
      var init := xs[..|xs| - 1];
      CountElements(init);
      assert Elements(xs) == Elements(init) + {xs[|xs| - 1]};
    }
  }

  lemma SubsetIsSmaller(a: set<int>, b: set<int>)
    requires a <= b
    ensures |a| <= |b|
  {
    assert b == a + (b - a);
  }

  /** A sequence longer than the set its elements come from repeats an element. */
  lemma Pigeonhole(xs: seq<int>, s: set<int>) returns (i: nat, j: nat)
    requires Elements(xs) <= s && |xs| > |s|
    ensures i < j < |xs| && xs[i] == xs[j]
  {
    if NoDuplicates(xs) {
      CountElements(xs);
      SubsetIsSmaller(Elements(xs), s);
      assert false;
    }
    i, j :| 0 <= i < j < |xs| && xs[i] == xs[j];
  }

  // ----- nodes in a topological list are not behind a cycle -----

  /** A walk that ends in the list runs through the list, strictly backwards. */
  lemma {:induction false} WalkStaysInside(g: Graph, xs: seq<int>, p: seq<int>, k: nat)
    requires IsTopological(g, xs) && IsWalk(g, p) && k < |xs| && p[|p| - 1] == xs[k]
    ensures p[0] in xs && (|p| >= 2 ==> p[0] in xs[..k])
    decreases |p|
  {
    if |p| >= 2 {
      var q := p[..|p| - 1];
      assert p[|p| - 1] in g[p[|p| - 2]];
      assert p[|p| - 2] in Predecessors(g, xs[k]);
      var j :| 0 <= j < k && xs[j] == p[|p| - 2];
      WalkStaysInside(g, xs, q, j);
      if |p| == 2 {
        assert p[0] == xs[..k][j];
      } else {
        assert p[0] in xs[..j];
        assert xs[..j] == xs[..k][..j];
      }
    }
  }

  lemma ListedIsFreeOfCycles(g: Graph, xs: seq<int>, n: int)
    requires IsTopological(g, xs) && NoDuplicates(xs) && n in xs
    ensures !BehindCycle(g, n)
  {
    if BehindCycle(g, n) {
      var p :| IsWalk(g, p) && OnCycle(g, p[0]) && p[|p| - 1] == n;
      var k :| 0 <= k < |xs| && xs[k] == n;
      WalkStaysInside(g, xs, p, k);
      var c :| IsCycle(g, c) && c[0] == p[0];
      var m :| 0 <= m < |xs| && xs[m] == c[0];
      WalkStaysInside(g, xs, c, m);
    }
  }

  // ----- nodes left out are behind a cycle -----

  lemma Missing(a: set<int>, b: set<int>) returns (u: int)
    requires !(a <= b)
    ensures u in a && u !in b
  {
    if forall v: int :: v in a ==> v in b { assert false; }
    u :| u in a && u !in b;
  }

  /** From a left-out node one can walk backwards through left-out nodes for ever. */
  lemma {:induction false} WalkBackwards(g: Graph, xs: seq<int>, n: int, steps: nat) returns (p: seq<int>)
    requires Closed(g) && IsExhaustive(g, xs) && n in g && n !in xs
    ensures IsWalk(g, p) && p[|p| - 1] == n && |p| == steps + 1
    ensures Elements(p) <= g.Keys - Elements(xs)
  {
    if steps == 0 {
      p := [n];
    } else {
      var q := WalkBackwards(g, xs, n, steps - 1);
      assert q[0] in Elements(q);
      assert q[0] in g.Keys - Elements(xs);
      assert !(Predecessors(g, q[0]) <= Elements(xs));
      var u := Missing(Predecessors(g, q[0]), Elements(xs));
      p := [u] + q;
    }
  }

  lemma LeftOutIsBehindCycle(g: Graph, xs: seq<int>, n: int)
    requires Closed(g) && IsExhaustive(g, xs) && n in g && n !in xs
    ensures BehindCycle(g, n)
  {
    var p := WalkBackwards(g, xs, n, |g.Keys|);
    var i, j := Pigeonhole(p, g.Keys);
    var cycle, exit := p[i..j + 1], p[j..];
    assert IsCycle(g, cycle) && cycle[0] == exit[0];
    assert IsWalk(g, exit) && OnCycle(g, exit[0]) && exit[|exit| - 1] == n;
  }

  /** A duplicate-free, topological and exhaustive list holds exactly the nodes no cycle reaches. */
  lemma ListedExactlyWhenFreeOfCycles(g: Graph, xs: seq<int>)
    requires Closed(g) && NoDuplicates(xs) && IsTopological(g, xs) && IsExhaustive(g, xs)
    ensures forall n :: n in xs <==> n in g && !BehindCycle(g, n)
  {
    forall n ensures n in xs <==> n in g && !BehindCycle(g, n) {
      if n in xs {
        ListedIsFreeOfCycles(g, xs, n);
      } else if n in g {
        LeftOutIsBehindCycle(g, xs, n);
      }
    }
  }

  /** Such a list is complete if and only if the graph has no cycle. */
  lemma CompleteExactlyWhenAcyclic(g: Graph, xs: seq<int>)
    requires Closed(g) && NoDuplicates(xs) && IsTopological(g, xs) && IsExhaustive(g, xs)
    ensures Elements(xs) == g.Keys <==> Acyclic(g)
  {
    ListedExactlyWhenFreeOfCycles(g, xs);
    if Acyclic(g) {
      forall n | n in g ensures n in xs {
        if BehindCycle(g, n) { assert false; }
      }
      assert Elements(xs) == g.Keys;
    } else {
      var p :| IsCycle(g, p);
      assert IsWalk(g, [p[0]]) && OnCycle(g, [p[0]][0]);
      assert BehindCycle(g, p[0]);
      assert p[0] in g.Keys && p[0] !in Elements(xs);
    }
  }
}
