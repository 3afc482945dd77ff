/** In which order Kahn's algorithm lists the nodes, said of the list alone. */
module QueueOrder {
  import opened Ordering
  import opened Digraph
  import opened TopoGraph

  /** Position of the last predecessor of `v` in `xs`, -1 when there is none. */
  function LastPredecessor(g: Graph, xs: seq<int>, v: int): (k: int)
    ensures -1 <= k < |xs|
    ensures k >= 0 ==> xs[k] in Predecessors(g, v)
    ensures forall m :: k < m < |xs| ==> xs[m] !in Predecessors(g, v)
  {
    if xs == [] then -1
    else if xs[|xs| - 1] in Predecessors(g, v) then |xs| - 1
    else LastPredecessor(g, xs[..|xs| - 1], v)
  }

  /** The last predecessor of `u` comes before that of `v`, or both have the same one, or none, and `u` is smaller. */
  predicate Before(g: Graph, xs: seq<int>, u: int, v: int) {
    var i, j := LastPredecessor(g, xs, u), LastPredecessor(g, xs, v);
    i < j || (i == j && u < v)
  }

  /** First in, first out. */
  predicate InQueueOrder(g: Graph, xs: seq<int>) {
    forall i, j :: 0 <= i < |xs| && 0 <= j < |xs| ==> (i < j <==> Before(g, xs, xs[i], xs[j]))
  }

  /** `xs` is in ascending order of the last predecessors in `res`. */
  predicate Queued(g: Graph, res: seq<int>, xs: seq<int>) {
    forall i, j :: 0 <= i < j < |xs| ==> Before(g, res, xs[i], xs[j])
  }

  lemma SameLast(g: Graph, res: seq<int>, node: int, v: int)
    ensures LastPredecessor(g, res + [node], v)
            == if node in Predecessors(g, v) then |res| else LastPredecessor(g, res, v)
  {
    assert (res + [node])[..|res|] == res;
  }

  /** Emitting a node leaves the order of what was emitted or queued as it is. */
  lemma OldStayQueued(g: Graph, res: seq<int>, q: seq<int>, xs: seq<int>)
    requires Consistent(g, res, q) && q != [] && Queued(g, res, xs)
    requires forall n :: n in xs ==> n in res || n in q
    ensures Queued(g, res + [q[0]], xs)
    ensures forall n :: n in xs ==> LastPredecessor(g, res + [q[0]], n) < |res|
  {
    hide LastPredecessor;
    SplitMembers(res, q);
    forall n | n in xs
      ensures LastPredecessor(g, res + [q[0]], n) == LastPredecessor(g, res, n) < |res|
    {
      assert q[0] in q && q[0] !in Elements(res);
      SameLast(g, res, q[0], n);
    }
    hide Consistent;
    assert forall i :: 0 <= i < |xs| ==> xs[i] in xs;
  }

  /** The released nodes queue up behind, in ascending order. */
  lemma ReleasedAreQueued(g: Graph, res: seq<int>, q: seq<int>)
    requires Consistent(g, res, q) && q != []
    ensures Ascending(Released(g, res, q[0]))
    ensures forall n :: n in Released(g, res, q[0]) ==> LastPredecessor(g, res + [q[0]], n) == |res|
  {
    hide LastPredecessor, Ready;
    var node := q[0];
    assert node in q && node in g;
    ReadyIsAscending(g, Elements(res + [node]), Sorted(g[node]));
    forall n | n in Released(g, res, node) ensures LastPredecessor(g, res + [node], n) == |res| {
      assert n in g[node];
      SameLast(g, res, node, n);
    }
  }

  lemma JoinQueued(g: Graph, res: seq<int>, xs: seq<int>, ys: seq<int>, k: int)
    requires Queued(g, res, xs) && forall n :: n in xs ==> LastPredecessor(g, res, n) < k
    requires Ascending(ys) && forall n :: n in ys ==> LastPredecessor(g, res, n) == k
    ensures Queued(g, res, xs + ys)
  {
    hide LastPredecessor;
    assert forall i :: 0 <= i < |xs| ==> xs[i] in xs;
    assert forall i :: 0 <= i < |ys| ==> ys[i] in ys;
  }

  lemma {:induction false} DrainKeepsQueue(g: Graph, res: seq<int>, q: seq<int>)
    requires Consistent(g, res, q) && Queued(g, res, res + q)
    ensures Queued(g, Drain(g, res, q), Drain(g, res, q))
    decreases |g| - |res|
  {
    hide Released, Consistent, Queued;
    if q == [] {
      assert res + q == res;
    } else {
      var node, released := q[0], Released(g, res, q[0]);
      EmitHead(g, res, q);
      ResultFits(g, res, q);
      OldStayQueued(g, res, q, res + q);
      ReleasedAreQueued(g, res, q);
      JoinQueued(g, res + [node], res + q, released, |res|);
      assert res + [node] + (q[1..] + released) == res + q + released;
      DrainKeepsQueue(g, res + [node], q[1..] + released);
    }
  }

  lemma RootsAreQueued(g: Graph)
    requires Closed(g)
    ensures Queued(g, [], Roots(g))
  {
    hide Ready, Queued;
    ReadyIsAscending(g, {}, Sorted(g.Keys));
    AscendingIsQueued(g, Roots(g));
  }

  lemma AscendingIsQueued(g: Graph, xs: seq<int>)
    requires Ascending(xs)
    ensures Queued(g, [], xs)
  {
  }

  /** The first-in-first-out law: a node stands before another if and only if its last predecessor in the list does, or
      both have the same last predecessor, or none, and it is smaller. */
  lemma KahnOrderIsFirstInFirstOut(g: Graph)
    requires Closed(g)
    ensures InQueueOrder(g, KahnOrder(g))
  {
    hide Drain, Consistent, Queued, Before, Roots, Ready;
    StartIsConsistent(g);
    RootsAreQueued(g);
    assert [] + Roots(g) == Roots(g);
    assert Roots(g) == Ready(g, {}, Sorted(g.Keys)) by { RootsAre(g); }
    DrainKeepsQueue(g, [], Roots(g));
    QueuedIsOrder(g, KahnOrder(g));
  }

  lemma RootsAre(g: Graph)
    ensures Roots(g) == Ready(g, {}, Sorted(g.Keys))
  {
    hide Ready, Sorted;
  }

  lemma QueuedIsOrder(g: Graph, xs: seq<int>)
    requires Queued(g, xs, xs)
    ensures InQueueOrder(g, xs)
  {
    hide LastPredecessor;
    forall i, j | 0 <= i < |xs| && 0 <= j < |xs| ensures i < j <==> Before(g, xs, xs[i], xs[j]) {
      if j < i { assert Before(g, xs, xs[j], xs[i]); }
    }
  }

  // ----- nothing else is in that order -----

  /** A duplicate-free list of all it can hold, every node behind its predecessors, in queue order. */
  predicate IsKahnList(g: Graph, xs: seq<int>) {
    NoDuplicates(xs) && IsTopological(g, xs) && IsExhaustive(g, xs) && InQueueOrder(g, xs)
  }

  /** What comes behind a node is no predecessor of it. */
  lemma {:induction false} LastIsInFront(g: Graph, xs: seq<int>, front: seq<int>, v: int)
    requires front <= xs && NoDuplicates(xs) && Predecessors(g, v) <= Elements(front)
    ensures LastPredecessor(g, xs, v) == LastPredecessor(g, front, v)
    decreases |xs|
  {
    if front != xs {
      var n := |xs| - 1;
      assert forall i :: 0 <= i < |front| ==> front[i] == xs[i] != xs[n];
      assert front <= xs[..n];
      LastIsInFront(g, xs[..n], front, v);
    } else {
      assert xs == front;
    }
  }

  predicate SameUpTo(xs: seq<int>, ys: seq<int>, k: nat) {
    k <= |xs| && k <= |ys| && forall i :: 0 <= i < k ==> xs[i] == ys[i]
  }

  lemma SameFronts(xs: seq<int>, ys: seq<int>, k: nat)
    requires SameUpTo(xs, ys, k)
    ensures xs[..k] == ys[..k]
  {
  }

  /** Lists that agree up to `k` agree at `k`. */
  lemma SameNext(g: Graph, xs: seq<int>, ys: seq<int>, k: nat)
    requires IsKahnList(g, xs) && IsKahnList(g, ys) && Elements(xs) == Elements(ys)
    requires k < |xs| && k < |ys| && SameUpTo(xs, ys, k)
    ensures xs[k] == ys[k]
  {
    SameFronts(xs, ys, k);
    var a, b := xs[k], ys[k];
    if a != b {
      hide IsTopological, IsExhaustive, LastPredecessor;
      var i := PlaceBehind(xs, ys, k);
      var j := PlaceBehind(ys, xs, k);
      assert Before(g, xs, xs[k], xs[i]) && Before(g, ys, ys[k], ys[j]);
      SameKey(g, xs, ys, k, a);
      SameKey(g, xs, ys, k, b);
    }
  }

  lemma PlaceBehind(xs: seq<int>, ys: seq<int>, k: nat) returns (i: nat)
    requires k < |xs| && k < |ys| && SameUpTo(xs, ys, k) && xs[k] != ys[k]
    requires NoDuplicates(ys) && Elements(ys) <= Elements(xs)
    ensures k < i < |xs| && xs[i] == ys[k]
  {
    assert ys[k] in Elements(ys);
    i :| 0 <= i < |xs| && xs[i] == ys[k];
  }

  lemma SameKey(g: Graph, xs: seq<int>, ys: seq<int>, k: nat, v: int)
    requires NoDuplicates(xs) && NoDuplicates(ys) && k <= |xs| && k <= |ys| && xs[..k] == ys[..k]
    requires Predecessors(g, v) <= Elements(xs[..k])
    ensures LastPredecessor(g, xs, v) == LastPredecessor(g, ys, v)
  {
    LastIsInFront(g, xs, xs[..k], v);
    LastIsInFront(g, ys, ys[..k], v);
  }

  lemma {:induction false} SameFront(g: Graph, xs: seq<int>, ys: seq<int>, k: nat)
    requires IsKahnList(g, xs) && IsKahnList(g, ys) && Elements(xs) == Elements(ys)
    requires k <= |xs| == |ys|
    ensures SameUpTo(xs, ys, k)
  {
    if k > 0 {
      hide IsKahnList;
      SameFront(g, xs, ys, k - 1);
      SameNext(g, xs, ys, k - 1);
    }
  }

  lemma SameMembers(xs: seq<int>, ys: seq<int>)
    requires forall n :: n in xs <==> n in ys
    ensures Elements(xs) == Elements(ys)
  {
    forall n ensures n in Elements(xs) <==> n in Elements(ys) { assert n in xs <==> n in ys; }
  }

  /** The result is the one list of that kind. */
  lemma KahnOrderIsTheOnlyOne(g: Graph, xs: seq<int>)
    requires Closed(g)
    ensures IsKahnList(g, xs) <==> xs == KahnOrder(g)
  {
    hide KahnOrder, BehindCycle, InQueueOrder, IsTopological, IsExhaustive, NoDuplicates;
    KahnOrderIsTopological(g);
    KahnOrderIsFirstInFirstOut(g);
    var ys := KahnOrder(g);
    if IsKahnList(g, xs) {
      ListedExactlyWhenFreeOfCycles(g, xs);
      ListedExactlyWhenFreeOfCycles(g, ys);
      SameMembers(xs, ys);
      CountElements(xs);
      CountElements(ys);
      SameFront(g, xs, ys, |xs|);
    }
  }
}
