/** Kahn's topological sort of src/express_parser/express_parser.cpp. */
module TopoGraph {
  import opened Ordering
  import opened Digraph

  // ----- the order as a function of the graph alone -----

  /** The candidates whose predecessors have all been emitted. */
  function Ready(g: Graph, emitted: set<int>, candidates: seq<int>): (r: seq<int>) {
    if candidates == [] then []
    else
      var init, last := candidates[..|candidates| - 1], candidates[|candidates| - 1];
      Ready(g, emitted, init) + (if Predecessors(g, last) <= emitted then [last] else [])
  }

  /** The state between two turns: `res` was emitted, `q` is queued. */
  ghost predicate Consistent(g: Graph, res: seq<int>, q: seq<int>) {
    && Closed(g)
    && NoDuplicates(res + q)
    && IsTopological(g, res)
    && (forall n :: n in res || n in q <==> n in g && Predecessors(g, n) <= Elements(res))
  }

  function Successors(g: Graph, n: int): set<int> { if n in g then g[n] else {} }

  /** What emitting `node` after `res` adds to the queue. */
  function Released(g: Graph, res: seq<int>, node: int): seq<int> {
    Ready(g, Elements(res + [node]), Sorted(Successors(g, node)))
  }

  lemma {:induction false} ReadyMembers(g: Graph, emitted: set<int>, cs: seq<int>)
    requires NoDuplicates(cs)
    ensures forall n :: n in Ready(g, emitted, cs) <==> n in cs && Predecessors(g, n) <= emitted
    ensures NoDuplicates(Ready(g, emitted, cs))
  {
    if cs != [] { ReadyMembers(g, emitted, cs[..|cs| - 1]); }
  }

  lemma SplitMembers(res: seq<int>, q: seq<int>)
    requires NoDuplicates(res + q)
    ensures forall n :: n in res ==> n !in q
    ensures NoDuplicates(res) && NoDuplicates(q)
  {
    forall i, j | 0 <= i < |res| && 0 <= j < |q| ensures res[i] != q[j] {
      assert (res + q)[i] == res[i] && (res + q)[|res| + j] == q[j];
    }
    forall i, j | 0 <= i < j < |q| ensures q[i] != q[j] {
      assert (res + q)[|res| + i] == q[i] && (res + q)[|res| + j] == q[j];
    }
    forall i, j | 0 <= i < j < |res| ensures res[i] != res[j] {
      assert (res + q)[i] == res[i] && (res + q)[j] == res[j];
    }
  }

  lemma JoinMembers(xs: seq<int>, ys: seq<int>)
    requires NoDuplicates(xs) && NoDuplicates(ys)
    requires forall n :: n in ys ==> n !in xs
    ensures NoDuplicates(xs + ys)
  {
    forall i, j | 0 <= i < j < |xs + ys| ensures (xs + ys)[i] != (xs + ys)[j] {
      if i < |xs| <= j { assert ys[j - |xs|] in ys; }
    }
  }

  lemma SubsetWithout(a: set<int>, b: set<int>, x: int)
    requires a <= b + {x} && x !in a
    ensures a <= b
  {
  }

  lemma EmittedAppend(res: seq<int>, node: int)
    ensures Elements(res + [node]) == Elements(res) + {node}
  {
  }

  /** Exactly the nodes that become ready are released, and none of them was queued or emitted before. */
  lemma ReleasedMembers(g: Graph, res: seq<int>, q: seq<int>)
    requires Consistent(g, res, q) && q != []
    ensures NoDuplicates(Released(g, res, q[0]))
    ensures forall n :: n in Released(g, res, q[0]) ==> n !in res && n !in q
    ensures forall n :: n in g && Predecessors(g, n) <= Elements(res + [q[0]])
                    ==> n in res || n in q || n in Released(g, res, q[0])
    ensures forall n :: n in Released(g, res, q[0]) ==> n in g && Predecessors(g, n) <= Elements(res + [q[0]])
  {
    var node := q[0];
    assert node in q && node in g;
    SplitMembers(res, q);
    EmittedAppend(res, node);
    ReadyMembers(g, Elements(res + [node]), Sorted(g[node]));
    forall n | n in Released(g, res, node) ensures n !in res && n !in q && n in g {
      assert node in Predecessors(g, n) && node !in Elements(res);
    }
    forall n | n in g && Predecessors(g, n) <= Elements(res + [node]) && n !in res && n !in q
      ensures n in Released(g, res, node)
    {
      if node !in Predecessors(g, n) { SubsetWithout(Predecessors(g, n), Elements(res), node); }
    }
  }

  lemma TopologicalAppend(g: Graph, res: seq<int>, node: int)
    requires IsTopological(g, res) && node in g && Predecessors(g, node) <= Elements(res)
    ensures IsTopological(g, res + [node])
  {
    var res' := res + [node];
    forall i | 0 <= i < |res'| ensures res'[i] in g && Predecessors(g, res'[i]) <= Elements(res'[..i]) {
      if i < |res| { assert res'[..i] == res[..i]; } else { assert res'[..i] == res; }
    }
  }

  /** Emitting the head of the queue and queueing what it releases keeps the state consistent. */
  lemma EmitHead(g: Graph, res: seq<int>, q: seq<int>)
    requires Consistent(g, res, q) && q != []
    ensures Consistent(g, res + [q[0]], q[1..] + Released(g, res, q[0]))
  {
    var node, released := q[0], Released(g, res, q[0]);
    var res', q' := res + [node], q[1..] + released;
    assert node in q;
    ReleasedMembers(g, res, q);
    TopologicalAppend(g, res, node);
    EmittedAppend(res, node);
    assert q == [node] + q[1..];
    assert res' + q' == (res + q) + released;
    JoinMembers(res + q, released);
    forall n ensures n in res' || n in q' <==> n in g && Predecessors(g, n) <= Elements(res') {
      assert n in res' || n in q' <==> n in res || n in q || n in released;
    }
  }

  lemma ResultFits(g: Graph, res: seq<int>, q: seq<int>)
    requires Consistent(g, res, q)
    ensures |res| + |q| <= |g|
  {
    CountElements(res + q);
    forall n | n in Elements(res + q) ensures n in g.Keys {
      assert n in res || n in q;
    }
    SubsetIsSmaller(Elements(res + q), g.Keys);
  }

  /** Runs the queue empty, first in first out, successors in ascending order. */
  ghost function Drain(g: Graph, res: seq<int>, q: seq<int>): (r: seq<int>)
    requires Consistent(g, res, q)
    ensures Consistent(g, r, [])
    decreases |g| - |res|
  {
    if q == [] then res
    else
      EmitHead(g, res, q);
      ResultFits(g, res, q);
      Drain(g, res + [q[0]], q[1..] + Released(g, res, q[0]))
  }

  lemma StartIsConsistent(g: Graph)
    requires Closed(g)
    ensures Consistent(g, [], Ready(g, {}, Sorted(g.Keys)))
  {
    ReadyMembers(g, {}, Sorted(g.Keys));
    assert [] + Ready(g, {}, Sorted(g.Keys)) == Ready(g, {}, Sorted(g.Keys));
    assert Elements([]) == {};
  }

  ghost function KahnOrder(g: Graph): (r: seq<int>)
    requires Closed(g)
  {
    StartIsConsistent(g);
    Drain(g, [], Ready(g, {}, Sorted(g.Keys)))
  }

  /** The order is duplicate-free, topological and exhaustive. */
  lemma KahnOrderIsTopological(g: Graph)
    requires Closed(g)
    ensures NoDuplicates(KahnOrder(g)) && IsTopological(g, KahnOrder(g)) && IsExhaustive(g, KahnOrder(g))
  {
    StartIsConsistent(g);
    var r := KahnOrder(g);
    assert Consistent(g, r, []);
    assert r + [] == r;
  }

  lemma {:induction false} DrainExtends(g: Graph, res: seq<int>, q: seq<int>)
    requires Consistent(g, res, q)
    ensures res + q <= Drain(g, res, q)
    decreases |g| - |res|
  {
    hide Released, Consistent;
    if q == [] {
      assert res + q == res;
    } else {
      EmitHead(g, res, q);
      ResultFits(g, res, q);
      DrainExtends(g, res + [q[0]], q[1..] + Released(g, res, q[0]));
      assert res + [q[0]] + (q[1..] + Released(g, res, q[0])) == res + q + Released(g, res, q[0]);
    }
  }

  lemma {:induction false} ReadyIsAscending(g: Graph, emitted: set<int>, cs: seq<int>)
    requires Ascending(cs)
    ensures Ascending(Ready(g, emitted, cs)) && forall n :: n in Ready(g, emitted, cs) ==> n in cs
  {
    if cs != [] {
      hide Predecessors;
      var init := cs[..|cs| - 1];
      ReadyIsAscending(g, emitted, init);
      var r := Ready(g, emitted, init);
      forall i | 0 <= i < |r| ensures r[i] < cs[|cs| - 1] {
        assert r[i] in r && r[i] in init;
        var k :| 0 <= k < |init| && init[k] == r[i];
      }
    }
  }

  /** The nodes without predecessors, in ascending order. */
  function Roots(g: Graph): (r: seq<int>) { Ready(g, {}, Sorted(g.Keys)) }

  /** The order starts with all nodes without predecessors, in ascending order. */
  lemma RootsComeFirst(g: Graph)
    requires Closed(g)
    ensures Roots(g) <= KahnOrder(g) && Ascending(Roots(g))
    ensures forall n :: n in Roots(g) <==> n in g && Predecessors(g, n) == {}
  {
    hide Drain, Ready, Predecessors;
    StartIsConsistent(g);
    DrainExtends(g, [], Roots(g));
    assert [] + Roots(g) == Roots(g);
    ReadyIsAscending(g, {}, Sorted(g.Keys));
    ReadyMembers(g, {}, Sorted(g.Keys));
  }

  /** For every edge into the result, its source is in the result and strictly earlier. */
  lemma EdgesPointForward(g: Graph, u: int, v: int)
    requires Closed(g) && u in g && v in g[u]
    ensures v in KahnOrder(g) ==>
              exists i, j :: 0 <= i < j < |KahnOrder(g)| && KahnOrder(g)[i] == u && KahnOrder(g)[j] == v
  {
    hide KahnOrder, NoDuplicates, IsExhaustive, Closed;
    KahnOrderIsTopological(g);
    var r := KahnOrder(g);
    if v in r {
      var j :| 0 <= j < |r| && r[j] == v;
      assert u in Predecessors(g, v);
      assert u in Elements(r[..j]);
      var i :| 0 <= i < j && r[..j][i] == u;
      assert r[i] == u;
    }
  }

  /** The result holds exactly the nodes no cycle reaches; it is complete if and only if there is no cycle. */
  lemma KahnOrderIsComplete(g: Graph)
    requires Closed(g)
    ensures forall n :: n in KahnOrder(g) <==> n in g && !BehindCycle(g, n)
    ensures Elements(KahnOrder(g)) == g.Keys <==> Acyclic(g)
  {
    KahnOrderIsTopological(g);
    ListedExactlyWhenFreeOfCycles(g, KahnOrder(g));
    CompleteExactlyWhenAcyclic(g, KahnOrder(g));
  }

  // ----- the class -----

  /** How many predecessors of `n` are not in `emitted`. */
  function Waiting(g: Graph, n: int, emitted: set<int>): nat { |Predecessors(g, n) - emitted| }

  /** `in_degree_` counts the predecessors that are not in `emitted`. */
  predicate Counts(g: Graph, inDegree: map<int, int>, emitted: set<int>) {
    && inDegree.Keys == g.Keys
    && forall n :: n in g ==> inDegree[n] == Waiting(g, n, emitted)
  }

  function WithNode(g: Graph, n: int): Graph { if n in g then g else g[n := {}] }

  function WithEdge(g: Graph, from: int, to: int): Graph {
    var h := WithNode(WithNode(g, from), to);
    h[from := h[from] + {to}]
  }

  class TopoGraph {
    var graph: Graph
    var inDegree: map<int, int>

    /** The table as `add_node` and `add_edge` leave it. */
    ghost predicate Built()
      reads this
    {
      Closed(graph) && Counts(graph, inDegree, {})
    }

    constructor ()
      ensures Built() && graph == map[]
    {
      graph := map[];
      inDegree := map[];
    }

    method AddNode(n: int)
      requires Built()
      modifies this
      ensures Built() && graph == WithNode(old(graph), n)
    {
      hide Waiting;
      if n !in graph {
        NodeWaits(graph, n);
        graph := graph[n := {}];
        inDegree := inDegree[n := 0];
      }
    }

    method AddEdge(from: int, to: int)
      requires Built()
      modifies this
      ensures Built() && graph == WithEdge(old(graph), from, to)
    {
      hide Waiting;
      AddNode(from);
      AddNode(to);
      EdgeWaits(graph, from, to);
      var inserted := to !in graph[from];
      graph := graph[from := graph[from] + {to}];
      if inserted {
        inDegree := inDegree[to := inDegree[to] + 1];
      }
    }

    /** The nodes of in-degree 0 in key order. */
    method InitialQueue() returns (q: seq<int>)
      requires Built()
      ensures q == Ready(graph, {}, Sorted(graph.Keys))
    {
      hide Waiting, Predecessors, Ready, Closed;
      q := [];
      var nodes := Sorted(inDegree.Keys);
      ReadyOfNone(graph, {});
      for i := 0 to |nodes|
        invariant q == Ready(graph, {}, nodes[..i])
      {
        var node := nodes[i];
        assert node in nodes;
        ReadyAppend(graph, {}, nodes, i);
        if inDegree[node] == 0 { q := q + [node]; }
      }
      assert nodes[..|nodes|] == nodes;
    }

    /** Lowers the in-degree of one successor and queues it when that reaches 0. */
    method Lower(edges: seq<int>, k: nat, q: seq<int>, ghost emitted: set<int>) returns (q': seq<int>)
      requires k < |edges| && Lowered(graph, inDegree, emitted, edges, k)
      requires q == Ready(graph, emitted, edges[..k])
      modifies this`inDegree
      ensures Lowered(graph, inDegree, emitted, edges, k + 1)
      ensures q' == Ready(graph, emitted, edges[..k + 1])
    {
      hide Waiting, Ready, Lowered;
      var edge := edges[k];
      LowerOne(graph, inDegree, emitted, edges, k);
      ReadyAppend(graph, emitted, edges, k);
      inDegree := inDegree[edge := inDegree[edge] - 1];
      q' := q;
      if inDegree[edge] == 0 { q' := q' + [edge]; }
    }

    /** The inner loop over the successors of an emitted node. */
    method Release(node: int, ghost res: seq<int>, q: seq<int>) returns (q': seq<int>)
      requires Closed(graph) && Counts(graph, inDegree, Elements(res)) && node in graph && node !in res
      modifies this`inDegree
      ensures Counts(graph, inDegree, Elements(res + [node]))
      ensures q' == q + Released(graph, res, node)
    {
      ghost var emitted := Elements(res + [node]);
      var edges := Sorted(graph[node]);
      LowerNone(graph, inDegree, res, node);
      ReadyOfNone(graph, emitted);
      hide Ready, Lowered;
      var released := [];
      for k := 0 to |edges|
        invariant Lowered(graph, inDegree, emitted, edges, k)
        invariant released == Ready(graph, emitted, edges[..k])
      {
        released := Lower(edges, k, released, emitted);
      }
      LoweredAll(graph, inDegree, emitted, edges);
      assert edges[..|edges|] == edges;
      q' := q + released;
    }

    /** The first call on a built graph: the in-degrees are consumed. */
    method TopoSort() returns (res: seq<int>)
      requires Built()
      modifies this`inDegree
      ensures res == KahnOrder(graph)
      ensures forall n :: n in res <==> n in graph && !BehindCycle(graph, n)
      ensures Elements(res) == graph.Keys <==> Acyclic(graph)
      ensures Counts(graph, inDegree, Elements(res))
    {
      hide Predecessors, Ready, Released, Counts, Waiting, Elements, IsTopological, BehindCycle, Acyclic;
      res := [];
      var q := InitialQueue();
      StartIsConsistent(graph);
      NothingEmitted();
      while q != []
        invariant Consistent(graph, res, q)
        invariant Drain(graph, res, q) == KahnOrder(graph)
        invariant Counts(graph, inDegree, Elements(res))
        decreases |graph| - |res|
      {
        EmitHead(graph, res, q);
        ResultFits(graph, res, q);
        var node := q[0];
        SplitMembers(res, q);
        assert node in q && node !in res;
        q := q[1..];
        q := Release(node, res, q);
        res := res + [node];
      }
      KahnOrderIsComplete(graph);
    }
  }

  lemma NothingEmitted()
    ensures Elements([]) == {}
  {
  }

  lemma ReadyOfNone(g: Graph, emitted: set<int>)
    ensures Ready(g, emitted, []) == []
  {
  }

  lemma ReadyAppend(g: Graph, emitted: set<int>, cs: seq<int>, k: nat)
    requires k < |cs|
    ensures Ready(g, emitted, cs[..k + 1])
            == Ready(g, emitted, cs[..k]) + (if Waiting(g, cs[k], emitted) == 0 then [cs[k]] else [])
  {
    assert cs[..k + 1][..k] == cs[..k];
    NoneLeft(Predecessors(g, cs[k]), emitted);
  }

  lemma NoneLeft(a: set<int>, b: set<int>)
    ensures |a - b| == 0 <==> a <= b
  {
    if a <= b {
      assert a - b == {};
    } else {
      var u := Missing(a, b);
      assert u in a - b;
    }
  }

  /** A new node has no predecessors and is nobody's predecessor. */
  lemma NodeWaits(g: Graph, n: int)
    requires Closed(g) && n !in g
    ensures Closed(g[n := {}]) && Waiting(g[n := {}], n, {}) == 0
    ensures forall v :: v in g ==> Waiting(g[n := {}], v, {}) == Waiting(g, v, {})
  {
    var h := g[n := {}];
    forall v ensures Predecessors(h, v) == Predecessors(g, v) {}
    assert Predecessors(g, n) == {} by { assert forall u :: u in g ==> n !in g[u]; }
    assert Predecessors(h, n) - {} == {};
  }

  /** One more edge is one more predecessor of its target, unless it was there already. */
  lemma EdgeWaitsAt(g: Graph, from: int, to: int, v: int)
    requires from in g
    ensures Waiting(g[from := g[from] + {to}], v, {})
            == Waiting(g, v, {}) + (if v == to && to !in g[from] then 1 else 0)
  {
    var h := g[from := g[from] + {to}];
    var before, after := Predecessors(g, v) - {}, Predecessors(h, v) - {};
    if v == to && to !in g[from] {
      assert after == before + {from} && from !in before;
    } else {
      assert after == before;
    }
  }

  lemma EdgeWaits(g: Graph, from: int, to: int)
    requires Closed(g) && from in g && to in g
    ensures Closed(g[from := g[from] + {to}])
    ensures forall v :: v in g ==> Waiting(g[from := g[from] + {to}], v, {}) ==
                                   Waiting(g, v, {}) + (if v == to && to !in g[from] then 1 else 0)
  {
    forall v | v in g
      ensures Waiting(g[from := g[from] + {to}], v, {})
              == Waiting(g, v, {}) + (if v == to && to !in g[from] then 1 else 0)
    {
      EdgeWaitsAt(g, from, to, v);
    }
  }

  /** Emitting a node takes one from the waiting predecessors of each of its successors. */
  lemma EmittedWaits(g: Graph, n: int, res: seq<int>, node: int)
    requires node in g && node !in res
    ensures Waiting(g, n, Elements(res))
            == Waiting(g, n, Elements(res + [node])) + (if n in g[node] then 1 else 0)
  {
    EmittedAppend(res, node);
    var before, after := Predecessors(g, n) - Elements(res), Predecessors(g, n) - Elements(res + [node]);
    if n in g[node] {
      assert before == after + {node} && node !in after;
    } else {
      assert before == after;
    }
  }

  /** The in-degrees after the first `k` successors of the emitted node were lowered. */
  predicate Lowered(g: Graph, inDegree: map<int, int>, emitted: set<int>, edges: seq<int>, k: nat)
    requires k <= |edges|
  {
    && inDegree.Keys == g.Keys
    && Ascending(edges)
    && (forall v :: v in edges ==> v in g)
    && forall n :: n in g ==> inDegree[n] == Waiting(g, n, emitted) + (if n in edges[k..] then 1 else 0)
  }

  lemma LowerNone(g: Graph, inDegree: map<int, int>, res: seq<int>, node: int)
    requires Closed(g) && Counts(g, inDegree, Elements(res)) && node in g && node !in res
    ensures Lowered(g, inDegree, Elements(res + [node]), Sorted(g[node]), 0)
  {
    var edges := Sorted(g[node]);
    assert edges[0..] == edges;
    forall n | n in g
      ensures inDegree[n] == Waiting(g, n, Elements(res + [node])) + (if n in edges then 1 else 0)
    {
      EmittedWaits(g, n, res, node);
    }
  }

  lemma LowerOne(g: Graph, inDegree: map<int, int>, emitted: set<int>, edges: seq<int>, k: nat)
    requires k < |edges| && Lowered(g, inDegree, emitted, edges, k)
    ensures edges[k] in inDegree && inDegree[edges[k]] == Waiting(g, edges[k], emitted) + 1
    ensures Lowered(g, inDegree[edges[k] := inDegree[edges[k]] - 1], emitted, edges, k + 1)
  {
    hide Waiting;
    assert edges[k] in edges && edges[k] in edges[k..];
    assert edges[k..] == [edges[k]] + edges[k + 1..] && edges[k] !in edges[k + 1..];
  }

  lemma LoweredAll(g: Graph, inDegree: map<int, int>, emitted: set<int>, edges: seq<int>)
    requires Lowered(g, inDegree, emitted, edges, |edges|)
    ensures Counts(g, inDegree, emitted)
  {
  }
}
