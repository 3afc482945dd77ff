/** The table order of `generate_pgsql_for_schema` in src/express_parser/express_parser_cli.cpp. */
module PgSqlGenerator {
  import opened Digraph
  import opened Options
  import opened Ordering
  import opened TopoGraph
  import opened ExpressSchema

  // ----- the hierarchy as values -----

  /** Ids of the listed subtypes per entity, -1 for a name that did not resolve; and the supertype's id or -1. */
  datatype Hierarchy = Hierarchy(subtypes: seq<seq<int>>, supertypes: seq<int>)

  const NONE := -1

  function WithEdges(g: Graph, from: int, tos: seq<int>): Graph {
    if tos == [] then g else WithEdge(WithEdges(g, from, tos[..|tos| - 1]), from, tos[|tos| - 1])
  }

  /** The graph after the entities before `k` were processed. */
  function SubtypeGraph(subtypes: seq<seq<int>>, k: nat): Graph
    requires k <= |subtypes|
  {
    if k == 0 then map[] else WithEdges(SubtypeGraph(subtypes, k - 1), k - 1, subtypes[k - 1])
  }

  predicate Edge(g: Graph, u: int, v: int) { u in g && v in g[u] }

  lemma WithEdgeIs(g: Graph, from: int, to: int)
    requires Closed(g)
    ensures var h := WithEdge(g, from, to);
            && Closed(h)
            && h.Keys == g.Keys + {from, to}
            && (forall u, v :: Edge(h, u, v) <==> Edge(g, u, v) || (u == from && v == to))
  {
  }

  lemma {:induction false} WithEdgesIs(g: Graph, from: int, tos: seq<int>)
    requires Closed(g)
    ensures var h := WithEdges(g, from, tos);
            && Closed(h)
            && h.Keys == g.Keys + (if tos == [] then {} else {from}) + Elements(tos)
            && (forall u, v :: Edge(h, u, v) <==> Edge(g, u, v) || (u == from && v in tos))
  {
    if tos == [] {
      assert Elements(tos) == {};
    } else {
      hide WithEdge, Edge, Closed, Elements;
      var init, last := tos[..|tos| - 1], tos[|tos| - 1];
      WithEdgesIs(g, from, init);
      WithEdgeIs(WithEdges(g, from, init), from, last);
      EndsWith(tos, init, last);
    }
  }

  lemma EndsWith(xs: seq<int>, init: seq<int>, last: int)
    requires xs != [] && init == xs[..|xs| - 1] && last == xs[|xs| - 1]
    ensures Elements(xs) == Elements(init) + {last}
    ensures forall x :: x in xs <==> x in init || x == last
  {
    assert xs == init + [last];
  }

  /** An edge joins an entity to each of its listed subtypes; nodes are the entities that take part in one. */
  lemma {:induction false} SubtypeGraphIs(subtypes: seq<seq<int>>, k: nat)
    requires k <= |subtypes|
    ensures var g := SubtypeGraph(subtypes, k);
            && Closed(g)
            && (forall u, v :: Edge(g, u, v) <==> 0 <= u < k && v in subtypes[u])
            && (forall n :: n in g <==> TakesPart(subtypes, k, n))
  {
    if k > 0 {
      hide WithEdges, Edge, Closed;
      var g, tos := SubtypeGraph(subtypes, k - 1), subtypes[k - 1];
      SubtypeGraphIs(subtypes, k - 1);
      WithEdgesIs(g, k - 1, tos);
      forall n ensures n in SubtypeGraph(subtypes, k) <==> TakesPart(subtypes, k, n) {
        TakesPartStep(subtypes, k, n);
      }
    } else {
      assert forall u, v :: !Edge(map[], u, v);
    }
  }

  /** Among the first `k` entities, `n` lists a subtype or is listed as one. */
  predicate TakesPart(subtypes: seq<seq<int>>, k: nat, n: int)
    requires k <= |subtypes|
  {
    (0 <= n < k && subtypes[n] != []) || exists u :: 0 <= u < k && n in subtypes[u]
  }

  lemma TakesPartStep(subtypes: seq<seq<int>>, k: nat, n: int)
    requires 1 <= k <= |subtypes|
    ensures TakesPart(subtypes, k, n)
            <==> TakesPart(subtypes, k - 1, n) || (n == k - 1 && subtypes[k - 1] != []) || n in subtypes[k - 1]
  {
    if TakesPart(subtypes, k, n) && !(0 <= n < k && subtypes[n] != []) {
      var u :| 0 <= u < k && n in subtypes[u];
    }
  }

  // ----- the emitted statements -----

  /** One `create_pgsql_for_entity`: a table and the table it inherits from, or NONE. */
  datatype Statement = CreateTable(entity: int, parent: int)

  datatype Generation =
    | Emitted(statements: seq<Statement>)
    | NoOrder            // `topo_order[0]` of an empty order
    | NullEntity         // an id without an entity is dereferenced
    | RootHasSupertype   // the assertion on the first entity fails
    | UnsetSubtypes      // the number of subtypes of an entity is read that was never set

  function StatementsFor(supertypes: seq<int>, order: seq<int>): (r: seq<Statement>)
    requires forall n :: n in order ==> 0 <= n < |supertypes|
    ensures |r| == |order|
    ensures forall i :: 0 <= i < |r| ==> order[i] in order && r[i] == CreateTable(order[i], supertypes[order[i]])
  {
    seq(|order|, i requires 0 <= i < |order| && order[i] in order => CreateTable(order[i], supertypes[order[i]]))
  }

  function FromOrder(supertypes: seq<int>, order: seq<int>): Generation {
    if order == [] then NoOrder
    else if !(0 <= order[0] < |supertypes|) then NullEntity
    else if supertypes[order[0]] != NONE then RootHasSupertype
    else if exists n :: n in order && !(0 <= n < |supertypes|) then NullEntity
    else Emitted(StatementsFor(supertypes, order))
  }

  ghost function HierarchyGraph(h: Hierarchy): (g: Graph)
    ensures Closed(g)
  {
    SubtypeGraphIs(h.subtypes, |h.subtypes|);
    SubtypeGraph(h.subtypes, |h.subtypes|)
  }

  ghost function Generated(h: Hierarchy): Generation {
    FromOrder(h.supertypes, KahnOrder(HierarchyGraph(h)))
  }

  predicate PointsBack(h: Hierarchy, u: int, v: int) { 0 <= v < |h.supertypes| && h.supertypes[v] == u }

  predicate IsListed(h: Hierarchy, u: int, v: int) { 0 <= u < |h.subtypes| && v in h.subtypes[u] }

  /** Every listed subtype resolves. */
  predicate ListedResolve(h: Hierarchy) {
    && |h.subtypes| == |h.supertypes|
    && forall u, v :: 0 <= u < |h.subtypes| && v in h.subtypes[u] ==> 0 <= v < |h.supertypes|
  }

  /** Every supertype lists its subtype. */
  predicate SupertypesList(h: Hierarchy) {
    forall v :: 0 <= v < |h.supertypes| && h.supertypes[v] != NONE ==> IsListed(h, h.supertypes[v], v)
  }

  /** Every listed subtype resolves and names the lister as its supertype. */
  predicate ListedPointBack(h: Hierarchy) {
    && |h.subtypes| == |h.supertypes|
    && forall u, v :: 0 <= u < |h.subtypes| && v in h.subtypes[u] ==> PointsBack(h, u, v)
  }

  predicate LinksAgree(h: Hierarchy) { ListedPointBack(h) && SupertypesList(h) }

  predicate ParentsFirst(stmts: seq<Statement>) {
    forall i :: 0 <= i < |stmts| && stmts[i].parent != NONE
                ==> exists j :: 0 <= j < i && stmts[j].entity == stmts[i].parent
  }

  predicate OncePerEntity(stmts: seq<Statement>) {
    forall i, j :: 0 <= i < j < |stmts| ==> stmts[i].entity != stmts[j].entity
  }

  predicate ParentsAreSupertypes(supertypes: seq<int>, stmts: seq<Statement>) {
    forall i :: 0 <= i < |stmts|
                ==> 0 <= stmts[i].entity < |supertypes| && stmts[i].parent == supertypes[stmts[i].entity]
  }

  ghost predicate Emits(stmts: seq<Statement>, n: int) { exists i :: 0 <= i < |stmts| && stmts[i].entity == n }

  lemma HierarchyEdges(h: Hierarchy)
    ensures var g := HierarchyGraph(h);
            && (forall u, v :: Edge(g, u, v) <==> IsListed(h, u, v))
            && (ListedResolve(h) ==> forall n :: n in g ==> 0 <= n < |h.supertypes|)
  {
    SubtypeGraphIs(h.subtypes, |h.subtypes|);
  }

  /** When every listed subtype resolves, no null entity is met, each table comes once and inherits from its entity's
      supertype, and the tables are exactly those of the entities that take part in the hierarchy and are not behind
      a cycle. An entity that is listed nowhere and lists nothing gets no table, whatever its supertype. */
  lemma TablesOfHierarchy(h: Hierarchy)
    requires ListedResolve(h)
    ensures var g := HierarchyGraph(h);
            match Generated(h) {
              case Emitted(stmts) =>
                && OncePerEntity(stmts) && ParentsAreSupertypes(h.supertypes, stmts)
                && (forall n :: Emits(stmts, n) <==> TakesPart(h.subtypes, |h.subtypes|, n) && !BehindCycle(g, n))
              case NoOrder => forall n :: TakesPart(h.subtypes, |h.subtypes|, n) ==> BehindCycle(g, n)
              case RootHasSupertype => LeastRootHasSupertype(h)
              case _ => false
            }
  {
    assert |h.subtypes| == |h.supertypes|;
    hide TakesPart, BehindCycle, HierarchyGraph, ListedResolve, KahnOrder, IsTopological, FromOrder, NoDuplicates,
      StatementsFor, OncePerEntity, Emits, ParentsAreSupertypes, LeastRootHasSupertype;
    var order := KahnOrder(HierarchyGraph(h));
    OrderOfHierarchy(h);
    OutcomeOfOrder(h, order);
    AssertionFailsExactly(h);
    if order != [] { StatementsOfOrder(h.supertypes, order); }
  }

  /** When moreover every supertype lists its subtypes, the first entity has none and parents come first. */
  lemma ParentsAreEmittedFirst(h: Hierarchy)
    requires ListedResolve(h) && SupertypesList(h)
    ensures match Generated(h) {
              case Emitted(stmts) => ParentsFirst(stmts)
              case NoOrder => true
              case _ => false
            }
  {
    hide BehindCycle, TakesPart, HierarchyGraph, ListedResolve, SupertypesList, KahnOrder, IsTopological, FromOrder,
      NoDuplicates, StatementsFor, ParentsFirst;
    var order := KahnOrder(HierarchyGraph(h));
    OrderOfHierarchy(h);
    OutcomeOfOrder(h, order);
    if order != [] {
      assert order[0] in order;
      RootHasNoSupertype(h, order);
      ParentsPrecede(h, order);
    }
  }

  lemma OutcomeOfOrder(h: Hierarchy, order: seq<int>)
    requires forall n :: n in order ==> 0 <= n < |h.supertypes|
    ensures FromOrder(h.supertypes, order) ==
            if order == [] then NoOrder
            else if order[0] in order && h.supertypes[order[0]] != NONE then RootHasSupertype
            else Emitted(StatementsFor(h.supertypes, order))
  {
    hide StatementsFor;
    if order != [] { assert order[0] in order; }
  }

  lemma OrderOfHierarchy(h: Hierarchy)
    ensures var g := HierarchyGraph(h);
            var order := KahnOrder(g);
            && NoDuplicates(order) && IsTopological(g, order)
            && (forall n :: n in order <==> TakesPart(h.subtypes, |h.subtypes|, n) && !BehindCycle(g, n))
            && (ListedResolve(h) ==> forall n :: n in order ==> 0 <= n < |h.supertypes|)
  {
    var g := HierarchyGraph(h);
    hide BehindCycle, TakesPart, Acyclic;
    HierarchyEdges(h);
    SubtypeGraphIs(h.subtypes, |h.subtypes|);
    KahnOrderIsTopological(g);
    KahnOrderIsComplete(g);
  }

  lemma StatementsOfOrder(supertypes: seq<int>, order: seq<int>)
    requires NoDuplicates(order) && forall n :: n in order ==> 0 <= n < |supertypes|
    ensures var stmts := StatementsFor(supertypes, order);
            && OncePerEntity(stmts)
            && (forall n :: Emits(stmts, n) <==> n in order)
            && ParentsAreSupertypes(supertypes, stmts)
  {
    var stmts := StatementsFor(supertypes, order);
    forall n ensures Emits(stmts, n) <==> n in order {
      if n in order {
        var i :| 0 <= i < |order| && order[i] == n;
        assert stmts[i].entity == n;
      }
    }
    forall i | 0 <= i < |stmts|
      ensures 0 <= stmts[i].entity < |supertypes| && stmts[i].parent == supertypes[stmts[i].entity]
    {
      assert order[i] in order;
    }
  }

  lemma RootHasNoSupertype(h: Hierarchy, order: seq<int>)
    requires ListedResolve(h) && SupertypesList(h) && order != [] && 0 <= order[0] < |h.supertypes|
    requires IsTopological(HierarchyGraph(h), order)
    ensures h.supertypes[order[0]] == NONE
  {
    hide HierarchyGraph, ListedResolve;
    HierarchyEdges(h);
    var g, u := HierarchyGraph(h), h.supertypes[order[0]];
    assert order[..0] == [];
    assert u !in Predecessors(g, order[0]);
    assert !Edge(g, u, order[0]);
  }

  /** A listed entity of the order follows every entity that lists it. */
  lemma ListerPrecedes(h: Hierarchy, order: seq<int>, i: nat, u: int) returns (j: nat)
    requires ListedResolve(h) && IsTopological(HierarchyGraph(h), order)
    requires i < |order| && IsListed(h, u, order[i])
    ensures j < i && order[j] == u
  {
    hide HierarchyGraph, ListedResolve;
    HierarchyEdges(h);
    var g := HierarchyGraph(h);
    assert Edge(g, u, order[i]);
    assert u in Predecessors(g, order[i]) && u in Elements(order[..i]);
    j :| 0 <= j < i && order[..i][j] == u;
  }

  lemma ParentsPrecede(h: Hierarchy, order: seq<int>)
    requires ListedResolve(h) && SupertypesList(h) && IsTopological(HierarchyGraph(h), order)
    requires forall n :: n in order ==> 0 <= n < |h.supertypes|
    ensures ParentsFirst(StatementsFor(h.supertypes, order))
  {
    hide HierarchyGraph, ListedResolve, IsTopological, IsListed;
    var stmts := StatementsFor(h.supertypes, order);
    forall i | 0 <= i < |stmts| && stmts[i].parent != NONE
      ensures exists j :: 0 <= j < i && stmts[j].entity == stmts[i].parent
    {
      assert order[i] in order;
      var j := ListerPrecedes(h, order, i, h.supertypes[order[i]]);
      assert stmts[j].entity == stmts[i].parent;
    }
  }

  /** When the hierarchy has no cycle, every entity that takes part in it gets its table. */
  lemma AcyclicHierarchyIsComplete(h: Hierarchy)
    requires ListedResolve(h) && Acyclic(HierarchyGraph(h))
    ensures match Generated(h) {
              case Emitted(stmts) => forall n :: Emits(stmts, n) <==> TakesPart(h.subtypes, |h.subtypes|, n)
              case NoOrder => forall n :: !TakesPart(h.subtypes, |h.subtypes|, n)
              case RootHasSupertype => LeastRootHasSupertype(h)
              case _ => false
            }
  {
    hide TakesPart, Emits, Generated, OncePerEntity, ParentsAreSupertypes, ListedResolve, LeastRootHasSupertype;
    var g := HierarchyGraph(h);
    TablesOfHierarchy(h);
    SubtypeGraphIs(h.subtypes, |h.subtypes|);
    KahnOrderIsComplete(g);
    assert forall n :: n in g ==> n in Elements(KahnOrder(g));
    assert forall n :: n in g ==> !BehindCycle(g, n);
  }

  // ----- supertypes that do not list their subtypes -----

  /** Lists a subtype and is listed nowhere. */
  predicate IsRoot(h: Hierarchy, v: int) {
    0 <= v < |h.subtypes| && h.subtypes[v] != [] && forall u :: 0 <= u < |h.subtypes| ==> v !in h.subtypes[u]
  }

  /** Wherever such an entity has a supertype all the same, that one is listed nowhere either and was declared
      earlier. */
  predicate OrphansFollow(h: Hierarchy)
    requires |h.subtypes| == |h.supertypes|
  {
    forall v :: 0 <= v < |h.supertypes| && IsRoot(h, v) && h.supertypes[v] != NONE
                ==> IsRoot(h, h.supertypes[v]) && h.supertypes[v] < v
  }

  lemma RootsOfHierarchy(h: Hierarchy)
    ensures var order, roots := KahnOrder(HierarchyGraph(h)), Roots(HierarchyGraph(h));
            && roots <= order && Ascending(roots)
            && (forall n :: n in roots <==> IsRoot(h, n))
  {
    hide HierarchyGraph, KahnOrder, Roots, TakesPart, Closed;
    var g := HierarchyGraph(h);
    RootsComeFirst(g);
    HierarchyEdges(h);
    forall n ensures n in Roots(g) <==> IsRoot(h, n) { RootInGraph(h, n); }
  }

  lemma RootInGraph(h: Hierarchy, n: int)
    ensures n in HierarchyGraph(h) && Predecessors(HierarchyGraph(h), n) == {} <==> IsRoot(h, n)
  {
    var g := HierarchyGraph(h);
    SubtypeGraphIs(h.subtypes, |h.subtypes|);
    HierarchyEdges(h);
    hide HierarchyGraph, SubtypeGraph;
    forall u ensures u in Predecessors(g, n) <==> 0 <= u < |h.subtypes| && n in h.subtypes[u] {
      assert Edge(g, u, n) <==> IsListed(h, u, n);
    }
    hide Predecessors, Edge;
    var p := Predecessors(g, n);
    if p != {} {
      var u := Missing(p, {});
      assert 0 <= u < |h.subtypes| && n in h.subtypes[u];
    }
  }

  /** The least of the entities that list subtypes and are listed nowhere has a supertype. */
  ghost predicate LeastRootHasSupertype(h: Hierarchy)
    requires |h.subtypes| == |h.supertypes|
  {
    exists v :: IsRoot(h, v) && (forall u :: IsRoot(h, u) ==> v <= u) && h.supertypes[v] != NONE
  }

  /** The order starts with the least root, and is empty without one. */
  lemma FirstIsLeastRoot(h: Hierarchy, order: seq<int>)
    requires order == KahnOrder(HierarchyGraph(h))
    ensures order == [] ==> forall u :: !IsRoot(h, u)
    ensures order != [] ==> IsRoot(h, order[0]) && forall u :: IsRoot(h, u) ==> order[0] <= u
    ensures order != [] ==> 0 <= order[0] < |h.subtypes|
  {
    OrderOfHierarchy(h);
    if order != [] { FirstIsRoot(h, order); }
    hide IsRoot, HierarchyGraph, KahnOrder, ListedResolve, TakesPart, BehindCycle, IsTopological, NoDuplicates;
    forall u | IsRoot(h, u) ensures order != [] && order[0] <= u {
      var j := PlaceOfRoot(h, order, u);
      assert j == 0 || order[0] < u;
    }
  }

  lemma FirstIsRoot(h: Hierarchy, order: seq<int>)
    requires order != [] && IsTopological(HierarchyGraph(h), order)
    ensures IsRoot(h, order[0])
  {
    hide HierarchyGraph, IsRoot, ListedResolve;
    assert order[..0] == [];
    RootInGraph(h, order[0]);
  }

  /** The assertion on the first entity fails if and only if the least root has a supertype. */
  lemma AssertionFailsExactly(h: Hierarchy)
    requires |h.subtypes| == |h.supertypes|
    ensures Generated(h).RootHasSupertype? <==> LeastRootHasSupertype(h)
  {
    hide HierarchyGraph, KahnOrder, StatementsFor, LeastRootHasSupertype, IsRoot;
    var order := KahnOrder(HierarchyGraph(h));
    FirstIsLeastRoot(h, order);
    if order == [] {
      NoRoots(h);
    } else {
      LeastRootIs(h, order[0]);
    }
  }

  /** Takes part in the hierarchy and is not behind a cycle. */
  ghost predicate GetsTable(h: Hierarchy, v: int) {
    TakesPart(h.subtypes, |h.subtypes|, v) && !BehindCycle(HierarchyGraph(h), v)
  }

  /** The outcome for any listings, unresolved ones included: without an entity to emit there is no order; else the
      assertion decides by the least root; then an entity that does not exist is met if and only if some unresolved
      listing is not behind a cycle. */
  lemma OutcomeExactly(h: Hierarchy)
    requires |h.subtypes| == |h.supertypes|
    ensures match Generated(h) {
              case NoOrder => forall v :: !GetsTable(h, v)
              case RootHasSupertype => LeastRootHasSupertype(h) && exists v :: GetsTable(h, v)
              case NullEntity =>
                !LeastRootHasSupertype(h) && exists v :: GetsTable(h, v) && !(0 <= v < |h.supertypes|)
              case Emitted(stmts) =>
                && !LeastRootHasSupertype(h) && (exists v :: GetsTable(h, v))
                && (forall v :: GetsTable(h, v) ==> 0 <= v < |h.supertypes|)
                && OncePerEntity(stmts) && ParentsAreSupertypes(h.supertypes, stmts)
                && (forall v :: Emits(stmts, v) <==> GetsTable(h, v))
              case UnsetSubtypes => false
            }
  {
    var order := KahnOrder(HierarchyGraph(h));
    hide KahnOrder, TakesPart, BehindCycle, LeastRootHasSupertype, OncePerEntity, ParentsAreSupertypes, Emits;
    AssertionFailsExactly(h);
    OrderIsOfTables(h, order);
    hide GetsTable, HierarchyGraph;
    OutcomeOfAnyOrder(h, order);
    if order != [] { assert order[0] in order; }
    if Generated(h).Emitted? { StatementsOfOrder(h.supertypes, order); }
  }

  lemma OrderIsOfTables(h: Hierarchy, order: seq<int>)
    requires order == KahnOrder(HierarchyGraph(h))
    ensures NoDuplicates(order) && forall v :: v in order <==> GetsTable(h, v)
    ensures order != [] ==> 0 <= order[0] < |h.subtypes|
  {
    OrderOfHierarchy(h);
    FirstIsLeastRoot(h, order);
    hide HierarchyGraph, KahnOrder, TakesPart, BehindCycle, IsTopological, ListedResolve, NoDuplicates;
  }

  lemma OutcomeOfAnyOrder(h: Hierarchy, order: seq<int>)
    requires order != [] ==> 0 <= order[0] < |h.supertypes|
    ensures match FromOrder(h.supertypes, order) {
              case NoOrder => order == []
              case RootHasSupertype => order != []
              case NullEntity => order != [] && exists v :: v in order && !(0 <= v < |h.supertypes|)
              case Emitted(stmts) =>
                && order != [] && (forall v :: v in order ==> 0 <= v < |h.supertypes|)
                && stmts == StatementsFor(h.supertypes, order)
              case UnsetSubtypes => false
            }
  {
    hide StatementsFor;
  }

  lemma NoRoots(h: Hierarchy)
    requires |h.subtypes| == |h.supertypes| && forall u :: !IsRoot(h, u)
    ensures !LeastRootHasSupertype(h)
  {
  }

  lemma LeastRootIs(h: Hierarchy, v: int)
    requires |h.subtypes| == |h.supertypes| && IsRoot(h, v) && forall u :: IsRoot(h, u) ==> v <= u
    ensures LeastRootHasSupertype(h) <==> h.supertypes[v] != NONE
  {
  }

  lemma PlaceOfRoot(h: Hierarchy, order: seq<int>, v: int) returns (j: nat)
    requires order == KahnOrder(HierarchyGraph(h)) && IsRoot(h, v)
    ensures j < |order| && order[j] == v
    ensures forall i :: 0 <= i < j ==> IsRoot(h, order[i]) && order[i] < v
    ensures forall u :: IsRoot(h, u) && u < v ==> u in order[..j]
  {
    hide IsRoot, HierarchyGraph, KahnOrder, ListedResolve, Roots;
    var roots := Roots(HierarchyGraph(h));
    RootsOfHierarchy(h);
    j :| 0 <= j < |roots| && roots[j] == v;
    forall i | 0 <= i < j ensures IsRoot(h, order[i]) && order[i] < v {
      assert roots[i] == order[i] && roots[i] in roots;
    }
    forall u | IsRoot(h, u) && u < v ensures u in order[..j] {
      var i :| 0 <= i < |roots| && roots[i] == u;
      assert i < j && order[..j][i] == u;
    }
  }

  /** What an order with consistent listings does for the parents of its entities. */
  predicate ParentsBefore(supertypes: seq<int>, order: seq<int>)
    requires forall n :: n in order ==> 0 <= n < |supertypes|
  {
    forall i :: 0 <= i < |order| && order[i] in order ==>
                  supertypes[order[i]] != NONE ==> supertypes[order[i]] in order[..i]
  }

  lemma ParentsFirstMeans(supertypes: seq<int>, order: seq<int>)
    requires forall n :: n in order ==> 0 <= n < |supertypes|
    ensures ParentsFirst(StatementsFor(supertypes, order)) <==> ParentsBefore(supertypes, order)
  {
    var stmts := StatementsFor(supertypes, order);
    forall i | 0 <= i < |order|
      ensures order[i] in order
      ensures (exists j :: 0 <= j < i && stmts[j].entity == stmts[i].parent) <==> supertypes[order[i]] in order[..i]
    {
      if supertypes[order[i]] in order[..i] {
        var j :| 0 <= j < i && order[..i][j] == supertypes[order[i]];
        assert stmts[j].entity == stmts[i].parent;
      }
      if j :| 0 <= j < i && stmts[j].entity == stmts[i].parent {
        assert order[..i][j] == supertypes[order[i]];
      }
    }
  }

  lemma ParentOfListed(h: Hierarchy, order: seq<int>, i: nat, u: int)
    requires ListedPointBack(h) && ListedResolve(h) && IsTopological(HierarchyGraph(h), order)
    requires i < |order| && IsListed(h, u, order[i])
    ensures 0 <= order[i] < |h.supertypes| && h.supertypes[order[i]] in order[..i]
  {
    assert PointsBack(h, u, order[i]);
    hide HierarchyGraph, ListedPointBack, ListedResolve, IsTopological;
    var j := ListerPrecedes(h, order, i, u);
    assert order[..i][j] == u;
  }

  lemma ParentOfRoot(h: Hierarchy, order: seq<int>, i: nat)
    requires ListedResolve(h) && OrphansFollow(h) && order == KahnOrder(HierarchyGraph(h)) && NoDuplicates(order)
    requires i < |order| && IsRoot(h, order[i]) && 0 <= order[i] < |h.supertypes| && h.supertypes[order[i]] != NONE
    ensures h.supertypes[order[i]] in order[..i]
  {
    hide HierarchyGraph, KahnOrder, IsRoot, ListedResolve;
    var j := PlaceOfRoot(h, order, order[i]);
    assert i == j;
  }

  lemma ListedOrRoot(h: Hierarchy, v: int)
    requires ListedResolve(h) && TakesPart(h.subtypes, |h.subtypes|, v)
    ensures IsRoot(h, v) || exists u :: IsListed(h, u, v)
  {
    if !IsRoot(h, v) {
      var u :| 0 <= u < |h.subtypes| && v in h.subtypes[u];
      assert IsListed(h, u, v);
    }
  }

  lemma OrphansFollowSuffices(h: Hierarchy, order: seq<int>)
    requires ListedPointBack(h) && ListedResolve(h) && OrphansFollow(h) && order == KahnOrder(HierarchyGraph(h))
    requires forall n :: n in order ==> 0 <= n < |h.supertypes|
    ensures ParentsBefore(h.supertypes, order)
  {
    hide HierarchyGraph, KahnOrder, BehindCycle, IsTopological, ListedResolve, ListedPointBack, OrphansFollow, IsRoot,
      TakesPart, IsListed, NoDuplicates;
    OrderOfHierarchy(h);
    forall i | 0 <= i < |order| && order[i] in order && h.supertypes[order[i]] != NONE
      ensures h.supertypes[order[i]] in order[..i]
    {
      ListedOrRoot(h, order[i]);
      if IsRoot(h, order[i]) {
        ParentOfRoot(h, order, i);
      } else {
        var u :| IsListed(h, u, order[i]);
        ParentOfListed(h, order, i, u);
      }
    }
  }

  lemma OrphansFollowIsNeeded(h: Hierarchy, order: seq<int>)
    requires ListedResolve(h) && order == KahnOrder(HierarchyGraph(h))
    requires forall n :: n in order ==> 0 <= n < |h.supertypes|
    requires ParentsBefore(h.supertypes, order)
    ensures OrphansFollow(h)
  {
    hide HierarchyGraph, KahnOrder, IsRoot, ListedResolve;
    forall v | 0 <= v < |h.supertypes| && IsRoot(h, v) && h.supertypes[v] != NONE
      ensures IsRoot(h, h.supertypes[v]) && h.supertypes[v] < v
    {
      var j := PlaceOfRoot(h, order, v);
      var i :| 0 <= i < j && order[..j][i] == h.supertypes[v];
    }
  }

  /** With listings that point back, parents come first exactly when every orphan follows its supertype; a first entity
      with a supertype is such an orphan out of place. */
  lemma ParentsFirstExactly(h: Hierarchy)
    requires ListedPointBack(h)
    ensures match Generated(h) {
              case Emitted(stmts) => ParentsFirst(stmts) <==> OrphansFollow(h)
              case NoOrder => OrphansFollow(h)
              case RootHasSupertype => !OrphansFollow(h)
              case _ => false
            }
  {
    var order := KahnOrder(HierarchyGraph(h));
    PointingBackResolves(h);
    OrderOfHierarchy(h);
    OutcomeOfOrder(h, order);
    ParentsFirstMeans(h.supertypes, order);
    hide HierarchyGraph, KahnOrder, BehindCycle, IsTopological, ListedResolve, ListedPointBack, FromOrder,
      OrphansFollow, TakesPart, ParentsFirst, StatementsFor, NoDuplicates, ParentsBefore;
    if OrphansFollow(h) { OrphansFollowSuffices(h, order); }
    if ParentsBefore(h.supertypes, order) { OrphansFollowIsNeeded(h, order); }
    if order == [] {
      NoParents(h.supertypes);
    } else {
      assert order[0] in order;
      FirstHasNoParent(h.supertypes, order);
    }
  }

  lemma NoParents(supertypes: seq<int>)
    ensures ParentsBefore(supertypes, [])
  {
  }

  lemma FirstHasNoParent(supertypes: seq<int>, order: seq<int>)
    requires order != [] && forall n :: n in order ==> 0 <= n < |supertypes|
    requires order[0] in order
    ensures ParentsBefore(supertypes, order) ==> supertypes[order[0]] == NONE
  {
    assert order[..0] == [];
  }

  lemma AgreeingLinks(h: Hierarchy)
    requires LinksAgree(h)
    ensures ListedPointBack(h) && ListedResolve(h) && SupertypesList(h)
  {
    PointingBackResolves(h);
  }

  lemma PointingBackResolves(h: Hierarchy)
    requires ListedPointBack(h)
    ensures ListedResolve(h)
  {
    forall u, v | 0 <= u < |h.subtypes| && v in h.subtypes[u] ensures 0 <= v < |h.supertypes| {
      assert PointsBack(h, u, v);
    }
  }

  // ----- the generator on the schema objects -----

  /** The links of all entities; None for a subtype list that was never set. */
  datatype Links = Links(subtypes: seq<Option<seq<int>>>, supertypes: seq<int>)

  predicate AllSet(l: Links) { forall i :: 0 <= i < |l.subtypes| ==> l.subtypes[i].Some? }

  /** The hierarchy of links that are all set. */
  function Settled(l: Links): (h: Hierarchy)
    requires AllSet(l)
    ensures |h.subtypes| == |l.subtypes| && h.supertypes == l.supertypes
    ensures forall i :: 0 <= i < |h.subtypes| ==> l.subtypes[i] == Some(h.subtypes[i])
  {
    Hierarchy(seq(|l.subtypes|, i requires 0 <= i < |l.subtypes| && AllSet(l) => l.subtypes[i].value), l.supertypes)
  }

  /** What the generator makes of the links in the schema objects. */
  ghost function GeneratedFrom(l: Links): Generation {
    if AllSet(l) then Generated(Settled(l)) else UnsetSubtypes
  }

  ghost function SubtypeIds(e: Entity): (r: Option<seq<int>>)
    reads e
    ensures r.Some? <==> e.subtypes.Some?
    ensures r.Some? ==> |r.value| == |e.subtypes.value|
                        && forall j :: 0 <= j < |r.value| ==> r.value[j] == EntityId(e.subtypes.value[j])
  {
    match e.subtypes
    case None => None
    case Some(es) => Some(seq(|es|, j requires 0 <= j < |es| => EntityId(es[j])))
  }

  ghost function LinksOf(es: seq<Entity?>): (l: Links)
    requires forall i :: 0 <= i < |es| ==> es[i] != null
    reads es
    ensures |l.subtypes| == |es| && |l.supertypes| == |es|
    ensures forall i :: 0 <= i < |es| ==>
              es[i] != null && l.subtypes[i] == SubtypeIds(es[i]) && l.supertypes[i] == EntityId(es[i].supertype)
  {
    Links(seq(|es|, i requires 0 <= i < |es| && es[i] != null reads es => SubtypeIds(es[i])),
          seq(|es|, i requires 0 <= i < |es| && es[i] != null reads es => EntityId(es[i].supertype)))
  }

  /** The inner loop: an edge from entity `i` to each of its subtypes. */
  method AddSubtypes(topoGraph: TopoGraph, i: int, entity: Entity)
    requires topoGraph.Built() && entity.subtypes.Some?
    modifies topoGraph
    ensures topoGraph.Built() && topoGraph.graph == WithEdges(old(topoGraph.graph), i, SubtypeIds(entity).value)
  {
    hide WithEdge, Closed, Counts;
    ghost var ids := SubtypeIds(entity).value;
    var subtypes := entity.subtypes.value;
    for j := 0 to |subtypes|
      invariant topoGraph.Built()
      invariant topoGraph.graph == WithEdges(old(topoGraph.graph), i, ids[..j])
    {
      assert ids[..j + 1][..j] == ids[..j];
      topoGraph.AddEdge(i, EntityId(subtypes[j]));
    }
    assert ids[..|subtypes|] == ids;
  }

  /** The loops that add an edge from every entity to each of its subtypes; stops at a count that was never set. */
  method BuildGraph(schema: Schema) returns (topoGraph: TopoGraph, allSet: bool)
    requires schema.Valid()
    ensures var l := LinksOf(schema.entities[..schema.entityNum]);
            && allSet == AllSet(l)
            && (allSet ==> fresh(topoGraph) && topoGraph.Built() && topoGraph.graph == HierarchyGraph(Settled(l)))
  {
    hide WithEdges, Closed, Counts, SubtypeIds;
    ghost var l := LinksOf(schema.entities[..schema.entityNum]);
    topoGraph := new TopoGraph();
    for i := 0 to schema.entityNum
      invariant fresh(topoGraph) && topoGraph.Built()
      invariant forall k :: 0 <= k < i ==> l.subtypes[k].Some?
      invariant topoGraph.graph == SubtypeGraph(Values(l.subtypes[..i]), i)
    {
      assert l.subtypes[i] == SubtypeIds(schema.entities[i]);
      if schema.entities[i].subtypes.None? { return topoGraph, false; }
      AddSubtypes(topoGraph, i, schema.entities[i]);
      NextValues(l.subtypes, i);
    }
    ValuesAreSettled(l);
    return topoGraph, true;
  }

  function Values(subtypes: seq<Option<seq<int>>>): (r: seq<seq<int>>)
    requires forall k :: 0 <= k < |subtypes| ==> subtypes[k].Some?
    ensures |r| == |subtypes| && forall k :: 0 <= k < |r| ==> subtypes[k] == Some(r[k])
  {
    seq(|subtypes|, k requires 0 <= k < |subtypes| && subtypes[k].Some? => subtypes[k].value)
  }

  lemma {:induction false} SameGraph(a: seq<seq<int>>, b: seq<seq<int>>, k: nat)
    requires k <= |a| && k <= |b| && a[..k] == b[..k]
    ensures SubtypeGraph(a, k) == SubtypeGraph(b, k)
  {
    if k > 0 {
      assert a[..k - 1] == a[..k][..k - 1] && b[..k - 1] == b[..k][..k - 1];
      assert a[k - 1] == a[..k][k - 1] && b[k - 1] == b[..k][k - 1];
      SameGraph(a, b, k - 1);
    }
  }

  lemma NextValues(subtypes: seq<Option<seq<int>>>, i: nat)
    requires i < |subtypes| && forall k :: 0 <= k <= i ==> subtypes[k].Some?
    ensures SubtypeGraph(Values(subtypes[..i + 1]), i + 1)
            == WithEdges(SubtypeGraph(Values(subtypes[..i]), i), i, subtypes[i].value)
  {
    var longer, shorter := Values(subtypes[..i + 1]), Values(subtypes[..i]);
    assert longer[..i] == shorter[..i];
    SameGraph(longer, shorter, i);
  }

  lemma ValuesAreSettled(l: Links)
    requires AllSet(l)
    ensures Values(l.subtypes[..|l.subtypes|]) == Settled(l).subtypes
  {
    assert l.subtypes[..|l.subtypes|] == l.subtypes;
  }

  lemma StatementsAre(supertypes: seq<int>, order: seq<int>, statements: seq<Statement>)
    requires forall n :: n in order ==> 0 <= n < |supertypes|
    requires |statements| == |order|
    requires forall i :: 0 <= i < |order| ==>
               0 <= order[i] < |supertypes| && statements[i] == CreateTable(order[i], supertypes[order[i]])
    ensures statements == StatementsFor(supertypes, order)
  {
  }

  /** The loop that emits one statement per id of the order. */
  method EmitTables(schema: Schema, order: seq<int>) returns (outcome: Generation)
    requires schema.Valid()
    ensures outcome == FromOrder(LinksOf(schema.entities[..schema.entityNum]).supertypes, order)
  {
    ghost var l := LinksOf(schema.entities[..schema.entityNum]);
    if |order| == 0 { return NoOrder; }
    var first := schema.FindEntityById(order[0]);
    if first == null { return NullEntity; }
    if first.supertype != null { return RootHasSupertype; }
    var statements: seq<Statement> := [];
    for k := 0 to |order|
      invariant |statements| == k
      invariant forall i :: 0 <= i < k ==>
        0 <= order[i] < schema.entityNum && statements[i] == CreateTable(order[i], l.supertypes[order[i]])
    {
      var entity := schema.FindEntityById(order[k]);
      if entity == null {
        assert order[k] in order;
        return NullEntity;
      }
      statements := statements + [CreateTable(order[k], EntityId(entity.supertype))];
    }
    hide SubtypeIds;
    assert forall n :: n in order ==> 0 <= n < |l.supertypes|;
    StatementsAre(l.supertypes, order, statements);
    return Emitted(statements);
  }

  /** `generate_pgsql_for_schema`, from the graph on. */
  method GenerateForSchema(schema: Schema) returns (outcome: Generation)
    requires schema.Valid()
    ensures outcome == GeneratedFrom(LinksOf(schema.entities[..schema.entityNum]))
  {
    hide KahnOrder, HierarchyGraph, LinksOf, Settled, AllSet, FromOrder, BehindCycle, Acyclic, Counts, Elements, Closed,
      SubtypeIds;
    var topoGraph, allSet := BuildGraph(schema);
    if !allSet { return UnsetSubtypes; }
    var order := topoGraph.TopoSort();
    outcome := EmitTables(schema, order);
  }
}
