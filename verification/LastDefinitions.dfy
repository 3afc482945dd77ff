/** What any list of definitions makes of the links: the last one of a name counts. */
module LastDefinitions {
  import opened ExpressSchema
  import opened ExpressPreprocess
  import opened PgSqlGenerator
  import opened EntityLinks
  import opened Options

  /** The position a name stands for: the last one that carries it. */
  predicate StandsFor(names: seq<string>, i: int, n: string) {
    0 <= i < |names| && names[i] == n && forall j :: i < j < |names| ==> names[j] != n
  }

  predicate Counts(names: seq<string>, i: int, d: EntityArgs, parents: bool) {
    StandsFor(names, i, d.name) && (parents ==> d.supertype.Some?)
  }

  /** The last definition for position `i`, among all or among those with SUBTYPE OF; -1 when there is none. */
  function LastFor(names: seq<string>, defs: seq<EntityArgs>, i: int, parents: bool): (k: int)
    ensures -1 <= k < |defs|
    ensures k >= 0 ==> Counts(names, i, defs[k], parents)
    ensures forall m :: k < m < |defs| ==> !Counts(names, i, defs[m], parents)
  {
    if defs == [] then -1
    else
      var k := LastFor(names, defs[1..], i, parents);
      assert forall m :: 1 <= m < |defs| ==> defs[m] == defs[1..][m - 1];
      if k >= 0 then k + 1 else if Counts(names, i, defs[0], parents) then 0 else -1
  }

  /** The index maps every declared name to the position it stands for. */
  predicate IndexesLast(index: Index, names: seq<string>) {
    forall n :: n in names ==> StandsFor(names, IdOf(index, n), n)
  }

  lemma FinishedPassIndexesLast(names: seq<string>)
    ensures IndexesLast(Indexed(map[], names, 0), names)
  {
    forall n | n in names ensures StandsFor(names, IdOf(Indexed(map[], names, 0), n), n) {
      IndexIsLastPosition(map[], names, 0, n);
    }
  }

  lemma StandsForOne(names: seq<string>, i: int, j: int, n: string)
    requires StandsFor(names, i, n) && StandsFor(names, j, n)
    ensures i == j
  {
  }

  function SubtypesAfter(l: Links, names: seq<string>, defs: seq<EntityArgs>, i: nat): Option<seq<int>>
    requires i < |l.subtypes|
  {
    var k := LastFor(names, defs, i, false);
    if k < 0 then l.subtypes[i] else Some(ResolveAll(names, defs[k].subtypes))
  }

  function SupertypeAfter(l: Links, names: seq<string>, defs: seq<EntityArgs>, i: nat): int
    requires i < |l.supertypes|
  {
    var k := LastFor(names, defs, i, true);
    if k < 0 then l.supertypes[i] else Resolve(names, defs[k].supertype.value)
  }

  lemma LinkedOne(l: Links, names: seq<string>, id: nat, defs: seq<EntityArgs>, i: nat)
    requires |l.subtypes| == |names| && |l.supertypes| == |names| && i < |names|
    requires defs != [] && StandsFor(names, id, defs[0].name)
    ensures var l' := LinkedAt(l, names, id, defs[0]);
            && SubtypesAfter(l', names, defs[1..], i) == SubtypesAfter(l, names, defs, i)
            && SupertypeAfter(l', names, defs[1..], i) == SupertypeAfter(l, names, defs, i)
  {
    hide StandsFor, Resolve, ResolveAll;
    if StandsFor(names, i, defs[0].name) { StandsForOne(names, i, id, defs[0].name); }
  }

  lemma {:induction false} LinkAllIs(names: seq<string>, index: Index, l: Links, defs: seq<EntityArgs>, i: nat)
    requires |l.subtypes| == |names| && |l.supertypes| == |names| && i < |names| && IndexesLast(index, names)
    ensures match LinkAll(names, index, l, defs) {
              case None => true
              case Some(r) =>
                && r.subtypes[i] == SubtypesAfter(l, names, defs, i)
                && r.supertypes[i] == SupertypeAfter(l, names, defs, i)
            }
    decreases defs
  {
    hide StatusAt, IdOf, StandsFor, LinkedAt, SubtypesAfter, SupertypeAfter;
    if defs == [] {
      NothingCounts(l, names, i);
    } else {
      var id := IdOf(index, defs[0].name);
      var index' := index[defs[0].name := id];
      IndexKept(index, defs[0].name);
      LinkedIsInside(names, id, defs[0]);
      if StatusAt(names, id, defs[0]) == Linked {
        assert defs[0].name in names;
        LinkedOne(l, names, id, defs, i);
        LinkAllIs(names, index', LinkedAt(l, names, id, defs[0]), defs[1..], i);
      }
    }
  }

  lemma NothingCounts(l: Links, names: seq<string>, i: nat)
    requires i < |l.subtypes| && i < |l.supertypes|
    ensures SubtypesAfter(l, names, [], i) == l.subtypes[i] && SupertypeAfter(l, names, [], i) == l.supertypes[i]
  {
  }

  /** Every entity has the subtypes of the last definition of its name and the supertype of the last one with
      SUBTYPE OF. An entity declared again later, or never defined, keeps an unset list and no supertype. */
  lemma LastDefinitionCounts(names: seq<string>, defs: seq<EntityArgs>, i: nat)
    requires LinksAfter(names, defs).Some? && i < |names|
    ensures var l, k := LinksAfter(names, defs).value, LastFor(names, defs, i, false);
            l.subtypes[i] == if k < 0 then None else Some(ResolveAll(names, defs[k].subtypes))
    ensures var l, k := LinksAfter(names, defs).value, LastFor(names, defs, i, true);
            l.supertypes[i] == if k < 0 then -1 else Resolve(names, defs[k].supertype.value)
  {
    hide LinkAll, Indexed, LastFor, Resolve, ResolveAll;
    FinishedPassIndexesLast(names);
    LinkAllIs(names, Indexed(map[], names, 0), NoLinks(|names|), defs, i);
  }
}
