/** How parsed entity definitions become links between entities: `init_entity` in
    src/express_parser/express_parser.cpp and the link part of `assign_entity_args`. */
module EntityLinks {
  import opened ExpressSchema
  import opened ExpressPreprocess
  import opened PgSqlGenerator
  import opened Options

  /** What the grammar hands over for one entity. */
  datatype EntityArgs = EntityArgs(name: string, attrNum: nat, subtypes: seq<string>, supertype: Option<string>)

  /** Linked; or the assertion the original stops at; or where it leaves its arrays: NoEntity reads an unset slot of
      the schema, AttributesOverflow writes behind the attribute arrays of the entity, over its links. */
  datatype LinkStatus =
    Linked | NoEntity | NameDiffers | TooManyAttributes | TooManySubtypes | SupertypeMissing | AttributesOverflow

  /** The id of a declared name, NONE for an unknown one. */
  function Resolve(names: seq<string>, n: string): int {
    var k := FirstIndex(names, n);
    if k < |names| then k else NONE
  }

  function ResolveAll(names: seq<string>, ns: seq<string>): (r: seq<int>)
    ensures |r| == |ns| && forall j :: 0 <= j < |ns| ==> r[j] == Resolve(names, ns[j])
  {
    seq(|ns|, j requires 0 <= j < |ns| => Resolve(names, ns[j]))
  }

  /** The loop of `assign_entity_args` over the subtype names; an unknown name gives a null link. */
  method FindAll(schema: Schema, names: seq<string>) returns (found: seq<Entity?>)
    requires schema.Valid()
    ensures |found| == |names|
    ensures forall j :: 0 <= j < |found| ==> EntityId(found[j]) == Resolve(schema.EntityNames(), names[j])
  {
    found := [];
    for i := 0 to |names|
      invariant |found| == i
      invariant forall j :: 0 <= j < i ==> EntityId(found[j]) == Resolve(schema.EntityNames(), names[j])
    {
      var entity := schema.FindEntityByName(names[i]);
      found := found + [entity];
    }
  }

  /** What `assign_entity_args` makes of a definition. It compares the attributes with the entity limit, and the loop
      over them, which comes last, has room for fewer. */
  function AssignStatus(names: seq<string>, args: EntityArgs): LinkStatus {
    if args.attrNum > 1000 then TooManyAttributes
    else if |args.subtypes| > 50 then TooManySubtypes
    else if args.supertype.Some? && Resolve(names, args.supertype.value) == NONE then SupertypeMissing
    else if args.attrNum > 50 then AttributesOverflow
    else Linked
  }

  /** No assertion in `assign_entity_args` fails and no array overflows. */
  predicate Assignable(names: seq<string>, args: EntityArgs) {
    && args.attrNum <= 50
    && |args.subtypes| <= 50
    && (args.supertype.Some? ==> Resolve(names, args.supertype.value) != NONE)
  }

  /** `assign_entity_args`: the links, and whether the loop over the attributes stays within its arrays. */
  method AssignLinks(schema: Schema, entity: Entity, args: EntityArgs) returns (status: LinkStatus)
    requires schema.Valid()
    modifies entity
    ensures status == AssignStatus(schema.EntityNames(), args)
    ensures status == Linked <==> Assignable(schema.EntityNames(), args)
    ensures status == Linked ==>
              && SubtypeIds(entity) == Some(ResolveAll(schema.EntityNames(), args.subtypes))
              && EntityId(entity.supertype) ==
                 (match args.supertype
                  case None => EntityId(old(entity.supertype))
                  case Some(n) => Resolve(schema.EntityNames(), n))
  {
    hide ResolveAll, SubtypeIds, FirstIndex;
    if args.attrNum > MAX_ENTITY_NUM { return TooManyAttributes; }
    if |args.subtypes| > MAX_SUBTYPE_NUM { return TooManySubtypes; }
    var subtypes := FindAll(schema, args.subtypes);
    entity.subtypes := Some(subtypes);
    if args.supertype.Some? {
      var supertype := schema.FindEntityByName(args.supertype.value);
      if supertype == null { return SupertypeMissing; }
      entity.supertype := supertype;
    }
    IdsAre(entity, schema.EntityNames(), args.subtypes);
    status := if args.attrNum > MAX_ATTR_NUM then AttributesOverflow else Linked;
  }

  lemma IdsAre(entity: Entity, names: seq<string>, subtypes: seq<string>)
    requires entity.subtypes.Some? && |entity.subtypes.value| == |subtypes|
    requires forall j :: 0 <= j < |subtypes| ==> EntityId(entity.subtypes.value[j]) == Resolve(names, subtypes[j])
    ensures SubtypeIds(entity) == Some(ResolveAll(names, subtypes))
  {
    assert SubtypeIds(entity).value == ResolveAll(names, subtypes);
  }

  /** `std::map::operator[]`: an unknown name is entered with position 0. */
  function IdOf(index: Index, name: string): int { if name in index then index[name] else 0 }

  // ----- the links as values -----

  /** The links of all declared entities. */
  ghost function SchemaLinks(schema: Schema): (l: Links)
    requires schema.Valid()
    reads schema, schema.types, schema.entities, schema.owned
    ensures |l.subtypes| == schema.entityNum && |l.supertypes| == schema.entityNum
  {
    LinksOf(schema.entities[..schema.entityNum])
  }

  /** What `init_entity` makes of a definition whose name is indexed at `id`. */
  function StatusAt(names: seq<string>, id: int, args: EntityArgs): LinkStatus {
    if !(0 <= id < |names|) then NoEntity
    else if names[id] != args.name then NameDiffers
    else AssignStatus(names, args)
  }

  /** Entity `id` with the links of `args`; without SUBTYPE OF it keeps its supertype. */
  function LinkedAt(l: Links, names: seq<string>, id: nat, args: EntityArgs): (r: Links)
    requires id < |l.subtypes| && id < |l.supertypes|
    ensures |r.subtypes| == |l.subtypes| && |r.supertypes| == |l.supertypes|
  {
    Links(l.subtypes[id := Some(ResolveAll(names, args.subtypes))],
          match args.supertype
          case None => l.supertypes
          case Some(n) => l.supertypes[id := Resolve(names, n)])
  }

  /** All definitions in turn; None where one of them stops the program. */
  function LinkAll(names: seq<string>, index: Index, l: Links, defs: seq<EntityArgs>): (r: Option<Links>)
    requires |l.subtypes| == |names| && |l.supertypes| == |names|
    ensures r.Some? ==> |r.value.subtypes| == |names| && |r.value.supertypes| == |names|
    decreases defs
  {
    if defs == [] then Some(l)
    else
      var id := IdOf(index, defs[0].name);
      if StatusAt(names, id, defs[0]) != Linked then None
      else LinkAll(names, index[defs[0].name := id], LinkedAt(l, names, id, defs[0]), defs[1..])
  }

  lemma OneLinked(schema: Schema, before: Links, id: nat, args: EntityArgs)
    requires schema.Valid() && id < schema.entityNum
    requires |before.subtypes| == schema.entityNum && |before.supertypes| == schema.entityNum
    requires forall k :: 0 <= k < schema.entityNum && k != id ==>
               before.subtypes[k] == SubtypeIds(schema.entities[k])
               && before.supertypes[k] == EntityId(schema.entities[k].supertype)
    requires SubtypeIds(schema.entities[id]) == Some(ResolveAll(schema.EntityNames(), args.subtypes))
    requires EntityId(schema.entities[id].supertype) ==
             (match args.supertype case None => before.supertypes[id] case Some(n) => Resolve(schema.EntityNames(), n))
    ensures SchemaLinks(schema) == LinkedAt(before, schema.EntityNames(), id, args)
  {
    hide SubtypeIds, ResolveAll, Resolve;
    var es := schema.entities[..schema.entityNum];
    var l, expected := LinksOf(es), LinkedAt(before, schema.EntityNames(), id, args);
    forall k | 0 <= k < schema.entityNum
      ensures l.subtypes[k] == expected.subtypes[k] && l.supertypes[k] == expected.supertypes[k]
    {
      assert es[k] == schema.entities[k];
    }
  }

  /** `init_entity`. */
  method InitEntity(parser: ExpressParser, args: EntityArgs) returns (status: LinkStatus)
    requires parser.schema.Valid()
    modifies parser`entityIdIndex, parser.schema.owned
    ensures parser.schema.Valid()
    ensures var id, names := IdOf(old(parser.entityIdIndex), args.name), parser.schema.EntityNames();
            && parser.entityIdIndex == old(parser.entityIdIndex)[args.name := id]
            && status == StatusAt(names, id, args)
            && (status == Linked ==>
                  SchemaLinks(parser.schema) == LinkedAt(old(SchemaLinks(parser.schema)), names, id, args))
  {
    hide ResolveAll, SubtypeIds, Resolve, Assignable;
    var schema := parser.schema;
    ghost var index, before := parser.entityIdIndex, SchemaLinks(schema);
    ghost var es := schema.entities[..schema.entityNum];
    var id := IdOf(parser.entityIdIndex, args.name);
    if args.name !in parser.entityIdIndex { parser.entityIdIndex := parser.entityIdIndex[args.name := 0]; }
    assert parser.entityIdIndex == index[args.name := id];
    if !(0 <= id < schema.entityNum) { return NoEntity; }
    var entity: Entity := schema.entities[id];
    if entity.name != args.name { return NameDiffers; }
    assert forall k :: 0 <= k < |es| ==> es[k] == schema.entities[k];
    status := AssignLinks(schema, entity, args);
    if status == Linked { OneLinked(schema, before, id, args); }
  }

  /** The calls of `init_entity` for the definitions the grammar meets, in order; stops where one does. */
  method InitEntities(parser: ExpressParser, defs: seq<EntityArgs>) returns (linked: bool)
    requires parser.schema.Valid()
    modifies parser`entityIdIndex, parser.schema.owned
    ensures parser.schema.Valid()
    ensures var names := parser.schema.EntityNames();
            match LinkAll(names, old(parser.entityIdIndex), old(SchemaLinks(parser.schema)), defs) {
              case None => !linked
              case Some(l) => linked && SchemaLinks(parser.schema) == l
            }
  {
    hide StatusAt, LinkedAt, SchemaLinks, IdOf;
    var schema := parser.schema;
    ghost var names := schema.EntityNames();
    assert defs[0..] == defs;
    for i := 0 to |defs|
      invariant schema.Valid() && schema.EntityNames() == names
      invariant LinkAll(names, old(parser.entityIdIndex), old(SchemaLinks(schema)), defs)
                == LinkAll(names, parser.entityIdIndex, SchemaLinks(schema), defs[i..])
    {
      assert defs[i..][1..] == defs[i + 1..];
      var status := InitEntity(parser, defs[i]);
      if status != Linked { return false; }
    }
    return true;
  }

  // ----- agreement of definitions -----

  /** The hierarchy a list of definitions describes, one definition per declared entity, in order. */
  function HierarchyOfArgs(defs: seq<EntityArgs>): (h: Hierarchy)
    ensures |h.subtypes| == |defs| && |h.supertypes| == |defs|
    ensures var names := NamesOf(defs);
            forall i :: 0 <= i < |defs| ==>
              && h.subtypes[i] == ResolveAll(names, defs[i].subtypes)
              && h.supertypes[i] == (match defs[i].supertype case None => NONE case Some(n) => Resolve(names, n))
  {
    var names := NamesOf(defs);
    Hierarchy(seq(|defs|, i requires 0 <= i < |defs| => ResolveAll(names, defs[i].subtypes)),
              seq(|defs|, i requires 0 <= i < |defs| =>
                match defs[i].supertype case None => NONE case Some(n) => Resolve(names, n)))
  }

  function NamesOf(defs: seq<EntityArgs>): (r: seq<string>)
    ensures |r| == |defs| && forall i :: 0 <= i < |defs| ==> r[i] == defs[i].name
  {
    seq(|defs|, i requires 0 <= i < |defs| => defs[i].name)
  }

  /** A definition of `name` says SUBTYPE OF `parent`. */
  predicate HasDefinition(defs: seq<EntityArgs>, name: string, parent: string) {
    exists k :: 0 <= k < |defs| && defs[k].name == name && defs[k].supertype == Some(parent)
  }

  /** A definition of `parent` lists `name` under SUPERTYPE OF. */
  predicate HasLister(defs: seq<EntityArgs>, parent: string, name: string) {
    exists i :: 0 <= i < |defs| && defs[i].name == parent && name in defs[i].subtypes
  }

  /** SUPERTYPE OF and SUBTYPE OF clauses mirror each other. */
  predicate ClausesAgree(defs: seq<EntityArgs>) {
    && (forall i, j :: 0 <= i < |defs| && 0 <= j < |defs[i].subtypes|
                       ==> HasDefinition(defs, defs[i].subtypes[j], defs[i].name))
    && (forall k :: 0 <= k < |defs| && defs[k].supertype.Some?
                    ==> HasLister(defs, defs[k].supertype.value, defs[k].name))
  }

  lemma {:induction false} ResolveDistinct(names: seq<string>, i: nat)
    requires Distinct(names) && i < |names|
    ensures Resolve(names, names[i]) == i
  {
    FirstIndexIs(names, names[i], i);
  }

  lemma FindDefinition(defs: seq<EntityArgs>, name: string, parent: string) returns (k: nat)
    requires HasDefinition(defs, name, parent)
    ensures k < |defs| && defs[k].name == name && defs[k].supertype == Some(parent)
  {
    k :| 0 <= k < |defs| && defs[k].name == name && defs[k].supertype == Some(parent);
  }

  lemma FindLister(defs: seq<EntityArgs>, parent: string, name: string) returns (u: nat, j: nat)
    requires HasLister(defs, parent, name)
    ensures u < |defs| && defs[u].name == parent && j < |defs[u].subtypes| && defs[u].subtypes[j] == name
  {
    u :| 0 <= u < |defs| && defs[u].name == parent && name in defs[u].subtypes;
    j :| 0 <= j < |defs[u].subtypes| && defs[u].subtypes[j] == name;
  }

  lemma SubtypeResolves(defs: seq<EntityArgs>, u: nat, j: nat)
    requires Distinct(NamesOf(defs)) && ClausesAgree(defs) && u < |defs| && j < |defs[u].subtypes|
    ensures var names := NamesOf(defs);
            var v := Resolve(names, defs[u].subtypes[j]);
            0 <= v < |defs| && defs[v].supertype.Some? && Resolve(names, defs[v].supertype.value) == u
  {
    hide Resolve, Distinct, NamesOf, HasDefinition, HasLister;
    var k := FindDefinition(defs, defs[u].subtypes[j], defs[u].name);
    ResolveDistinct(NamesOf(defs), k);
    ResolveDistinct(NamesOf(defs), u);
  }

  lemma SupertypeResolves(defs: seq<EntityArgs>, v: nat) returns (u: nat, j: nat)
    requires Distinct(NamesOf(defs)) && ClausesAgree(defs) && v < |defs| && defs[v].supertype.Some?
    ensures var names := NamesOf(defs);
            && u < |defs| && Resolve(names, defs[v].supertype.value) == u
            && j < |defs[u].subtypes| && Resolve(names, defs[u].subtypes[j]) == v
  {
    hide Resolve, Distinct, NamesOf, HasDefinition, HasLister;
    u, j := FindLister(defs, defs[v].supertype.value, defs[v].name);
    ResolveDistinct(NamesOf(defs), u);
    ResolveDistinct(NamesOf(defs), v);
  }

  lemma HierarchyAt(defs: seq<EntityArgs>, i: nat)
    requires i < |defs|
    ensures var h, names := HierarchyOfArgs(defs), NamesOf(defs);
            && |h.subtypes[i]| == |defs[i].subtypes|
            && (forall j :: 0 <= j < |defs[i].subtypes| ==> h.subtypes[i][j] == Resolve(names, defs[i].subtypes[j]))
            && h.supertypes[i] == (match defs[i].supertype case None => NONE case Some(n) => Resolve(names, n))
  {
    hide Resolve;
  }

  lemma SubtypeLinksBack(defs: seq<EntityArgs>, u: nat, v: int)
    requires Distinct(NamesOf(defs)) && ClausesAgree(defs)
    requires u < |defs| && v in HierarchyOfArgs(defs).subtypes[u]
    ensures PointsBack(HierarchyOfArgs(defs), u, v)
  {
    hide Distinct, ClausesAgree, Resolve, HierarchyOfArgs, NamesOf, ResolveAll;
    var links := HierarchyOfArgs(defs).subtypes[u];
    var j :| 0 <= j < |links| && links[j] == v;
    HierarchyAt(defs, u);
    SubtypeResolves(defs, u, j);
    HierarchyAt(defs, v);
  }

  lemma SupertypeLinksBack(defs: seq<EntityArgs>, v: nat)
    requires Distinct(NamesOf(defs)) && ClausesAgree(defs)
    requires v < |defs| && HierarchyOfArgs(defs).supertypes[v] != NONE
    ensures IsListed(HierarchyOfArgs(defs), HierarchyOfArgs(defs).supertypes[v], v)
  {
    hide Distinct, ClausesAgree, Resolve, HierarchyOfArgs, NamesOf, ResolveAll;
    HierarchyAt(defs, v);
    var u, j := SupertypeResolves(defs, v);
    HierarchyAt(defs, u);
    assert HierarchyOfArgs(defs).subtypes[u][j] == v;
  }

  /** Definitions with distinct names and mirrored clauses give agreeing links, so the table order is right. */
  lemma {:induction false} MirroredClausesAgree(defs: seq<EntityArgs>)
    requires Distinct(NamesOf(defs)) && ClausesAgree(defs)
    ensures LinksAgree(HierarchyOfArgs(defs))
  {
    hide Distinct, ClausesAgree, Resolve, HierarchyOfArgs, NamesOf, ResolveAll, PointsBack, IsListed;
    var h := HierarchyOfArgs(defs);
    forall u, v | 0 <= u < |h.subtypes| && v in h.subtypes[u] ensures PointsBack(h, u, v) {
      SubtypeLinksBack(defs, u, v);
    }
    forall v | 0 <= v < |h.supertypes| && h.supertypes[v] != NONE ensures IsListed(h, h.supertypes[v], v) {
      SupertypeLinksBack(defs, v);
    }
  }

  // ----- all definitions of a text -----

  /** The links behind the declaration pass. */
  function NoLinks(n: nat): (l: Links)
    ensures |l.subtypes| == n && |l.supertypes| == n
    ensures forall i :: 0 <= i < n ==> l.subtypes[i] == None && l.supertypes[i] == NONE
  {
    Links(seq(n, _ => None), seq(n, _ => NONE))
  }

  /** The links all definitions give on top of a finished declaration pass. */
  function LinksAfter(names: seq<string>, defs: seq<EntityArgs>): (r: Option<Links>)
    ensures r.Some? ==> |r.value.subtypes| == |names| && |r.value.supertypes| == |names|
  {
    LinkAll(names, Indexed(map[], names, 0), NoLinks(|names|), defs)
  }

  predicate AllLinked(names: seq<string>, index: Index, defs: seq<EntityArgs>) {
    forall k :: 0 <= k < |defs| ==> StatusAt(names, IdOf(index, defs[k].name), defs[k]) == Linked
  }

  predicate Touches(index: Index, defs: seq<EntityArgs>, i: int) {
    exists k :: 0 <= k < |defs| && IdOf(index, defs[k].name) == i
  }

  lemma IndexKept(index: Index, n: string)
    ensures forall m :: IdOf(index[n := IdOf(index, n)], m) == IdOf(index, m)
  {
  }

  lemma AllLinkedStep(names: seq<string>, index: Index, index': Index, defs: seq<EntityArgs>)
    requires defs != [] && forall m :: IdOf(index', m) == IdOf(index, m)
    ensures AllLinked(names, index, defs)
            <==> StatusAt(names, IdOf(index, defs[0].name), defs[0]) == Linked && AllLinked(names, index', defs[1..])
    ensures forall i :: Touches(index, defs, i) <==> IdOf(index, defs[0].name) == i || Touches(index', defs[1..], i)
  {
    hide StatusAt, IdOf;
    assert forall k :: 1 <= k < |defs| ==> defs[k] == defs[1..][k - 1];
    forall i ensures Touches(index, defs, i) <==> IdOf(index, defs[0].name) == i || Touches(index', defs[1..], i) {
      if Touches(index, defs, i) {
        var k :| 0 <= k < |defs| && IdOf(index, defs[k].name) == i;
        if k > 0 { assert IdOf(index', defs[1..][k - 1].name) == i; }
      }
      if Touches(index', defs[1..], i) {
        var k :| 0 <= k < |defs[1..]| && IdOf(index', defs[1..][k].name) == i;
        assert IdOf(index, defs[k + 1].name) == i;
      }
    }
  }

  /** Nothing stops the program exactly when each definition is linked, and then exactly the subtype lists the
      definitions reach are set on top of those that were. */
  lemma {:induction false} LinkAllSets(names: seq<string>, index: Index, l: Links, defs: seq<EntityArgs>)
    requires |l.subtypes| == |names| && |l.supertypes| == |names|
    ensures LinkAll(names, index, l, defs).Some? <==> AllLinked(names, index, defs)
    ensures match LinkAll(names, index, l, defs) {
              case None => true
              case Some(r) =>
                forall i :: 0 <= i < |names| ==>
                  (r.subtypes[i].Some? <==> l.subtypes[i].Some? || Touches(index, defs, i))
            }
    decreases defs
  {
    hide StatusAt, IdOf, ResolveAll, Resolve;
    if defs != [] {
      var id := IdOf(index, defs[0].name);
      var index' := index[defs[0].name := id];
      IndexKept(index, defs[0].name);
      AllLinkedStep(names, index, index', defs);
      LinkedIsInside(names, id, defs[0]);
      hide AllLinked, Touches;
      if StatusAt(names, id, defs[0]) == Linked {
        LinkAllSets(names, index', LinkedAt(l, names, id, defs[0]), defs[1..]);
      }
    }
  }

  lemma LinkedIsInside(names: seq<string>, id: int, args: EntityArgs)
    ensures StatusAt(names, id, args) == Linked
            <==> 0 <= id < |names| && names[id] == args.name && Assignable(names, args)
  {
    hide Resolve;
  }

  /** A finished pass indexes a declared name where it stands, and any other name at 0. */
  lemma IndexOfName(names: seq<string>, n: string)
    ensures var id := IdOf(Indexed(map[], names, 0), n);
            if n in names then 0 <= id < |names| && names[id] == n else id == 0
  {
    IndexIsLastPosition(map[], names, 0, n);
  }

  /** The definitions stop the program unless each is of a declared name and passes the checks. */
  lemma LinksExistExactly(names: seq<string>, defs: seq<EntityArgs>)
    ensures LinksAfter(names, defs).Some?
            <==> forall k :: 0 <= k < |defs| ==> defs[k].name in names && Assignable(names, defs[k])
  {
    hide Indexed, IdOf, StatusAt, Assignable, LinkAll;
    var index := Indexed(map[], names, 0);
    LinkAllSets(names, index, NoLinks(|names|), defs);
    forall k | 0 <= k < |defs|
      ensures StatusAt(names, IdOf(index, defs[k].name), defs[k]) == Linked
              <==> defs[k].name in names && Assignable(names, defs[k])
    {
      IndexOfName(names, defs[k].name);
      LinkedIsInside(names, IdOf(index, defs[k].name), defs[k]);
    }
  }

  predicate IsDefined(defs: seq<EntityArgs>, n: string) { exists k :: 0 <= k < |defs| && defs[k].name == n }

  /** Then every subtype list is set exactly when no name is declared twice and every declared name is defined. */
  lemma LinksAreSetExactly(names: seq<string>, defs: seq<EntityArgs>)
    requires LinksAfter(names, defs).Some?
    ensures AllSet(LinksAfter(names, defs).value)
            <==> Distinct(names) && forall i :: 0 <= i < |names| ==> IsDefined(defs, names[i])
  {
    hide Indexed, IdOf, LinkAll, StatusAt, Touches;
    var index, l := Indexed(map[], names, 0), LinksAfter(names, defs).value;
    LinkAllSets(names, index, NoLinks(|names|), defs);
    if AllSet(l) {
      forall i | 0 <= i < |names| ensures IdOf(index, names[i]) == i && IsDefined(defs, names[i]) {
        assert l.subtypes[i].Some?;
        TouchedIsDefined(names, index, defs, i);
      }
    }
    if Distinct(names) && forall i :: 0 <= i < |names| ==> IsDefined(defs, names[i]) {
      forall i | 0 <= i < |names| ensures l.subtypes[i].Some? {
        assert IsDefined(defs, names[i]);
        IndexOfDistinct(names, i);
        DefinedIsTouched(names, index, defs, i);
      }
    }
  }

  lemma TouchedIsDefined(names: seq<string>, index: Index, defs: seq<EntityArgs>, i: nat)
    requires i < |names| && AllLinked(names, index, defs) && Touches(index, defs, i)
    ensures IdOf(index, names[i]) == i && IsDefined(defs, names[i])
  {
    hide IdOf, StatusAt;
    var k :| 0 <= k < |defs| && IdOf(index, defs[k].name) == i;
    LinkedIsInside(names, i, defs[k]);
  }

  lemma DefinedIsTouched(names: seq<string>, index: Index, defs: seq<EntityArgs>, i: nat)
    requires i < |names| && IsDefined(defs, names[i]) && IdOf(index, names[i]) == i
    ensures Touches(index, defs, i)
  {
    hide IdOf;
  }

  // ----- one definition for every declared entity -----

  /** The links of a hierarchy, all set. */
  function AsLinks(h: Hierarchy): (l: Links)
    ensures AllSet(l) && Settled(l) == h
  {
    var l := Links(seq(|h.subtypes|, i requires 0 <= i < |h.subtypes| => Some(h.subtypes[i])), h.supertypes);
    assert Settled(l).subtypes == h.subtypes;
    l
  }

  /** `l` has the links of the first `k` definitions and no others. */
  predicate LinkedUpTo(l: Links, defs: seq<EntityArgs>, k: nat)
    requires k <= |defs|
  {
    && |l.subtypes| == |defs| && |l.supertypes| == |defs|
    && (forall i :: 0 <= i < k ==> l.subtypes[i] == Some(HierarchyOfArgs(defs).subtypes[i])
                                   && l.supertypes[i] == HierarchyOfArgs(defs).supertypes[i])
    && (forall i :: k <= i < |defs| ==> l.subtypes[i] == None && l.supertypes[i] == NONE)
  }

  predicate IndexedInOrder(index: Index, names: seq<string>) {
    forall i :: 0 <= i < |names| ==> IdOf(index, names[i]) == i
  }

  lemma LinkNext(l: Links, defs: seq<EntityArgs>, k: nat)
    requires k < |defs| && LinkedUpTo(l, defs, k)
    ensures LinkedUpTo(LinkedAt(l, NamesOf(defs), k, defs[k]), defs, k + 1)
  {
    hide HierarchyOfArgs, ResolveAll, Resolve, NamesOf;
  }

  lemma SameIndex(index: Index, names: seq<string>, k: nat)
    requires IndexedInOrder(index, names) && k < |names|
    ensures IndexedInOrder(index[names[k] := k], names)
  {
  }

  lemma AllLinksKnown(l: Links, defs: seq<EntityArgs>)
    requires LinkedUpTo(l, defs, |defs|)
    ensures l == AsLinks(HierarchyOfArgs(defs))
  {
    hide HierarchyOfArgs;
    var expected := AsLinks(HierarchyOfArgs(defs));
    assert l.subtypes == expected.subtypes && l.supertypes == expected.supertypes;
  }

  lemma {:induction false} LinkRest(index: Index, l: Links, defs: seq<EntityArgs>, k: nat)
    requires k <= |defs| && LinkedUpTo(l, defs, k) && IndexedInOrder(index, NamesOf(defs))
    ensures LinkAll(NamesOf(defs), index, l, defs[k..]) ==
            if forall i :: k <= i < |defs| ==> Assignable(NamesOf(defs), defs[i])
            then Some(AsLinks(HierarchyOfArgs(defs)))
            else None
    decreases |defs| - k
  {
    hide Assignable, StatusAt, LinkedAt, Resolve, ResolveAll, AsLinks;
    if k == |defs| {
      assert defs[k..] == [];
      AllLinksKnown(l, defs);
    } else {
      var names := NamesOf(defs);
      assert defs[k..][0] == defs[k] && defs[k..][1..] == defs[k + 1..] && IdOf(index, names[k]) == k;
      hide LinkedUpTo, IndexedInOrder, IdOf;
      LinkedIsInside(names, k, defs[k]);
      if Assignable(names, defs[k]) {
        LinkNext(l, defs, k);
        SameIndex(index, names, k);
        LinkRest(index[names[k] := k], LinkedAt(l, names, k, defs[k]), defs, k + 1);
      }
    }
  }

  /** One definition for each declared entity, in order and under distinct names: all are linked if and only if each
      passes the checks, and then the links are those the definitions describe. */
  lemma {:induction false} OneDefinitionEach(defs: seq<EntityArgs>)
    requires Distinct(NamesOf(defs))
    ensures var names := NamesOf(defs);
            LinksAfter(names, defs) ==
            if forall i :: 0 <= i < |defs| ==> Assignable(names, defs[i]) then Some(AsLinks(HierarchyOfArgs(defs)))
            else None
  {
    hide Distinct, Indexed, IdOf, LinkAll, Assignable, AsLinks;
    var names := NamesOf(defs);
    forall i | 0 <= i < |names| ensures IdOf(Indexed(map[], names, 0), names[i]) == i {
      IndexOfDistinct(names, i);
    }
    assert defs[0..] == defs;
    LinkRest(Indexed(map[], names, 0), NoLinks(|names|), defs, 0);
  }

  /** With distinct names the index of a finished declaration pass maps every name to its position. */
  lemma {:induction false} IndexOfDistinct(names: seq<string>, i: nat)
    requires Distinct(names) && i < |names|
    ensures IdOf(Indexed(map[], names, 0), names[i]) == i
  {
    IndexIsLastPosition(map[], names, 0, names[i]);
  }
}
