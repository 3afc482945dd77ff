/** From the text of a schema to its ordered tables: the declaration pass, the links the grammar's entity
    definitions ask for, and the generator, as src/express_parser/express_parser.cpp and
    src/express_parser/express_parser_cli.cpp chain them. */
module SchemaPipeline {
  import opened Digraph
  import opened ExpressSchema
  import opened ExpressPreprocess
  import opened PgSqlGenerator
  import opened EntityLinks
  import opened Options

  lemma AfterDeclaring(d: Declarations)
    ensures Snapshot([], [], map[], map[]).After(d)
            == Snapshot(d.types, d.entities, Indexed(map[], d.types, 0), Indexed(map[], d.entities, 0))
  {
    assert [] + d.types == d.types && [] + d.entities == d.entities;
  }

  lemma NothingLinked(schema: Schema)
    requires schema.Valid() && schema.Untouched()
    ensures SchemaLinks(schema) == NoLinks(schema.entityNum)
  {
    var es := schema.entities[..schema.entityNum];
    var l, expected := LinksOf(es), NoLinks(schema.entityNum);
    forall k | 0 <= k < schema.entityNum
      ensures l.subtypes[k] == expected.subtypes[k] && l.supertypes[k] == expected.supertypes[k]
    {
      assert es[k] in schema.owned;
    }
  }

  /** The links a text and the definitions the grammar meets in it give; None where the program stops. */
  function LinksFor(text: string, defs: seq<EntityArgs>): Option<Links> {
    var d := Declare(Tokens(text, 0));
    if !d.complete then None else LinksAfter(d.entities, defs)
  }

  /** From the text on. `done` is false where one of the stages stops the program. `defs` stands for what the
      grammar hands over, whatever it is. */
  method Generate(text: string, defs: seq<EntityArgs>) returns (done: bool, outcome: Generation)
    requires |Declare(Tokens(text, 0)).types| <= 500
    requires |Declare(Tokens(text, 0)).entities| <= 1000
    ensures match LinksFor(text, defs) {
              case None => !done
              case Some(l) => done && outcome == GeneratedFrom(l)
            }
  {
    hide Declare, Tokens, Indexed, LinkAll, LinksOf, GeneratedFrom, NoLinks, Schema.Untouched;
    outcome := NoOrder;
    var parser := new ExpressParser();
    assert parser.State() == Snapshot([], [], map[], map[]);
    assert parser.schema.Untouched() by { NothingOwned(parser.schema); }
    AfterDeclaring(Declare(Tokens(text, 0)));
    done := parser.Preprocess(text);
    if !done { return; }
    assert parser.schema.EntityNames() == parser.State().entities;
    NothingLinked(parser.schema);
    done := InitEntities(parser, defs);
    if done { outcome := GenerateForSchema(parser.schema); }
  }

  lemma NothingOwned(schema: Schema)
    requires schema.owned == {}
    ensures schema.Untouched()
  {
  }

  /** What a caller can check of a text and its definitions before the generator is called. */
  predicate Complete(text: string, defs: seq<EntityArgs>) {
    var d := Declare(Tokens(text, 0));
    && d.complete && Distinct(d.entities)
    && (forall k :: 0 <= k < |defs| ==> defs[k].name in d.entities && Assignable(d.entities, defs[k]))
    && (forall i :: 0 <= i < |d.entities| ==> IsDefined(defs, d.entities[i]))
  }

  /** Nothing stops the program and the generator reads only what was set, if and only if every keyword has a name, no
      entity is declared twice, every definition is of a declared entity and passes the checks, and every declared
      entity has a definition. */
  lemma GenerationIsDefinedExactly(text: string, defs: seq<EntityArgs>)
    ensures LinksFor(text, defs).Some? && !GeneratedFrom(LinksFor(text, defs).value).UnsetSubtypes?
            <==> Complete(text, defs)
  {
    hide Declare, Tokens, Distinct, Assignable, LinksAfter, IsDefined, Generated;
    var d := Declare(Tokens(text, 0));
    LinksExistExactly(d.entities, defs);
    if LinksFor(text, defs).Some? {
      LinksAreSetExactly(d.entities, defs);
      NeverUnset(LinksFor(text, defs).value);
    }
  }

  lemma NeverUnset(l: Links)
    ensures GeneratedFrom(l).UnsetSubtypes? <==> !AllSet(l)
  {
  }

  /** The statements create the table of every listed entity under its own parent's name, parents first. */
  ghost predicate TablesFollow(defs: seq<EntityArgs>, stmts: seq<Statement>) {
    && OncePerEntity(stmts) && ParentsFirst(stmts)
    && (forall i :: 0 <= i < |stmts| ==> 0 <= stmts[i].entity < |defs| && Inherits(defs, stmts[i]))
  }

  /** The table inherits from the entity the definition names after SUBTYPE OF, and from none without that clause. */
  predicate Inherits(defs: seq<EntityArgs>, stmt: Statement)
    requires 0 <= stmt.entity < |defs|
  {
    match defs[stmt.entity].supertype
    case None => stmt.parent == NONE
    case Some(n) => 0 <= stmt.parent < |defs| && defs[stmt.parent].name == n
  }

  /** Mirrored definitions never stop the linking, and their tables come out once each, parents first, exactly for
      the entities in some clause that are not behind an inheritance cycle. */
  lemma {:induction false} MirroredSchemaIsOrdered(defs: seq<EntityArgs>)
    requires Mirrored(defs)
    ensures forall k :: 0 <= k < |defs| ==> Assignable(NamesOf(defs), defs[k])
    ensures var h := HierarchyOfArgs(defs);
            match Generated(h) {
              case Emitted(stmts) =>
                && TablesFollow(defs, stmts)
                && (forall n :: Emits(stmts, n) <==>
                      TakesPart(h.subtypes, |defs|, n) && !BehindCycle(HierarchyGraph(h), n))
              case NoOrder => forall n :: TakesPart(h.subtypes, |defs|, n) ==> BehindCycle(HierarchyGraph(h), n)
              case _ => false
            }
  {
    hide Distinct, NamesOf, ClausesAgree, Generated, HierarchyGraph, TakesPart, BehindCycle, Emits, OncePerEntity,
      ParentsFirst, LinksAgree, ListedResolve, SupertypesList, ListedPointBack, Inherits, Assignable;
    var h := HierarchyOfArgs(defs);
    MirroredClausesAgree(defs);
    AgreeingLinks(h);
    TablesOfHierarchy(h);
    ParentsAreEmittedFirst(h);
    forall k | 0 <= k < |defs| ensures Assignable(NamesOf(defs), defs[k]) {
      MirroredIsAssignable(defs, k);
    }
    if Generated(h).Emitted? {
      var stmts := Generated(h).statements;
      forall i | 0 <= i < |stmts| ensures 0 <= stmts[i].entity < |defs| && Inherits(defs, stmts[i]) {
        StatementInherits(defs, stmts[i]);
      }
    }
  }

  /** Definitions under distinct names, within the limits, whose clauses mirror each other. */
  predicate Mirrored(defs: seq<EntityArgs>) {
    && Distinct(NamesOf(defs)) && ClausesAgree(defs)
    && forall k :: 0 <= k < |defs| ==> |defs[k].subtypes| <= 50 && defs[k].attrNum <= 50
  }

  /** A text whose entities have one mirrored definition each, in order, is linked as the definitions say. */
  lemma {:induction false} MirroredTextIsLinked(text: string, defs: seq<EntityArgs>)
    requires Mirrored(defs)
    ensures var d := Declare(Tokens(text, 0));
            d.complete && d.entities == NamesOf(defs) ==>
              LinksFor(text, defs) == Some(AsLinks(HierarchyOfArgs(defs)))
              && GeneratedFrom(LinksFor(text, defs).value) == Generated(HierarchyOfArgs(defs))
  {
    hide Declare, Tokens, Distinct, NamesOf, ClausesAgree, HierarchyOfArgs, LinksAfter, Assignable, Generated;
    OneDefinitionEach(defs);
    forall k | 0 <= k < |defs| ensures Assignable(NamesOf(defs), defs[k]) { MirroredIsAssignable(defs, k); }
  }

  lemma {:induction false} MirroredIsAssignable(defs: seq<EntityArgs>, k: nat)
    requires Distinct(NamesOf(defs)) && ClausesAgree(defs)
    requires k < |defs| && |defs[k].subtypes| <= 50 && defs[k].attrNum <= 50
    ensures Assignable(NamesOf(defs), defs[k])
  {
    hide Distinct, NamesOf, ClausesAgree;
    if defs[k].supertype.Some? { var u, j := SupertypeResolves(defs, k); }
  }

  lemma {:induction false} StatementInherits(defs: seq<EntityArgs>, stmt: Statement)
    requires Distinct(NamesOf(defs)) && ClausesAgree(defs) && 0 <= stmt.entity < |defs|
    requires stmt.parent == HierarchyOfArgs(defs).supertypes[stmt.entity]
    ensures Inherits(defs, stmt)
  {
    hide Distinct, ClausesAgree, HierarchyOfArgs;
    HierarchyAt(defs, stmt.entity);
    if defs[stmt.entity].supertype.Some? { var u, j := SupertypeResolves(defs, stmt.entity); }
  }
}
