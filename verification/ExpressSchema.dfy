/** The schema arrays of src/express_parser/express_defs.c: declarations, lookups and entity links. */
module ExpressSchema {
  import opened Options

  const MAX_TYPE_NUM := 500
  const MAX_ENTITY_NUM := 1000
  const MAX_SUBTYPE_NUM := 50
  const MAX_ATTR_NUM := 50

  class TypeDecl {
    const name: string
    const index: nat

    constructor (name: string, index: nat)
      ensures this.name == name && this.index == index
    {
      this.name := name;
      this.index := index;
    }
  }

  /** `subtypes` is None as long as `subtype_num` was never set. */
  class Entity {
    const name: string
    const index: nat
    var subtypes: Option<seq<Entity?>>
    var supertype: Entity?

    constructor (name: string, index: nat)
      ensures this.name == name && this.index == index && supertype == null && subtypes.None?
    {
      this.name := name;
      this.index := index;
      subtypes := None;
      supertype := null;
    }
  }

  /** Position of the first occurrence, |names| when there is none. */
  function FirstIndex(names: seq<string>, n: string): (i: nat)
    ensures i <= |names|
    ensures i < |names| ==> names[i] == n
    ensures forall k :: 0 <= k < i ==> names[k] != n
  {
    if names == [] || names[0] == n then 0 else 1 + FirstIndex(names[1..], n)
  }

  class Schema {
    const types: array<TypeDecl?>
    const entities: array<Entity?>
    var typeNum: nat
    var entityNum: nat
    ghost var owned: set<Entity>

    constructor ()
      ensures Valid() && fresh(types) && fresh(entities)
      ensures typeNum == 0 && entityNum == 0 && owned == {}
    {
      types := new TypeDecl?[MAX_TYPE_NUM];
      entities := new Entity?[MAX_ENTITY_NUM];
      typeNum := 0;
      entityNum := 0;
      owned := {};
    }

    /** The filled part of each array holds objects that know their own position. */
    ghost predicate Valid()
      reads this, types, entities
    {
      && types.Length == 500 && entities.Length == 1000 && typeNum <= 500 && entityNum <= 1000
      && (forall i :: 0 <= i < typeNum ==> types[i] != null && types[i].index == i)
      && (forall i :: 0 <= i < entityNum ==> entities[i] != null && entities[i].index == i && entities[i] in owned)
    }

    ghost function TypeNames(): (r: seq<string>)
      requires Valid()
      reads this, types, entities
      ensures |r| == typeNum && forall i :: 0 <= i < typeNum ==> r[i] == types[i].name
    {
      seq(typeNum, i requires 0 <= i < typeNum && Valid() reads this, types, entities => types[i].name)
    }

    ghost function EntityNames(): (r: seq<string>)
      requires Valid()
      reads this, types, entities
      ensures |r| == entityNum && forall i :: 0 <= i < entityNum ==> r[i] == entities[i].name
    {
      seq(entityNum, i requires 0 <= i < entityNum && Valid() reads this, types, entities => entities[i].name)
    }

    /** No definition was processed yet. */
    ghost predicate Untouched()
      reads this, owned
    {
      forall e :: e in owned ==> e.supertype == null && e.subtypes.None?
    }

    /** `add_type_to_schema`. */
    method AddType(name: string)
      requires Valid() && typeNum < MAX_TYPE_NUM
      modifies this`typeNum, types
      ensures Valid()
      ensures old(Untouched()) ==> Untouched()
      ensures TypeNames() == old(TypeNames()) + [name]
      ensures EntityNames() == old(EntityNames())
      ensures forall i :: 0 <= i < old(typeNum) ==> types[i] == old(types[i])
    {
      var index := typeNum;
      var decl := new TypeDecl(name, index);
      types[index] := decl;
      typeNum := typeNum + 1;
    }

    /** `add_entity_to_schema`. */
    method AddEntity(name: string)
      requires Valid() && entityNum < MAX_ENTITY_NUM
      modifies this`entityNum, this`owned, entities
      ensures Valid()
      ensures old(Untouched()) ==> Untouched()
      ensures EntityNames() == old(EntityNames()) + [name]
      ensures entities[old(entityNum)].supertype == null && entities[old(entityNum)].subtypes.None?
      ensures TypeNames() == old(TypeNames())
      ensures forall i :: 0 <= i < old(entityNum) ==> entities[i] == old(entities[i])
      ensures fresh(owned - old(owned))
    {
      var index := entityNum;
      var entity := new Entity(name, index);
      entities[index] := entity;
      entityNum := entityNum + 1;
      owned := owned + {entity};
    }

    /** `find_type_by_name`. */
    method FindTypeByName(name: string) returns (found: TypeDecl?)
      requires Valid()
      ensures var k := FirstIndex(TypeNames(), name);
              found == if k < typeNum then types[k] else null
    {
      ghost var names := TypeNames();
      for i := 0 to typeNum
        invariant forall k :: 0 <= k < i ==> names[k] != name
      {
        if types[i].name == name {
          FirstIndexIs(names, name, i);
          return types[i];
        }
      }
      return null;
    }

    /** `find_entity_by_name`. */
    method FindEntityByName(name: string) returns (found: Entity?)
      requires Valid()
      ensures var k := FirstIndex(EntityNames(), name);
              found == if k < entityNum then entities[k] else null
    {
      ghost var names := EntityNames();
      for i := 0 to entityNum
        invariant forall k :: 0 <= k < i ==> names[k] != name
      {
        if entities[i].name == name {
          FirstIndexIs(names, name, i);
          return entities[i];
        }
      }
      return null;
    }

    /** `find_entity_by_id`. */
    function FindEntityById(id: int): (found: Entity?)
      requires Valid()
      reads this, types, entities
      ensures found != null <==> 0 <= id < entityNum
      ensures found != null ==> found.index == id && found == entities[id]
    {
      if id < 0 || id >= entityNum then null else entities[id]
    }
  }

  /** `get_entity_id`. */
  function EntityId(entity: Entity?): (id: int) {
    if entity == null then -1 else entity.index
  }

  lemma {:induction false} FirstIndexIs(names: seq<string>, n: string, i: nat)
    requires i < |names| && names[i] == n && forall k :: 0 <= k < i ==> names[k] != n
    ensures FirstIndex(names, n) == i
  {
    if i > 0 { FirstIndexIs(names[1..], n, i - 1); }
  }
}
