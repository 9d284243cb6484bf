/**
 * Entity definitions of the Froeling Lambdatronic integration and the selection of
 * the active ones (`_get_active_entity_definitions` in coordinator.py).
 *
 * A definition is the attribute bag of the integration's definition table: every
 * key is optional, and its presence or absence decides behaviour.  The table and
 * the user's choice of enabled entities are inputs of the model.
 */
module Definitions {
  import opened Wrappers

  type EntityId = string
  type Category = string

  /** The `type` key.  `OtherType` stands for every other tag and for an absent key. */
  datatype EntityType = Number | Select | Text | BinarySensorFromRegister | OtherType

  /** The `register_type` key (`"input"`, `"holding"`, anything else). */
  datatype RegisterType = InputRegister | HoldingRegister | OtherRegisterType

  /** One row of the definition table; `None` is an absent key. */
  datatype Definition = Definition(
    entityType: EntityType,
    register: Option<int>,
    coil: Option<int>,
    registerType: Option<RegisterType>,
    scaling: Option<real>,
    decimals: Option<int>,
    mapping: Option<string>,
    minValue: Option<real>,
    maxValue: Option<real>,
    options: Option<seq<string>>)

  /** One item of an insertion-ordered dictionary of definitions. */
  datatype Entry = Entry(id: EntityId, definition: Definition)

  /**
   * A decoded value as the integration stores it: Python int, float, bool or str.  A float
   * is the result of `round(x, places)` and is kept exactly, as `mantissa * 10^-places`.
   */
  datatype Value =
    | IntValue(i: int)
    | FloatValue(mantissa: int, places: int)
    | BoolValue(b: bool)
    | TextValue(s: string)

  /** The coordinator's data: entity id to a value or Python's `None`. */
  type Snapshot = map<EntityId, Option<Value>>

  /** `data.get(id)`: the stored value, `None` for a missing key or a stored `None`. */
  function StoredValue(data: Snapshot, id: EntityId): Option<Value> {
    if id in data then data[id] else None
  }

  /** The keys of an ordered dictionary, in order. */
  function Ids(es: seq<Entry>): seq<EntityId> {
    seq(|es|, i requires 0 <= i < |es| => es[i].id)
  }

  /** A Python dict never holds a key twice. */
  predicate UniqueIds(es: seq<Entry>) {
    forall i, j :: 0 <= i < j < |es| ==> es[i].id != es[j].id
  }

  /** `d.get(id)` on an ordered dictionary. */
  function Lookup(es: seq<Entry>, id: EntityId): (r: Option<Definition>)
    ensures r.None? <==> forall i :: 0 <= i < |es| ==> es[i].id != id
    ensures UniqueIds(es) ==> forall i :: 0 <= i < |es| && es[i].id == id ==> r == Some(es[i].definition)
  {
    if es == [] then None
    else if es[0].id == id then Some(es[0].definition)
    else Lookup(es[1..], id)
  }

  /**
   * `d[e.id] = e.definition` on an insertion-ordered dictionary: an existing key keeps
   * its position and takes the new value, a new key goes to the end.
   */
  function Put(es: seq<Entry>, e: Entry): seq<Entry> {
    if es == [] then [e]
    else if es[0].id == e.id then [e] + es[1..]
    else [es[0]] + Put(es[1..], e)
  }

  lemma {:induction false} PutIds(es: seq<Entry>, e: Entry)
    ensures Ids(Put(es, e)) == if e.id in Ids(es) then Ids(es) else Ids(es) + [e.id]
  {
    if es == [] {
    } else if es[0].id == e.id {
      assert Ids(es)[0] == e.id;
      assert Ids(Put(es, e)) == Ids(es);
    } else {
      PutIds(es[1..], e);
      assert Ids(es) == [es[0].id] + Ids(es[1..]);
      assert Ids(Put(es, e)) == [es[0].id] + Ids(Put(es[1..], e));
    }
  }

  lemma {:induction false} PutUnique(es: seq<Entry>, e: Entry)
    requires UniqueIds(es)
    ensures UniqueIds(Put(es, e))
  {
    if es == [] {
    } else if es[0].id == e.id {
      var r := [e] + es[1..];
      forall i, j | 0 <= i < j < |r| ensures r[i].id != r[j].id {
        assert r[j] == es[j];
        if i > 0 { assert r[i] == es[i]; }
      }
    } else {
      UniqueTail(es);
      PutUnique(es[1..], e);
      PutIds(es[1..], e);
      UniqueConsCase(es[0], Put(es[1..], e));
    }
  }

  lemma {:induction false} PutLookup(es: seq<Entry>, e: Entry, id: EntityId)
    ensures Lookup(Put(es, e), id) == if id == e.id then Some(e.definition) else Lookup(es, id)
  {
    if es == [] {
    } else if es[0].id == e.id {
      assert Put(es, e)[1..] == es[1..];
    } else {
      PutLookup(es[1..], e, id);
      assert Put(es, e)[1..] == Put(es[1..], e);
    }
  }

  lemma UniqueTail(es: seq<Entry>)
    requires es != []
    ensures UniqueIds(es) ==> UniqueIds(es[1..]) && es[0].id !in Ids(es[1..])
  {
    if UniqueIds(es) {
      forall k | 0 <= k < |es| - 1 ensures Ids(es[1..])[k] != es[0].id {
        assert Ids(es[1..])[k] == es[k + 1].id;
      }
    }
  }

  lemma UniqueConsCase(x: Entry, rest: seq<Entry>)
    requires UniqueIds(rest) && x.id !in Ids(rest)
    ensures UniqueIds([x] + rest)
  {
    forall i, j | 0 <= i < j < |[x] + rest| ensures ([x] + rest)[i].id != ([x] + rest)[j].id {
      if i == 0 {
        assert ([x] + rest)[j].id == Ids(rest)[j - 1];
      } else {
        assert ([x] + rest)[i] == rest[i - 1] && ([x] + rest)[j] == rest[j - 1];
      }
    }
  }

  /** Looking up in a dictionary whose last key is `e.id`. */
  lemma LookupSnoc(es: seq<Entry>, e: Entry, id: EntityId)
    requires UniqueIds(es + [e])
    ensures UniqueIds(es)
    ensures Lookup(es + [e], id) == if id == e.id then Some(e.definition) else Lookup(es, id)
  {
    var t := es + [e];
    assert forall i :: 0 <= i < |es| ==> t[i] == es[i];
    if id == e.id {
      assert t[|es|].id == id;
    } else if Lookup(es, id).Some? {
      var i :| 0 <= i < |es| && es[i].id == id;
      assert t[i].id == id;
    }
  }

  // ---------------------------------------------------------------------------
  // Selecting the active definitions
  // ---------------------------------------------------------------------------

  /** `ENTITY_DEFINITIONS`: category to entity id to definition. */
  type Registry = map<Category, map<EntityId, Definition>>

  /** One item of the configuration's `entities` dictionary. */
  datatype EnabledCategory = EnabledCategory(category: Category, entities: seq<EntityId>)

  /** The definitions found for `ids` in one category table, in the order of `ids`. */
  function TableHits(table: map<EntityId, Definition>, ids: seq<EntityId>): seq<Entry> {
    if ids == [] then []
    else
      var id := ids[|ids| - 1];
      TableHits(table, ids[..|ids| - 1]) + (if id in table then [Entry(id, table[id])] else [])
  }

  function CategoryHits(registry: Registry, c: EnabledCategory): seq<Entry> {
    if c.category in registry then TableHits(registry[c.category], c.entities) else []
  }

  /** Every (id, definition) the selection loops assign, in assignment order. */
  function Hits(registry: Registry, enabled: seq<EnabledCategory>): seq<Entry> {
    if enabled == [] then []
    else Hits(registry, enabled[..|enabled| - 1]) + CategoryHits(registry, enabled[|enabled| - 1])
  }

  /** The dictionary that results from assigning `hits` one after another to `{}`. */
  function PutAll(hits: seq<Entry>): seq<Entry> {
    if hits == [] then [] else Put(PutAll(hits[..|hits| - 1]), hits[|hits| - 1])
  }

  /** The definition of the last of `hits` with this id. */
  function LastLookup(hits: seq<Entry>, id: EntityId): Option<Definition> {
    if hits == [] then None
    else if hits[|hits| - 1].id == id then Some(hits[|hits| - 1].definition)
    else LastLookup(hits[..|hits| - 1], id)
  }

  /** `ids` with every repetition after the first dropped. */
  function FirstOccurrences(ids: seq<EntityId>): seq<EntityId> {
    if ids == [] then []
    else
      var d := FirstOccurrences(ids[..|ids| - 1]);
      if ids[|ids| - 1] in d then d else d + [ids[|ids| - 1]]
  }

  /**
   * Reference statement of selection, independent of dictionaries: the definition
   * that the last enabled category listing `id` and defining it gives to `id`.
   */
  function LastDefining(registry: Registry, enabled: seq<EnabledCategory>, id: EntityId): Option<Definition> {
    if enabled == [] then None
    else
      var c := enabled[|enabled| - 1];
      if c.category in registry && id in c.entities && id in registry[c.category]
      then Some(registry[c.category][id])
      else LastDefining(registry, enabled[..|enabled| - 1], id)
  }

  /** `id` is listed under some enabled category whose table defines it. */
  ghost predicate EnabledAndDefined(registry: Registry, enabled: seq<EnabledCategory>, id: EntityId) {
    exists c :: 0 <= c < |enabled| && enabled[c].category in registry
      && id in enabled[c].entities && id in registry[enabled[c].category]
  }

  lemma {:induction false} LastDefiningIsSome(registry: Registry, enabled: seq<EnabledCategory>, id: EntityId)
    ensures LastDefining(registry, enabled, id).Some? <==> EnabledAndDefined(registry, enabled, id)
  {
    if enabled != [] {
      var front := enabled[..|enabled| - 1];
      LastDefiningIsSome(registry, front, id);
      if EnabledAndDefined(registry, front, id) {
        var c :| 0 <= c < |front| && front[c].category in registry
          && id in front[c].entities && id in registry[front[c].category];
        assert enabled[c] == front[c];
      }
      if EnabledAndDefined(registry, enabled, id) {
        var c :| 0 <= c < |enabled| && enabled[c].category in registry
          && id in enabled[c].entities && id in registry[enabled[c].category];
        if c < |front| { assert enabled[c] == front[c]; }
      }
    }
  }

  lemma {:induction false} PutAllIsDictionary(hits: seq<Entry>)
    ensures UniqueIds(PutAll(hits))
    ensures forall id :: Lookup(PutAll(hits), id) == LastLookup(hits, id)
    ensures Ids(PutAll(hits)) == FirstOccurrences(Ids(hits))
  {
    if hits != [] {
      var front := hits[..|hits| - 1];
      var last := hits[|hits| - 1];
      PutAllIsDictionary(front);
      PutUnique(PutAll(front), last);
      PutIds(PutAll(front), last);
      forall id ensures Lookup(PutAll(hits), id) == LastLookup(hits, id) {
        PutLookup(PutAll(front), last, id);
      }
      assert Ids(hits)[..|hits| - 1] == Ids(front);
    }
  }

  lemma {:induction false} LastLookupConcat(a: seq<Entry>, b: seq<Entry>, id: EntityId)
    ensures LastLookup(a + b, id) == if LastLookup(b, id).Some? then LastLookup(b, id) else LastLookup(a, id)
  {
    if b == [] {
      assert a + b == a;
    } else {
      assert (a + b)[..|a + b| - 1] == a + b[..|b| - 1];
      LastLookupConcat(a, b[..|b| - 1], id);
    }
  }

  lemma {:induction false} TableHitsLookup(table: map<EntityId, Definition>, ids: seq<EntityId>, id: EntityId)
    ensures LastLookup(TableHits(table, ids), id) == if id in ids && id in table then Some(table[id]) else None
  {
    if ids != [] {
      var last := ids[|ids| - 1];
      var front := ids[..|ids| - 1];
      TableHitsLookup(table, front, id);
      LastLookupConcat(TableHits(table, front), if last in table then [Entry(last, table[last])] else [], id);
      assert ids == front + [last];
      assert id in ids <==> id in front || id == last;
    }
  }

  /** The last assignment of an id in the selection loops is the one of `LastDefining`. */
  lemma {:induction false} HitsLookup(registry: Registry, enabled: seq<EnabledCategory>, id: EntityId)
    ensures LastLookup(Hits(registry, enabled), id) == LastDefining(registry, enabled, id)
  {
    if enabled != [] {
      var c := enabled[|enabled| - 1];
      HitsLookup(registry, enabled[..|enabled| - 1], id);
      LastLookupConcat(Hits(registry, enabled[..|enabled| - 1]), CategoryHits(registry, c), id);
      if c.category in registry {
        TableHitsLookup(registry[c.category], c.entities, id);
      }
    }
  }

  lemma PutAllSnoc(hits: seq<Entry>, e: Entry)
    ensures PutAll(hits + [e]) == Put(PutAll(hits), e)
  {
    assert (hits + [e])[..|hits|] == hits;
  }

  lemma TableHitsSnoc(table: map<EntityId, Definition>, ids: seq<EntityId>, k: nat)
    requires k < |ids|
    ensures TableHits(table, ids[..k + 1])
      == TableHits(table, ids[..k]) + (if ids[k] in table then [Entry(ids[k], table[ids[k]])] else [])
  {
    assert ids[..k + 1][..k] == ids[..k];
  }

  lemma HitsSnoc(registry: Registry, enabled: seq<EnabledCategory>, c: nat)
    requires c < |enabled|
    ensures Hits(registry, enabled[..c + 1]) == Hits(registry, enabled[..c]) + CategoryHits(registry, enabled[c])
  {
    assert enabled[..c + 1][..c] == enabled[..c];
  }

  /** One pass of the inner selection loop, as a change of the assigned hits. */
  lemma InnerStep(done: seq<Entry>, table: map<EntityId, Definition>, ids: seq<EntityId>, k: nat)
    requires k < |ids|
    ensures ids[k] in table ==>
              PutAll(done + TableHits(table, ids[..k + 1]))
              == Put(PutAll(done + TableHits(table, ids[..k])), Entry(ids[k], table[ids[k]]))
    ensures ids[k] !in table ==> done + TableHits(table, ids[..k + 1]) == done + TableHits(table, ids[..k])
  {
    TableHitsSnoc(table, ids, k);
    if ids[k] in table {
      var e := Entry(ids[k], table[ids[k]]);
      PutAllSnoc(done + TableHits(table, ids[..k]), e);
      assert done + TableHits(table, ids[..k + 1]) == done + TableHits(table, ids[..k]) + [e];
    }
  }

  /** Before and after the inner loop over one category's entities. */
  lemma CategoryBounds(registry: Registry, enabled: seq<EnabledCategory>, c: nat)
    requires c < |enabled|
    ensures var cat := enabled[c];
            cat.category in registry ==>
              && Hits(registry, enabled[..c]) + TableHits(registry[cat.category], cat.entities[..0])
                 == Hits(registry, enabled[..c])
              && Hits(registry, enabled[..c]) + TableHits(registry[cat.category], cat.entities[..|cat.entities|])
                 == Hits(registry, enabled[..c + 1])
    ensures enabled[c].category !in registry ==> Hits(registry, enabled[..c + 1]) == Hits(registry, enabled[..c])
  {
    HitsSnoc(registry, enabled, c);
    var cat := enabled[c];
    assert cat.entities[..0] == [];
    assert cat.entities[..|cat.entities|] == cat.entities;
  }

  lemma SelectionIsDictionary(registry: Registry, enabled: seq<EnabledCategory>)
    ensures UniqueIds(PutAll(Hits(registry, enabled)))
    ensures forall id :: Lookup(PutAll(Hits(registry, enabled)), id) == LastDefining(registry, enabled, id)
    ensures Ids(PutAll(Hits(registry, enabled))) == FirstOccurrences(Ids(Hits(registry, enabled)))
  {
    PutAllIsDictionary(Hits(registry, enabled));
    forall id ensures Lookup(PutAll(Hits(registry, enabled)), id) == LastDefining(registry, enabled, id) {
      HitsLookup(registry, enabled, id);
    }
  }

  /**
   * `_get_active_entity_definitions`: for every enabled category that the registry
   * knows, and every listed entity that the category defines, assign its definition.
   */
  method GetActiveDefinitions(registry: Registry, enabled: seq<EnabledCategory>) returns (active: seq<Entry>)
    ensures UniqueIds(active)
    ensures forall id :: Lookup(active, id) == LastDefining(registry, enabled, id)
    ensures Ids(active) == FirstOccurrences(Ids(Hits(registry, enabled)))
  {
    active := [];
    for c := 0 to |enabled|
      invariant active == PutAll(Hits(registry, enabled[..c]))
    {
      CategoryBounds(registry, enabled, c);
      var category := enabled[c];
      if category.category in registry {
        var table := registry[category.category];
        ghost var done := Hits(registry, enabled[..c]);
        for k := 0 to |category.entities|
          invariant active == PutAll(done + TableHits(table, category.entities[..k]))
        {
          InnerStep(done, table, category.entities, k);
          var id := category.entities[k];
          if id in table {
            active := Put(active, Entry(id, table[id]));
          }
        }
      }
    }
    assert enabled[..|enabled|] == enabled;
    SelectionIsDictionary(registry, enabled);
  }
}
