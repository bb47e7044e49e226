/** An archetype: columnar storage for all entities that have the same set of
    component types. Each component type has a column; an entity's
    components sit at the same index in every column; two maps translate
    between entities and indices. Removal swaps the last element into the
    freed slot. */
module Archetypes {
  import opened Types

  /** `SIZE_MAX` for a 64-bit `std::size_t`. */
  const SIZE_MAX: nat := 0xFFFF_FFFF_FFFF_FFFF

  /** `size - 1` in `std::size_t`: an empty column gives `SIZE_MAX`. */
  function LastIndex(size: nat): nat
  {
    if size == 0 then SIZE_MAX else size - 1
  }

  // ---------------------------------------------------------------------
  // ComponentStorage::destroy

  /** `ComponentStorage::destroy(index)`: unless `index` is the last slot, the
      last element is moved into it; then the last slot is dropped. */
  function SwapRemove<V>(s: seq<V>, index: nat): (r: seq<V>)
    requires index < |s|
    ensures |r| == |s| - 1
    ensures forall k | 0 <= k < |r| :: r[k] == (if k == index then s[|s| - 1] else s[k])
  {
    if index != |s| - 1 then s[index := s[|s| - 1]][..|s| - 1] else s[..|s| - 1]
  }

  /** Swap-remove drops exactly one copy of the removed element. */
  lemma SwapRemoveMultiset<V>(s: seq<V>, index: nat)
    requires index < |s|
    ensures multiset(SwapRemove(s, index)) == multiset(s) - multiset{s[index]}
  {
    var n := |s| - 1;
    assert s == s[..n] + [s[n]];
    if index != n {
      var t := s[..n];
      assert SwapRemove(s, index) == t[index := s[n]];
      assert t == t[..index] + [t[index]] + t[index + 1..];
      assert t[index := s[n]] == t[..index] + [s[n]] + t[index + 1..];
    }
  }

  // ---------------------------------------------------------------------
  // Appending component values to columns

  /** `add_to_component_storage`, on the column map: the type's column, created
      empty if missing, with the value appended. */
  function AppendTo<V>(columns: map<nat, seq<V>>, ty: nat, v: V): (r: map<nat, seq<V>>)
    ensures r.Keys == columns.Keys + {ty}
    ensures forall t | t in columns && t != ty :: r[t] == columns[t]
    ensures |r[ty]| == (if ty in columns then |columns[ty]| else 0) + 1
    ensures ty in columns ==> r[ty][..|columns[ty]|] == columns[ty]
    ensures r[ty][|r[ty]| - 1] == v
  {
    columns[ty := (if ty in columns then columns[ty] else []) + [v]]
  }

  /** The fold of `create_entity` over its components, left to right. */
  function AppendAll<V>(columns: map<nat, seq<V>>, comps: seq<(nat, V)>): map<nat, seq<V>>
  {
    if comps == [] then columns
    else var last := comps[|comps| - 1]; AppendTo(AppendAll(columns, comps[..|comps| - 1]), last.0, last.1)
  }

  /** The component types a list of components names. */
  function TypesOf<V>(comps: seq<(nat, V)>): set<nat>
  {
    set i | 0 <= i < |comps| :: comps[i].0
  }

  /** One more component adds its type. */
  lemma TypesOfAppend<V>(comps: seq<(nat, V)>, c: (nat, V))
    ensures TypesOf(comps + [c]) == TypesOf(comps) + {c.0}
  {
    var t := comps + [c];
    assert t[|comps|].0 == c.0;
    forall ty | ty in TypesOf(comps)
      ensures ty in TypesOf(t)
    {
      var i :| 0 <= i < |comps| && comps[i].0 == ty;
      assert t[i] == comps[i];
    }
  }

  /** No component type occurs twice. */
  predicate DistinctTypes<V>(comps: seq<(nat, V)>)
  {
    forall i, j | 0 <= i < j < |comps| :: comps[i].0 != comps[j].0
  }

  /** The values of one type in a list of components, in order. */
  function ValuesOf<V>(comps: seq<(nat, V)>, ty: nat): seq<V>
  {
    if comps == [] then []
    else
      var last := comps[|comps| - 1];
      ValuesOf(comps[..|comps| - 1], ty) + (if last.0 == ty then [last.1] else [])
  }

  /** The column a type had before, empty if it had none. */
  function ColumnOr<V>(columns: map<nat, seq<V>>, ty: nat): seq<V>
  {
    if ty in columns then columns[ty] else []
  }

  /** After the fold a type has a column exactly when it had one or some
      component names it, and that column is the old one followed by the
      type's values in the order given. */
  lemma {:induction false} AppendAllAt<V>(columns: map<nat, seq<V>>, comps: seq<(nat, V)>, ty: nat)
    ensures ty in AppendAll(columns, comps) <==> ty in columns || ty in TypesOf(comps)
    ensures ty in AppendAll(columns, comps) ==> AppendAll(columns, comps)[ty] == ColumnOr(columns, ty) + ValuesOf(comps, ty)
  {
    if comps != [] {
      var front := comps[..|comps| - 1];
      var last := comps[|comps| - 1];
      assert comps == front + [last];
      TypesOfAppend(front, last);
      AppendAllAt(columns, front, ty);
      var before := AppendAll(columns, front);
      if ty !in before {
        ValuesOfAbsent(front, ty);
      }
      if last.0 == ty {
        assert ColumnOr(before, ty) == ColumnOr(columns, ty) + ValuesOf(front, ty);
        assert ValuesOf(comps, ty) == ValuesOf(front, ty) + [last.1];
      } else {
        assert ValuesOf(comps, ty) == ValuesOf(front, ty);
      }
    }
  }

  /** A type no component names has no values. */
  lemma {:induction false} ValuesOfAbsent<V>(comps: seq<(nat, V)>, ty: nat)
    requires ty !in TypesOf(comps)
    ensures ValuesOf(comps, ty) == []
  {
    if comps != [] {
      var front := comps[..|comps| - 1];
      TypesOfAppend(front, comps[|comps| - 1]);
      assert comps == front + [comps[|comps| - 1]];
      ValuesOfAbsent(front, ty);
    }
  }

  /** With each type named once, a type's values are its one component's value. */
  lemma {:induction false} ValuesOfDistinct<V>(comps: seq<(nat, V)>, i: nat)
    requires DistinctTypes(comps) && i < |comps|
    ensures ValuesOf(comps, comps[i].0) == [comps[i].1]
  {
    var front := comps[..|comps| - 1];
    var last := comps[|comps| - 1];
    assert comps == front + [last];
    if i == |comps| - 1 {
      assert last.0 !in TypesOf(front);
      ValuesOfAbsent(front, last.0);
    } else {
      assert front[i] == comps[i];
      ValuesOfDistinct(front, i);
    }
  }

  // ---------------------------------------------------------------------
  // The entity maps

  /** `ent_to_component_index` and `component_index_to_ent` are inverse
      bijections between the entities and the indices `0 .. |indexToEnt| - 1`. */
  ghost predicate Bijection(entToIndex: map<Entity, nat>, indexToEnt: seq<Entity>)
  {
    && |entToIndex| == |indexToEnt|
    && (forall e | e in entToIndex :: entToIndex[e] < |indexToEnt| && indexToEnt[entToIndex[e]] == e)
    && (forall i | 0 <= i < |indexToEnt| :: indexToEnt[i] in entToIndex && entToIndex[indexToEnt[i]] == i)
  }

  /** Creating a new entity at the next index keeps the maps inverse bijections. */
  lemma CreateKeepsBijection(entToIndex: map<Entity, nat>, indexToEnt: seq<Entity>, entity: Entity)
    requires Bijection(entToIndex, indexToEnt) && entity !in entToIndex
    ensures Bijection(entToIndex[entity := |indexToEnt|], indexToEnt + [entity])
  {
    var e2 := entToIndex[entity := |indexToEnt|];
    var i2 := indexToEnt + [entity];
    assert e2.Keys == entToIndex.Keys + {entity};
    forall i | 0 <= i < |i2|
      ensures i2[i] in e2 && e2[i2[i]] == i
    {
      if i < |indexToEnt| {
        assert i2[i] == indexToEnt[i];
      }
    }
  }

  /** The entity map after `destroy_entity`: the last entity takes over the
      destroyed one's index, and the destroyed one is erased. */
  function EntityMapAfterDestroy(entToIndex: map<Entity, nat>, indexToEnt: seq<Entity>, entity: Entity): map<Entity, nat>
    requires entity in entToIndex && indexToEnt != []
  {
    var back := indexToEnt[|indexToEnt| - 1];
    (if entity != back then entToIndex[back := entToIndex[entity]] else entToIndex) - {entity}
  }

  /** The index list after `destroy_entity`: the last entity is written to the
      destroyed one's slot, and the last slot is dropped. */
  function IndexListAfterDestroy(entToIndex: map<Entity, nat>, indexToEnt: seq<Entity>, entity: Entity): seq<Entity>
    requires Bijection(entToIndex, indexToEnt) && entity in entToIndex
  {
    var back := indexToEnt[|indexToEnt| - 1];
    (if entity != back then indexToEnt[entToIndex[entity] := back] else indexToEnt)[..|indexToEnt| - 1]
  }

  /** Destroying an entity keeps the maps inverse bijections, one entry
      shorter, over the other entities; every other entity keeps its index,
      except the former last one, which moves to the freed index. */
  lemma DestroyKeepsBijection(entToIndex: map<Entity, nat>, indexToEnt: seq<Entity>, entity: Entity)
    requires Bijection(entToIndex, indexToEnt) && entity in entToIndex
    ensures Bijection(EntityMapAfterDestroy(entToIndex, indexToEnt, entity), IndexListAfterDestroy(entToIndex, indexToEnt, entity))
    ensures EntityMapAfterDestroy(entToIndex, indexToEnt, entity).Keys == entToIndex.Keys - {entity}
    ensures forall e | e in entToIndex && e != entity ::
      EntityMapAfterDestroy(entToIndex, indexToEnt, entity)[e]
        == (if e == indexToEnt[|indexToEnt| - 1] then entToIndex[entity] else entToIndex[e])
  {
    var e2 := EntityMapAfterDestroy(entToIndex, indexToEnt, entity);
    var i2 := IndexListAfterDestroy(entToIndex, indexToEnt, entity);
    var last := |indexToEnt| - 1;
    var back := indexToEnt[last];
    var index := entToIndex[entity];
    assert e2.Keys == entToIndex.Keys - {entity};
    assert |e2| == |i2| by {
      assert |e2.Keys| == |entToIndex.Keys| - 1;
    }
    forall e | e in e2
      ensures e2[e] < |i2| && i2[e2[e]] == e
    {
      if e != back {
        assert entToIndex[e] != last && entToIndex[e] != index;
      }
    }
    forall i | 0 <= i < |i2|
      ensures i2[i] in e2 && e2[i2[i]] == i
    {
      assert indexToEnt[i] != back;
    }
  }

  /** After swap-removing every column at the destroyed index, each surviving
      entity still finds its own components at its (possibly new) index. */
  lemma SurvivorsKeepComponents<V>(column: seq<V>, entToIndex: map<Entity, nat>, indexToEnt: seq<Entity>, entity: Entity, e: Entity)
    requires Bijection(entToIndex, indexToEnt) && |column| == |indexToEnt|
    requires entity in entToIndex && e in entToIndex && e != entity
    ensures EntityMapAfterDestroy(entToIndex, indexToEnt, entity)[e] < |column| - 1
    ensures SwapRemove(column, entToIndex[entity])[EntityMapAfterDestroy(entToIndex, indexToEnt, entity)[e]] == column[entToIndex[e]]
  {
    DestroyKeepsBijection(entToIndex, indexToEnt, entity);
  }

  /** The columns after `destroy_entity`'s loop: each one swap-removed at `index`. */
  function ColumnsAfterDestroy<V>(columns: map<nat, seq<V>>, index: nat): (r: map<nat, seq<V>>)
    requires forall ty | ty in columns :: index < |columns[ty]|
    ensures r.Keys == columns.Keys
  {
    map ty | ty in columns :: SwapRemove(columns[ty], index)
  }

  /** The archetype invariant on its three fields: every column is as long as
      the entity list, entities exist only together with columns, and the two
      maps are inverse bijections. */
  ghost predicate ValidState<V>(columns: map<nat, seq<V>>, entToIndex: map<Entity, nat>, indexToEnt: seq<Entity>)
  {
    && (forall ty | ty in columns :: |columns[ty]| == |indexToEnt|)
    && (columns == map[] ==> indexToEnt == [])
    && Bijection(entToIndex, indexToEnt)
  }

  /** Creating a new entity with the archetype's own types, each once, keeps
      the invariant, and every column's last index is the entity's new row. */
  lemma CreateKeepsValid<V>(columns: map<nat, seq<V>>, entToIndex: map<Entity, nat>, indexToEnt: seq<Entity>,
                            entity: Entity, comps: seq<(nat, V)>)
    requires ValidState(columns, entToIndex, indexToEnt) && entity !in entToIndex
    requires comps != [] && DistinctTypes(comps)
    requires columns == map[] || columns.Keys == TypesOf(comps)
    ensures ValidState(AppendAll(columns, comps), entToIndex[entity := |indexToEnt|], indexToEnt + [entity])
    ensures forall ty | ty in AppendAll(columns, comps) :: LastIndex(|AppendAll(columns, comps)[ty]|) == |indexToEnt|
  {
    CreatedColumnsGrow(columns, comps, |indexToEnt|);
    CreateKeepsBijection(entToIndex, indexToEnt, entity);
  }

  /** Destroying a present entity keeps the invariant. */
  lemma DestroyKeepsValid<V>(columns: map<nat, seq<V>>, entToIndex: map<Entity, nat>, indexToEnt: seq<Entity>, entity: Entity)
    requires ValidState(columns, entToIndex, indexToEnt) && entity in entToIndex
    ensures ValidState(ColumnsAfterDestroy(columns, entToIndex[entity]),
                       EntityMapAfterDestroy(entToIndex, indexToEnt, entity),
                       IndexListAfterDestroy(entToIndex, indexToEnt, entity))
  {
    DestroyKeepsBijection(entToIndex, indexToEnt, entity);
  }

  /** Destroying an entity leaves every other entity with its own values in
      every column. */
  lemma DestroyKeepsValues<V>(columns: map<nat, seq<V>>, entToIndex: map<Entity, nat>, indexToEnt: seq<Entity>, entity: Entity)
    requires ValidState(columns, entToIndex, indexToEnt) && entity in entToIndex
    ensures forall e, ty | e in EntityMapAfterDestroy(entToIndex, indexToEnt, entity) && ty in columns ::
      EntityMapAfterDestroy(entToIndex, indexToEnt, entity)[e] < |columns[ty]| - 1 &&
      ColumnsAfterDestroy(columns, entToIndex[entity])[ty][EntityMapAfterDestroy(entToIndex, indexToEnt, entity)[e]]
        == columns[ty][entToIndex[e]]
  {
    DestroyKeepsBijection(entToIndex, indexToEnt, entity);
    forall e, ty | e in EntityMapAfterDestroy(entToIndex, indexToEnt, entity) && ty in columns
      ensures EntityMapAfterDestroy(entToIndex, indexToEnt, entity)[e] < |columns[ty]| - 1
      ensures ColumnsAfterDestroy(columns, entToIndex[entity])[ty][EntityMapAfterDestroy(entToIndex, indexToEnt, entity)[e]]
        == columns[ty][entToIndex[e]]
    {
      SurvivorsKeepComponents(columns[ty], entToIndex, indexToEnt, entity, e);
    }
  }

  // ---------------------------------------------------------------------
  // The archetype

  /** `Archetype`, for component values of type `V`. `columns` maps a
      component type id (from `get_component_type_id`) to its column. */
  class Archetype<V> {
    var columns: map<nat, seq<V>>
    var entToIndex: map<Entity, nat>
    var indexToEnt: seq<Entity>

    /** Every column is as long as the entity list, the two maps are inverse
        bijections, and entities exist only together with columns. */
    ghost predicate Valid()
      reads this
    {
      ValidState(columns, entToIndex, indexToEnt)
    }

    /** The constructor only reserves capacity. */
    constructor (entityBufferSize: nat)
      ensures Valid()
      ensures columns == map[] && entToIndex == map[] && indexToEnt == []
    {
      columns := map[];
      entToIndex := map[];
      indexToEnt := [];
    }

    /** `add_to_component_storage`: creates the type's column on first use and
        appends the value; no other column changes. */
    method AddToComponentStorage(ty: nat, v: V)
      modifies this
      ensures columns == AppendTo(old(columns), ty, v)
      ensures entToIndex == old(entToIndex) && indexToEnt == old(indexToEnt)
    {
      if ty !in columns {
        columns := columns[ty := []];
      }
      columns := columns[ty := columns[ty] + [v]];
    }

    /** `create_entity`: appends each component to its column, then maps the
        entity to the last index of whichever column the map yields first (an
        `emplace`, so an entity already present keeps its old index), and
        appends the entity to the index list. The C++ asserts that some
        column exists afterwards. When the entity is new, each type is
        named once and the types are the archetype's own (or the archetype
        has none yet), the invariant is kept and the entity sits at the new
        last index. */
    method CreateEntity(entity: Entity, comps: seq<(nat, V)>)
      requires comps != [] || columns != map[]
      modifies this
      ensures columns == AppendAll(old(columns), comps)
      ensures indexToEnt == old(indexToEnt) + [entity]
      ensures entity in old(entToIndex) ==> entToIndex == old(entToIndex)
      ensures entity !in old(entToIndex) ==>
        exists ty | ty in columns :: entToIndex == old(entToIndex)[entity := LastIndex(|columns[ty]|)]
      ensures old(Valid()) && entity !in old(entToIndex) && comps != [] && DistinctTypes(comps)
              && (old(columns) == map[] || old(columns).Keys == TypesOf(comps)) ==>
        Valid() && entToIndex == old(entToIndex)[entity := |old(indexToEnt)|]
    {
      AddAllToComponentStorage(comps);
      assert columns != map[] by {
        if comps != [] {
          AppendAllAt(old(columns), comps, comps[0].0);
        }
      }
      var first :| first in columns;
      if old(Valid()) && entity !in old(entToIndex) && comps != [] && DistinctTypes(comps)
         && (old(columns) == map[] || old(columns).Keys == TypesOf(comps)) {
        CreateKeepsValid(old(columns), entToIndex, indexToEnt, entity, comps);
      }
      if entity !in entToIndex {
        entToIndex := entToIndex[entity := LastIndex(|columns[first]|)];
      }
      indexToEnt := indexToEnt + [entity];
    }

    /** The fold expression of `create_entity`: one `add_to_component_storage`
        per component, left to right. */
    method AddAllToComponentStorage(comps: seq<(nat, V)>)
      modifies this
      ensures columns == AppendAll(old(columns), comps)
      ensures entToIndex == old(entToIndex) && indexToEnt == old(indexToEnt)
    {
      var i := 0;
      while i < |comps|
        invariant 0 <= i <= |comps|
        invariant columns == AppendAll(old(columns), comps[..i])
        invariant entToIndex == old(entToIndex) && indexToEnt == old(indexToEnt)
      {
        AddToComponentStorage(comps[i].0, comps[i].1);
        assert comps[..i + 1][..i] == comps[..i];
        i := i + 1;
      }
      assert comps[..i] == comps;
    }

    /** `destroy_entity`: an unknown entity gives false and changes nothing.
        Otherwise every column swap-removes the entity's index, the former
        last entity takes over that index, and the entity is erased. */
    method DestroyEntity(entity: Entity) returns (ok: bool)
      requires Valid()
      modifies this
      ensures Valid()
      ensures ok <==> entity in old(entToIndex)
      ensures !ok ==> columns == old(columns) && entToIndex == old(entToIndex) && indexToEnt == old(indexToEnt)
      ensures ok ==> columns == ColumnsAfterDestroy(old(columns), old(entToIndex)[entity])
      ensures ok ==> entToIndex == EntityMapAfterDestroy(old(entToIndex), old(indexToEnt), entity)
      ensures ok ==> indexToEnt == IndexListAfterDestroy(old(entToIndex), old(indexToEnt), entity)
    {
      if entity !in entToIndex {
        return false;
      }
      var first :| first in columns;
      var last := |columns[first]| - 1;
      var entityAtBack := indexToEnt[last];
      var index := entToIndex[entity];
      ghost var c0, e0, i0 := columns, entToIndex, indexToEnt;
      assert last == |i0| - 1 && entityAtBack == i0[|i0| - 1];
      var ents, inds := entToIndex, indexToEnt;
      if entity != entityAtBack {
        ents := ents[entityAtBack := index];
        inds := inds[index := entityAtBack];
      }
      ents := ents - {entity};
      inds := inds[..last];
      assert ents == EntityMapAfterDestroy(e0, i0, entity);
      assert inds == IndexListAfterDestroy(e0, i0, entity);
      DestroyKeepsValid(c0, e0, i0, entity);
      DestroyInColumns(index);
      entToIndex, indexToEnt := ents, inds;
      assert ValidState(columns, entToIndex, indexToEnt);
      ok := true;
    }

    /** The loop over `component_storages` calling `destroy(index)` on each. */
    method DestroyInColumns(index: nat)
      requires forall ty | ty in columns :: index < |columns[ty]|
      modifies this
      ensures columns == ColumnsAfterDestroy(old(columns), index)
      ensures entToIndex == old(entToIndex) && indexToEnt == old(indexToEnt)
    {
      var remaining := columns.Keys;
      while remaining != {}
        invariant remaining <= columns.Keys && columns.Keys == old(columns).Keys
        invariant forall ty | ty in columns && ty !in remaining :: columns[ty] == SwapRemove(old(columns)[ty], index)
        invariant forall ty | ty in remaining :: columns[ty] == old(columns)[ty]
        invariant entToIndex == old(entToIndex) && indexToEnt == old(indexToEnt)
        decreases remaining
      {
        var ty :| ty in remaining;
        columns := columns[ty := SwapRemove(columns[ty], index)];
        remaining := remaining - {ty};
      }
    }

    /** `get_components<T>`: the type's column; the C++ asserts it exists. */
    function GetComponents(ty: nat): (r: seq<V>)
      reads this
      requires ty in columns
      ensures Valid() ==> |r| == |entToIndex|
    {
      columns[ty]
    }

    /** `get_entity_tuples<Ts...>`: for each index `0 .. size - 1` of the
        entity map, the elements at that index of the requested columns. */
    function EntityTuples(tys: seq<nat>): (r: seq<seq<V>>)
      reads this
      requires Valid()
      requires forall j | 0 <= j < |tys| :: tys[j] in columns
      ensures |r| == |entToIndex|
      ensures forall e, j | e in entToIndex && 0 <= j < |tys| ::
        entToIndex[e] < |r| && |r[entToIndex[e]]| == |tys| && r[entToIndex[e]][j] == columns[tys[j]][entToIndex[e]]
    {
      var cols := columns;
      var n := |entToIndex|;
      seq(n, k requires 0 <= k < n =>
        seq(|tys|, j requires 0 <= j < |tys| => cols[tys[j]][k]))
    }
  }

  /** The columns a fresh entity's creation produces are one longer, and
      exactly the types it names. */
  lemma CreatedColumnsGrow<V>(columns: map<nat, seq<V>>, comps: seq<(nat, V)>, n: nat)
    requires comps != [] && DistinctTypes(comps)
    requires forall ty | ty in columns :: |columns[ty]| == n
    requires columns == map[] ==> n == 0
    requires columns == map[] || columns.Keys == TypesOf(comps)
    ensures AppendAll(columns, comps).Keys == TypesOf(comps)
    ensures forall ty | ty in AppendAll(columns, comps) :: |AppendAll(columns, comps)[ty]| == n + 1
  {
    var after := AppendAll(columns, comps);
    forall ty | ty in after
      ensures ty in TypesOf(comps) && |after[ty]| == n + 1
    {
      AppendAllAt(columns, comps, ty);
      var i :| 0 <= i < |comps| && comps[i].0 == ty;
      ValuesOfDistinct(comps, i);
    }
    forall ty | ty in TypesOf(comps)
      ensures ty in after
    {
      AppendAllAt(columns, comps, ty);
    }
  }
}
