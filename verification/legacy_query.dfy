/** The older query: its context refers to the archetype map and holds the
    query's component types as a set; `get` keeps the archetypes whose component type
    list contains every type of the set, and joins their entity tuples. */
module LegacyQueries {
  import opened Types
  import opened QueryPipeline

  /** The query context: the map (keyed by component type lists) and the
      signature set. The C++ context holds a reference to the map; here
      `archetypes` is the map's entries, with each archetype's entity count,
      taken by value when the query is made. */
  datatype LegacyQuery = LegacyQuery(archetypes: seq<Entry<seq<TypeId>>>, signature: set<TypeId>)

  /** The constructor: the component type list becomes a set. */
  function MakeLegacyQuery(archetypes: seq<Entry<seq<TypeId>>>, componentTypes: seq<TypeId>): (r: LegacyQuery)
    ensures r.archetypes == archetypes
    ensures forall t :: t in r.signature <==> t in componentTypes
  {
    LegacyQuery(archetypes, set t | t in componentTypes)
  }

  /** Only which types are listed matters: two lists naming the same types,
      in any order and with any repeats, give the same query. */
  lemma SameTypesSameQuery(archetypes: seq<Entry<seq<TypeId>>>, xs: seq<TypeId>, ys: seq<TypeId>)
    requires forall t :: t in xs <==> t in ys
    ensures MakeLegacyQuery(archetypes, xs) == MakeLegacyQuery(archetypes, ys)
  {
    assert MakeLegacyQuery(archetypes, xs).signature == MakeLegacyQuery(archetypes, ys).signature;
  }

  /** A repeated type in the list does not change the query. */
  lemma RepeatedTypesIgnored(archetypes: seq<Entry<seq<TypeId>>>, componentTypes: seq<TypeId>, t: TypeId)
    requires t in componentTypes
    ensures MakeLegacyQuery(archetypes, componentTypes + [t]) == MakeLegacyQuery(archetypes, componentTypes)
  {
    assert (set x | x in componentTypes + [t]) == (set x | x in componentTypes);
  }

  /** `all_of` over the signature of `find` in the archetype's type list. */
  predicate ContainsAll(signature: set<TypeId>, types: seq<TypeId>)
  {
    forall t | t in signature :: t in types
  }

  /** The filter step of `get`. */
  function KeepContaining(m: seq<Entry<seq<TypeId>>>, signature: set<TypeId>): (r: seq<Entry<seq<TypeId>>>)
    ensures |r| <= |m|
  {
    if m == [] then []
    else
      var last := m[|m| - 1];
      KeepContaining(m[..|m| - 1], signature) + (if ContainsAll(signature, last.key) then [last] else [])
  }

  /** `get`: the joined entity tuples of the kept archetypes, in map order. */
  function Get(q: LegacyQuery): (r: seq<TupleRef>)
    ensures |r| == TotalSize(Owned(KeepContaining(q.archetypes, q.signature)))
  {
    Join(Owned(KeepContaining(q.archetypes, q.signature)))
  }

  /** An archetype is kept exactly when its type list contains every type of
      the signature. */
  lemma {:induction false} KeepContainingMembership(m: seq<Entry<seq<TypeId>>>, signature: set<TypeId>, e: Entry<seq<TypeId>>)
    ensures e in KeepContaining(m, signature) <==> e in m && (forall t | t in signature :: t in e.key)
  {
    if m != [] {
      KeepContainingMembership(m[..|m| - 1], signature, e);
      assert m == m[..|m| - 1] + [m[|m| - 1]];
    }
  }

  /** An empty signature keeps every archetype. */
  lemma {:induction false} EmptySignatureKeepsAll(m: seq<Entry<seq<TypeId>>>)
    ensures KeepContaining(m, {}) == m
    ensures Get(LegacyQuery(m, {})) == Join(Owned(m))
  {
    if m != [] {
      EmptySignatureKeepsAll(m[..|m| - 1]);
      assert m == m[..|m| - 1] + [m[|m| - 1]];
    }
  }

  /** A tuple is in the result exactly when it names a row of an archetype
      whose type list contains the whole signature. */
  lemma GetMembership(q: LegacyQuery, t: TupleRef)
    ensures t in Get(q) <==>
      exists e | e in q.archetypes :: (forall s | s in q.signature :: s in e.key) && t.archetype == e.archetype.id && t.row < e.archetype.size
  {
    var kept := KeepContaining(q.archetypes, q.signature);
    JoinMembership(Owned(kept), t);
    if t in Get(q) {
      var a :| a in Owned(kept) && t.archetype == a.id && t.row < a.size;
      var i :| 0 <= i < |Owned(kept)| && Owned(kept)[i] == a;
      KeepContainingMembership(q.archetypes, q.signature, kept[i]);
    }
    if exists e | e in q.archetypes :: (forall s | s in q.signature :: s in e.key) && t.archetype == e.archetype.id && t.row < e.archetype.size {
      var e :| e in q.archetypes && (forall s | s in q.signature :: s in e.key) && t.archetype == e.archetype.id && t.row < e.archetype.size;
      KeepContainingMembership(q.archetypes, q.signature, e);
      var i :| 0 <= i < |kept| && kept[i] == e;
      assert Owned(kept)[i] == e.archetype;
    }
  }

  /** The filter keeps the map's order: two parts of the map filtered one
      after the other. */
  lemma {:induction false} KeepContainingAppend(m: seq<Entry<seq<TypeId>>>, n: seq<Entry<seq<TypeId>>>, signature: set<TypeId>)
    ensures KeepContaining(m + n, signature) == KeepContaining(m, signature) + KeepContaining(n, signature)
  {
    if n == [] {
      assert m + n == m;
    } else {
      var front := n[..|n| - 1];
      var last := n[|n| - 1];
      var tail := if ContainsAll(signature, last.key) then [last] else [];
      KeepContainingAppend(m, front, signature);
      assert (m + n)[..|m + n| - 1] == m + front;
      assert (m + n)[|m + n| - 1] == last;
      calc {
        KeepContaining(m + n, signature);
        KeepContaining(m + front, signature) + tail;
        (KeepContaining(m, signature) + KeepContaining(front, signature)) + tail;
        KeepContaining(m, signature) + (KeepContaining(front, signature) + tail);
      }
    }
  }

  /** `get` walks the map in order: the tuples of two parts of the map come
      out one part after the other. */
  lemma GetAppend(m: seq<Entry<seq<TypeId>>>, n: seq<Entry<seq<TypeId>>>, signature: set<TypeId>)
    ensures Get(LegacyQuery(m + n, signature)) == Get(LegacyQuery(m, signature)) + Get(LegacyQuery(n, signature))
  {
    KeepContainingAppend(m, n, signature);
    OwnedAppend(KeepContaining(m, signature), KeepContaining(n, signature));
    JoinAppend(Owned(KeepContaining(m, signature)), Owned(KeepContaining(n, signature)));
  }
}
