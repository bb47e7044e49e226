/** The query pipeline: keep the archetypes whose key holds the query's
    component ids, then concatenate their entity tuples, in the archetype
    map's iteration order. Archetypes are referred to by identity and entity
    count; a tuple is a reference to one row of one archetype. */
module QueryPipeline {
  import opened Types
  import opened ArchetypeKeys
  import opened ComponentAccesses

  /** An archetype as the pipeline sees it: which one, and how many entities it
      has (the size of its entity map). */
  datatype ArchetypeRef = ArchetypeRef(id: nat, size: nat)

  /** One element of `get_entity_tuples`: the references to the components of
      row `row` of archetype `archetype`. */
  datatype TupleRef = TupleRef(archetype: nat, row: nat)

  /** One entry of an archetype map, with its key of type `K`. */
  datatype Entry<K> = Entry(key: K, archetype: ArchetypeRef)

  /** `get_entity_tuples`, as references: one tuple per row, in index order.
      `Archetypes.Archetype.EntityTuples` gives the values those references
      read. */
  function RowRefs(a: ArchetypeRef): (r: seq<TupleRef>)
    ensures |r| == a.size
    ensures forall t :: t in r <==> t.archetype == a.id && t.row < a.size
  {
    var r := seq(a.size, row requires 0 <= row < a.size => TupleRef(a.id, row));
    assert forall t: TupleRef | t.archetype == a.id && t.row < a.size :: t in r by {
      forall t: TupleRef | t.archetype == a.id && t.row < a.size
        ensures t in r
      {
        assert r[t.row] == t;
      }
    }
    r
  }

  /** The archetypes the entries own, in order (the `transform` step). */
  function Owned<K>(es: seq<Entry<K>>): (r: seq<ArchetypeRef>)
    ensures |r| == |es|
    ensures forall i | 0 <= i < |es| :: r[i] == es[i].archetype
  {
    if es == [] then [] else Owned(es[..|es| - 1]) + [es[|es| - 1].archetype]
  }

  /** `views::join` over the archetypes' entity tuples. */
  function Join(archs: seq<ArchetypeRef>): (r: seq<TupleRef>)
    ensures |r| == TotalSize(archs)
  {
    if archs == [] then [] else Join(archs[..|archs| - 1]) + RowRefs(archs[|archs| - 1])
  }

  /** The number of entities in a list of archetypes. */
  function TotalSize(archs: seq<ArchetypeRef>): nat
  {
    if archs == [] then 0 else TotalSize(archs[..|archs| - 1]) + archs[|archs| - 1].size
  }

  /** A tuple is in the join exactly when it names a row of one of the archetypes. */
  lemma {:induction false} JoinMembership(archs: seq<ArchetypeRef>, t: TupleRef)
    ensures t in Join(archs) <==> exists a | a in archs :: t.archetype == a.id && t.row < a.size
  {
    if archs != [] {
      var front := archs[..|archs| - 1];
      var last := archs[|archs| - 1];
      JoinMembership(front, t);
      assert archs == front + [last];
    }
  }

  /** Joining two lists of archetypes one after the other joins their tuples in
      that order. */
  lemma {:induction false} JoinAppend(archs: seq<ArchetypeRef>, more: seq<ArchetypeRef>)
    ensures Join(archs + more) == Join(archs) + Join(more)
  {
    if more == [] {
      assert archs + more == archs;
    } else {
      var front := more[..|more| - 1];
      var last := more[|more| - 1];
      JoinAppend(archs, front);
      assert (archs + more)[..|archs + more| - 1] == archs + front;
      assert (archs + more)[|archs + more| - 1] == last;
      calc {
        Join(archs + more);
        Join(archs + front) + RowRefs(last);
        (Join(archs) + Join(front)) + RowRefs(last);
        Join(archs) + (Join(front) + RowRefs(last));
      }
    }
  }

  /** The query key's ids are all in the archetype's key (`is_subset_of`). */
  predicate Matches(query: ArchetypeKey, e: Entry<ArchetypeKey>)
  {
    Ids(query) <= Ids(e.key)
  }

  /** `filter_archetypes_to_signature`: the map entries, in order, whose key
      contains the query key. */
  function FilterArchetypesToSignature(m: seq<Entry<ArchetypeKey>>, query: ArchetypeKey): (r: seq<Entry<ArchetypeKey>>)
    ensures |r| <= |m|
  {
    if m == [] then []
    else
      var last := m[|m| - 1];
      FilterArchetypesToSignature(m[..|m| - 1], query) + (if Matches(query, last) then [last] else [])
  }

  /** An archetype is kept exactly when the query key is a subset of its key. */
  lemma {:induction false} FilterMembership(m: seq<Entry<ArchetypeKey>>, query: ArchetypeKey, e: Entry<ArchetypeKey>)
    ensures e in FilterArchetypesToSignature(m, query) <==> e in m && Ids(query) <= Ids(e.key)
  {
    if m != [] {
      FilterMembership(m[..|m| - 1], query, e);
      assert m == m[..|m| - 1] + [m[|m| - 1]];
    }
  }

  /** `build_pipeline`: the joined entity tuples of the kept archetypes. */
  function BuildPipeline(m: seq<Entry<ArchetypeKey>>, query: ArchetypeKey): (r: seq<TupleRef>)
    ensures |r| == TotalSize(Owned(FilterArchetypesToSignature(m, query)))
  {
    Join(Owned(FilterArchetypesToSignature(m, query)))
  }

  /** The filter keeps the map's order: filtering two parts of the map one
      after the other is filtering them separately. */
  lemma {:induction false} FilterAppend(m: seq<Entry<ArchetypeKey>>, n: seq<Entry<ArchetypeKey>>, query: ArchetypeKey)
    ensures FilterArchetypesToSignature(m + n, query) == FilterArchetypesToSignature(m, query) + FilterArchetypesToSignature(n, query)
  {
    if n == [] {
      assert m + n == m;
    } else {
      var front := n[..|n| - 1];
      var last := n[|n| - 1];
      var tail := if Matches(query, last) then [last] else [];
      FilterAppend(m, front, query);
      assert (m + n)[..|m + n| - 1] == m + front;
      assert (m + n)[|m + n| - 1] == last;
      calc {
        FilterArchetypesToSignature(m + n, query);
        FilterArchetypesToSignature(m + front, query) + tail;
        (FilterArchetypesToSignature(m, query) + FilterArchetypesToSignature(front, query)) + tail;
        FilterArchetypesToSignature(m, query) + (FilterArchetypesToSignature(front, query) + tail);
      }
    }
  }

  /** Owning distributes over concatenation. */
  lemma OwnedAppend<K>(m: seq<Entry<K>>, n: seq<Entry<K>>)
    ensures Owned(m + n) == Owned(m) + Owned(n)
  {
  }

  /** The pipeline's output is each kept archetype's tuples, in map order. */
  lemma PipelineAppend(m: seq<Entry<ArchetypeKey>>, n: seq<Entry<ArchetypeKey>>, query: ArchetypeKey)
    ensures BuildPipeline(m + n, query) == BuildPipeline(m, query) + BuildPipeline(n, query)
  {
    FilterAppend(m, n, query);
    OwnedAppend(FilterArchetypesToSignature(m, query), FilterArchetypesToSignature(n, query));
    JoinAppend(Owned(FilterArchetypesToSignature(m, query)), Owned(FilterArchetypesToSignature(n, query)));
  }

  /** A one-entry map yields that archetype's tuples if its key matches and
      nothing otherwise: rejected archetypes contribute nothing. */
  lemma PipelineOfOne(e: Entry<ArchetypeKey>, query: ArchetypeKey)
    ensures BuildPipeline([e], query) == if Ids(query) <= Ids(e.key) then RowRefs(e.archetype) else []
  {
    assert [e][..0] == [];
    if Ids(query) <= Ids(e.key) {
      assert FilterArchetypesToSignature([e], query) == [e];
      assert Owned([e]) == [e.archetype];
      assert Join([e.archetype]) == Join([]) + RowRefs(e.archetype);
    } else {
      assert FilterArchetypesToSignature([e], query) == [];
    }
  }

  /** A tuple is in the output exactly when it names a row of an archetype
      whose key contains the query key. */
  lemma PipelineMembership(m: seq<Entry<ArchetypeKey>>, query: ArchetypeKey, t: TupleRef)
    ensures t in BuildPipeline(m, query) <==>
      exists e | e in m :: Ids(query) <= Ids(e.key) && t.archetype == e.archetype.id && t.row < e.archetype.size
  {
    var kept := FilterArchetypesToSignature(m, query);
    JoinMembership(Owned(kept), t);
    if t in BuildPipeline(m, query) {
      var a :| a in Owned(kept) && t.archetype == a.id && t.row < a.size;
      var i :| 0 <= i < |Owned(kept)| && Owned(kept)[i] == a;
      FilterMembership(m, query, kept[i]);
    }
    if exists e | e in m :: Ids(query) <= Ids(e.key) && t.archetype == e.archetype.id && t.row < e.archetype.size {
      var e :| e in m && Ids(query) <= Ids(e.key) && t.archetype == e.archetype.id && t.row < e.archetype.size;
      FilterMembership(m, query, e);
      var i :| 0 <= i < |kept| && kept[i] == e;
      assert Owned(kept)[i] == e.archetype;
    }
  }

  /** A query key with no ids keeps every archetype. */
  lemma {:induction false} EmptyQueryKeepsAll(m: seq<Entry<ArchetypeKey>>, query: ArchetypeKey)
    requires Ids(query) == {}
    ensures FilterArchetypesToSignature(m, query) == m
    ensures BuildPipeline(m, query) == Join(Owned(m))
  {
    if m != [] {
      EmptyQueryKeepsAll(m[..|m| - 1], query);
      assert m == m[..|m| - 1] + [m[|m| - 1]];
    }
  }

  /** The query key comes from `component_access_to_signature`: an access
      list none of whose types is registered yields a key with no ids, which
      matches every archetype. */
  lemma UnregisteredQueryMatchesAll(ids: map<TypeId, nat>, accesses: seq<ComponentAccess>, query: ArchetypeKey, m: seq<Entry<ArchetypeKey>>)
    requires Ids(query) == RegisteredIds(ids, accesses)
    requires forall i | 0 <= i < |accesses| :: accesses[i].ty !in ids
    ensures BuildPipeline(m, query) == Join(Owned(m))
  {
    assert RegisteredIds(ids, accesses) == {};
    EmptyQueryKeepsAll(m, query);
  }

  /** A query with more ids keeps fewer archetypes. */
  lemma FilterAntitone(m: seq<Entry<ArchetypeKey>>, q1: ArchetypeKey, q2: ArchetypeKey)
    requires Ids(q1) <= Ids(q2)
    ensures forall e | e in FilterArchetypesToSignature(m, q2) :: e in FilterArchetypesToSignature(m, q1)
  {
    forall e | e in FilterArchetypesToSignature(m, q2)
      ensures e in FilterArchetypesToSignature(m, q1)
    {
      FilterMembership(m, q2, e);
      FilterMembership(m, q1, e);
    }
  }
}
