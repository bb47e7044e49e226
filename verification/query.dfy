/** The cached query: it keeps the drained pipeline of its archetypes and
    rebuilds it only when it has none or the caller's version token changed. */
module Queries {
  import opened ArchetypeKeys
  import opened QueryPipeline

  datatype Option<T> = None | Some(value: T)

  /** `Query<ComponentTypes...>`. `archetypes` are the archetypes the query was
      pointed at, in order; the version token is a `std::uint64_t` in the
      C++ and is only compared for equality here. */
  class Query {
    var cache: Option<seq<TupleRef>>
    var lastVersionCumsum: nat
    var archetypes: seq<ArchetypeRef>

    /** A new query has no cache, token 0 and no archetypes. */
    constructor ()
      ensures cache == None && lastVersionCumsum == 0 && archetypes == []
    {
      cache := None;
      lastVersionCumsum := 0;
      archetypes := [];
    }

    /** `is_cache_dirty`: nothing cached yet, or a different token. */
    predicate IsCacheDirty(versionCumsum: nat)
      reads this
    {
      cache.None? || lastVersionCumsum != versionCumsum
    }

    /** `get`: on a dirty cache records the token and caches the joined entity
        tuples of the archetypes; otherwise leaves everything as it was. Either
        way the result is the cache, which is then clean for this token. */
    method Get(versionCumsum: nat) returns (r: seq<TupleRef>)
      modifies this
      ensures old(IsCacheDirty(versionCumsum)) ==> r == Join(archetypes)
      ensures !old(IsCacheDirty(versionCumsum)) ==> r == old(cache).value && lastVersionCumsum == old(lastVersionCumsum)
      ensures cache == Some(r) && lastVersionCumsum == versionCumsum
      ensures archetypes == old(archetypes)
      ensures !IsCacheDirty(versionCumsum)
    {
      if IsCacheDirty(versionCumsum) {
        lastVersionCumsum := versionCumsum;
        cache := Some(Join(archetypes));
      }
      r := cache.value;
    }

    /** `set_archetypes`: replaces the archetype list only; the cache and the
        token stay, so a later `get` with the old token returns the old cache. */
    method SetArchetypes(newArchetypes: seq<ArchetypeRef>)
      modifies this
      ensures archetypes == newArchetypes
      ensures cache == old(cache) && lastVersionCumsum == old(lastVersionCumsum)
    {
      archetypes := newArchetypes;
    }
  }

  /** A fresh query's first `get` builds the pipeline, whatever the token. */
  method FirstGetBuilds(archetypes: seq<ArchetypeRef>, versionCumsum: nat) returns (r: seq<TupleRef>)
    ensures r == Join(archetypes)
  {
    var q := new Query();
    q.SetArchetypes(archetypes);
    r := q.Get(versionCumsum);
  }

  /** Two `get` calls with the same token return the same tuples, and the
      second does not rebuild. */
  method GetTwice(q: Query, versionCumsum: nat) returns (first: seq<TupleRef>, second: seq<TupleRef>)
    modifies q
    ensures first == second
    ensures q.cache == Some(first)
  {
    first := q.Get(versionCumsum);
    second := q.Get(versionCumsum);
  }

  /** Pointing a query at the archetypes the map filter keeps, its rebuilt
      cache is the two-argument `build_pipeline` of that map and query key. */
  method GetFiltered(q: Query, m: seq<Entry<ArchetypeKey>>, query: ArchetypeKey, versionCumsum: nat) returns (r: seq<TupleRef>)
    requires q.IsCacheDirty(versionCumsum)
    modifies q
    ensures r == BuildPipeline(m, query)
  {
    q.SetArchetypes(Owned(FilterArchetypesToSignature(m, query)));
    r := q.Get(versionCumsum);
  }

  /** Changing the archetypes without changing the token leaves the old
      result in place: `set_archetypes` does not invalidate the cache. */
  method StaleAfterSetArchetypes(q: Query, other: seq<ArchetypeRef>, versionCumsum: nat) returns (before: seq<TupleRef>, after: seq<TupleRef>)
    modifies q
    ensures before == after
    ensures q.archetypes == other
  {
    before := q.Get(versionCumsum);
    q.SetArchetypes(other);
    after := q.Get(versionCumsum);
  }
}
