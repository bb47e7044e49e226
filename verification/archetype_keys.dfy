/** The archetype key: a fixed set of component ids held as four 64-bit words
    (ids 0 .. 255), with the word-by-word scans the ECS uses to compare keys,
    and the first-use counter that hands out component type ids. */
module ArchetypeKeys {
  import opened BitWords
  import opened Types

  /** Number of 64-bit words in a key. */
  const STORAGE_SIZE: nat := 4

  /** Number of component ids a key can hold: `STORAGE_SIZE * 64`. */
  const CAPACITY: nat := 256

  type Storage = s: seq<Word> | |s| == STORAGE_SIZE witness [Zero(), Zero(), Zero(), Zero()]

  datatype ArchetypeKey = ArchetypeKey(storage: Storage)

  /** The default-constructed key: every word zero. */
  const EMPTY_KEY: ArchetypeKey := ArchetypeKey([Zero(), Zero(), Zero(), Zero()])

  /** `component_id / 64` */
  function Bucket(id: nat): nat
  {
    id / 64
  }

  /** `component_id % 64` */
  function Bit(id: nat): nat
  {
    id % 64
  }

  /** `has_component`: the id's bucket exists and `storage[bucket] & (1ULL << bit)`
      is not zero. */
  predicate HasComponent(k: ArchetypeKey, id: nat)
    ensures HasComponent(k, id) <==> id < CAPACITY && k.storage[Bucket(id)][Bit(id)]
  {
    Bucket(id) < STORAGE_SIZE &&
      (MaskTest(k.storage[Bucket(id)], Bit(id));
       And(k.storage[Bucket(id)], Mask(Bit(id))) != Zero())
  }

  /** The set of ids a key holds. */
  function Ids(k: ArchetypeKey): set<nat>
  {
    set id: nat | id < CAPACITY && HasComponent(k, id)
  }

  /** `add_component`, on a key value: the key with `storage[bucket] |= 1ULL << bit`
      when the bucket exists. */
  function AddComponent(k: ArchetypeKey, id: nat): (r: ArchetypeKey)
    ensures forall i, c | 0 <= i < STORAGE_SIZE && 0 <= c < WORD_BITS ::
      r.storage[i][c] <==> k.storage[i][c] || (id < CAPACITY && i == Bucket(id) && c == Bit(id))
    ensures id >= CAPACITY ==> r == k
  {
    if Bucket(id) < STORAGE_SIZE then
      ArchetypeKey(k.storage[Bucket(id) := Or(k.storage[Bucket(id)], Mask(Bit(id)))])
    else
      k
  }

  /** Repeated `add_component`, left to right. */
  function AddAll(k: ArchetypeKey, ids: seq<nat>): ArchetypeKey
  {
    if ids == [] then k else AddComponent(AddAll(k, ids[..|ids| - 1]), ids[|ids| - 1])
  }

  // ---------------------------------------------------------------------
  // Ids and bit positions

  /** Membership of an id in `Ids` is one bit of one word. */
  lemma IdBit(k: ArchetypeKey, id: nat)
    requires id < CAPACITY
    ensures Bucket(id) < STORAGE_SIZE
    ensures id in Ids(k) <==> k.storage[Bucket(id)][Bit(id)]
  {
    MaskTest(k.storage[Bucket(id)], Bit(id));
  }

  /** Bit `c` of word `i` is set exactly when id `64 * i + c` is in the key. */
  lemma SlotBit(k: ArchetypeKey, i: nat, c: nat)
    requires i < STORAGE_SIZE && c < WORD_BITS
    ensures 64 * i + c in Ids(k) <==> k.storage[i][c]
  {
    var id := 64 * i + c;
    assert Bucket(id) == i && Bit(id) == c;
    IdBit(k, id);
  }

  // ---------------------------------------------------------------------
  // has_component / add_component

  /** `has_component` is false for every id at or above 256, and below 256
      it is membership in `Ids`. */
  lemma HasComponentBound(k: ArchetypeKey, id: nat)
    ensures HasComponent(k, id) <==> id < CAPACITY && id in Ids(k)
  {
  }

  /** After `add_component(id)` the id is present when it is below 256, and
      every other id is present exactly when it was before. */
  lemma AddComponentHas(k: ArchetypeKey, id: nat, j: nat)
    ensures HasComponent(AddComponent(k, id), j) <==> (j == id && id < CAPACITY) || HasComponent(k, j)
  {
    var r := AddComponent(k, id);
    if j < CAPACITY && id < CAPACITY {
      IdBit(k, j);
      IdBit(r, j);
      if Bucket(j) == Bucket(id) {
        assert Bit(j) == Bit(id) <==> j == id;
      }
    }
  }

  /** `add_component(id)` adds exactly `id` to the set, or nothing when
      `id >= 256`, in which case the key is unchanged. */
  lemma AddComponentIds(k: ArchetypeKey, id: nat)
    ensures Ids(AddComponent(k, id)) == Ids(k) + (if id < CAPACITY then {id} else {})
    ensures id >= CAPACITY ==> AddComponent(k, id) == k
  {
    forall j: nat
      ensures j in Ids(AddComponent(k, id)) <==> j in Ids(k) + (if id < CAPACITY then {id} else {})
    {
      AddComponentHas(k, id, j);
    }
  }

  /** Folding `add_component` over a list adds exactly the list's ids below 256. */
  lemma {:induction false} AddAllIds(k: ArchetypeKey, ids: seq<nat>)
    ensures Ids(AddAll(k, ids)) == Ids(k) + (set id | id in ids && id < CAPACITY)
  {
    if ids != [] {
      var front := ids[..|ids| - 1];
      AddAllIds(k, front);
      AddComponentIds(AddAll(k, front), ids[|ids| - 1]);
      assert ids == front + [ids[|ids| - 1]];
    }
  }

  // ---------------------------------------------------------------------
  // Equality: a key is determined by its id set

  /** `operator==` compares the four words; two keys are equal exactly when
      they hold the same ids. */
  lemma KeyEquality(a: ArchetypeKey, b: ArchetypeKey)
    ensures a == b <==> Ids(a) == Ids(b)
  {
    if Ids(a) == Ids(b) {
      forall i | 0 <= i < STORAGE_SIZE
        ensures a.storage[i] == b.storage[i]
      {
        forall c | 0 <= c < WORD_BITS
          ensures a.storage[i][c] == b.storage[i][c]
        {
          SlotBit(a, i, c);
          SlotBit(b, i, c);
        }
      }
      assert a.storage == b.storage;
    }
  }

  /** Adding is idempotent and order-independent: folding the same ids, in
      any order and with any repetition, yields equal keys. */
  lemma AddAllOrderIndependent(k: ArchetypeKey, xs: seq<nat>, ys: seq<nat>)
    requires forall id :: id in xs <==> id in ys
    ensures AddAll(k, xs) == AddAll(k, ys)
  {
    AddAllIds(k, xs);
    AddAllIds(k, ys);
    assert (set id | id in xs && id < CAPACITY) == (set id | id in ys && id < CAPACITY);
    KeyEquality(AddAll(k, xs), AddAll(k, ys));
  }

  /** Adding an id twice is adding it once. */
  lemma AddComponentIdempotent(k: ArchetypeKey, id: nat)
    ensures AddComponent(AddComponent(k, id), id) == AddComponent(k, id)
  {
    AddComponentIds(k, id);
    AddComponentIds(AddComponent(k, id), id);
    KeyEquality(AddComponent(AddComponent(k, id), id), AddComponent(k, id));
  }

  /** Adding two ids in either order gives the same key. */
  lemma AddComponentCommutes(k: ArchetypeKey, x: nat, y: nat)
    ensures AddComponent(AddComponent(k, x), y) == AddComponent(AddComponent(k, y), x)
  {
    AddComponentIds(k, x);
    AddComponentIds(AddComponent(k, x), y);
    AddComponentIds(k, y);
    AddComponentIds(AddComponent(k, y), x);
    KeyEquality(AddComponent(AddComponent(k, x), y), AddComponent(AddComponent(k, y), x));
  }

  // ---------------------------------------------------------------------
  // is_subset_of / intersects_with / empty

  /** Every word of `a` is covered by the same word of `b` exactly when
      every id of `a` is an id of `b`. */
  lemma SubsetByWords(a: ArchetypeKey, b: ArchetypeKey)
    ensures (forall i | 0 <= i < STORAGE_SIZE :: And(a.storage[i], b.storage[i]) == a.storage[i])
        <==> Ids(a) <= Ids(b)
  {
    if Ids(a) <= Ids(b) {
      forall i | 0 <= i < STORAGE_SIZE
        ensures And(a.storage[i], b.storage[i]) == a.storage[i]
      {
        forall c | 0 <= c < WORD_BITS && a.storage[i][c]
          ensures b.storage[i][c]
        {
          SlotBit(a, i, c);
          SlotBit(b, i, c);
        }
        SubsetWord(a.storage[i], b.storage[i]);
      }
    } else {
      var id :| id in Ids(a) && id !in Ids(b);
      IdBit(a, id);
      IdBit(b, id);
      SubsetWord(a.storage[Bucket(id)], b.storage[Bucket(id)]);
    }
  }

  /** `is_subset_of`: scans the words and stops at the first word of `a`
      that has a bit `b` lacks. */
  method IsSubsetOf(a: ArchetypeKey, b: ArchetypeKey) returns (r: bool)
    ensures r <==> Ids(a) <= Ids(b)
  {
    SubsetByWords(a, b);
    var i := 0;
    while i < STORAGE_SIZE
      invariant 0 <= i <= STORAGE_SIZE
      invariant forall j | 0 <= j < i :: And(a.storage[j], b.storage[j]) == a.storage[j]
    {
      if And(a.storage[i], b.storage[i]) != a.storage[i] {
        return false;
      }
      i := i + 1;
    }
    return true;
  }

  /** Some word pair shares a bit exactly when some id is in both keys. */
  lemma IntersectByWords(a: ArchetypeKey, b: ArchetypeKey)
    ensures (exists i | 0 <= i < STORAGE_SIZE :: And(a.storage[i], b.storage[i]) != Zero())
        <==> Ids(a) * Ids(b) != {}
  {
    if Ids(a) * Ids(b) != {} {
      var id :| id in Ids(a) * Ids(b);
      IdBit(a, id);
      IdBit(b, id);
      IntersectWord(a.storage[Bucket(id)], b.storage[Bucket(id)]);
    } else {
      forall i | 0 <= i < STORAGE_SIZE
        ensures And(a.storage[i], b.storage[i]) == Zero()
      {
        forall c | 0 <= c < WORD_BITS
          ensures !(a.storage[i][c] && b.storage[i][c])
        {
          SlotBit(a, i, c);
          SlotBit(b, i, c);
          assert 64 * i + c !in Ids(a) * Ids(b);
        }
        IntersectWord(a.storage[i], b.storage[i]);
      }
    }
  }

  /** `intersects_with`: scans the words and stops at the first pair that
      shares a bit. */
  method IntersectsWith(a: ArchetypeKey, b: ArchetypeKey) returns (r: bool)
    ensures r <==> Ids(a) * Ids(b) != {}
  {
    IntersectByWords(a, b);
    var i := 0;
    while i < STORAGE_SIZE
      invariant 0 <= i <= STORAGE_SIZE
      invariant forall j | 0 <= j < i :: And(a.storage[j], b.storage[j]) == Zero()
    {
      if And(a.storage[i], b.storage[i]) != Zero() {
        return true;
      }
      i := i + 1;
    }
    return false;
  }

  /** `empty`: every word is zero. */
  predicate IsEmpty(k: ArchetypeKey)
    ensures IsEmpty(k) <==> forall i, c | 0 <= i < STORAGE_SIZE && 0 <= c < WORD_BITS :: !k.storage[i][c]
  {
    ZeroWord(k.storage[0]); ZeroWord(k.storage[1]); ZeroWord(k.storage[2]); ZeroWord(k.storage[3]);
    forall i | 0 <= i < STORAGE_SIZE :: k.storage[i] == Zero()
  }

  /** `empty()` holds exactly when the key holds no id. */
  lemma EmptyByWords(k: ArchetypeKey)
    ensures IsEmpty(k) <==> Ids(k) == {}
  {
    if Ids(k) == {} {
      forall i | 0 <= i < STORAGE_SIZE
        ensures k.storage[i] == Zero()
      {
        forall c | 0 <= c < WORD_BITS
          ensures !k.storage[i][c]
        {
          SlotBit(k, i, c);
        }
        ZeroWord(k.storage[i]);
      }
    } else {
      var id :| id in Ids(k);
      IdBit(k, id);
      ZeroWord(k.storage[Bucket(id)]);
    }
  }

  /** Subset is reflexive, and the empty key is a subset of every key. */
  lemma SubsetReflexiveAndEmpty(a: ArchetypeKey, b: ArchetypeKey)
    ensures Ids(a) <= Ids(a)
    ensures Ids(EMPTY_KEY) <= Ids(b)
  {
    EmptyByWords(EMPTY_KEY);
  }

  // ---------------------------------------------------------------------
  // count_components

  /** The ids of `k` below `p`. */
  function IdsBelow(k: ArchetypeKey, p: nat): set<nat>
  {
    set id: nat | id < p && id < CAPACITY && HasComponent(k, id)
  }

  /** Raising the bound by one adds the bound itself when the key holds it. */
  lemma IdsBelowStep(k: ArchetypeKey, p: nat)
    ensures |IdsBelow(k, p + 1)| == |IdsBelow(k, p)| + (if p in Ids(k) then 1 else 0)
  {
    if p in Ids(k) {
      assert IdsBelow(k, p + 1) == IdsBelow(k, p) + {p};
    } else {
      assert IdsBelow(k, p + 1) == IdsBelow(k, p);
    }
  }

  /** Counting the ids of word `i` one bit at a time. */
  lemma {:induction false} CountWordPrefix(k: ArchetypeKey, i: nat, n: nat)
    requires i < STORAGE_SIZE && n <= WORD_BITS
    ensures |IdsBelow(k, 64 * i + n)| == |IdsBelow(k, 64 * i)| + PopCount(k.storage[i][..n])
  {
    if n > 0 {
      CountWordPrefix(k, i, n - 1);
      SlotBit(k, i, n - 1);
      IdsBelowStep(k, 64 * i + n - 1);
      assert k.storage[i][..n][..n - 1] == k.storage[i][..n - 1];
    }
  }

  /** `count_components`: the number of ids the key holds, summed word by
      word with `std::popcount`; never more than 256, so the `uint32_t`
      accumulator cannot wrap. */
  method CountComponents(k: ArchetypeKey) returns (count: nat)
    ensures count == |Ids(k)|
    ensures count <= CAPACITY
  {
    count := 0;
    var i := 0;
    assert IdsBelow(k, 0) == {};
    while i < STORAGE_SIZE
      invariant 0 <= i <= STORAGE_SIZE
      invariant count == |IdsBelow(k, 64 * i)| <= 64 * i
    {
      CountWordPrefix(k, i, WORD_BITS);
      assert k.storage[i][..WORD_BITS] == k.storage[i];
      count := count + PopCount(k.storage[i]);
      i := i + 1;
    }
    assert IdsBelow(k, CAPACITY) == Ids(k);
  }

  // ---------------------------------------------------------------------
  // operator<

  /** The first `i` words of the two keys agree. */
  predicate AgreeBelow(a: ArchetypeKey, b: ArchetypeKey, i: nat)
  {
    forall j | 0 <= j < i && j < STORAGE_SIZE :: a.storage[j] == b.storage[j]
  }

  /** Lexicographic order on the four words, each compared as an unsigned number. */
  predicate LexLess(a: ArchetypeKey, b: ArchetypeKey)
  {
    exists i | 0 <= i < STORAGE_SIZE :: AgreeBelow(a, b, i) && WordValue(a.storage[i]) < WordValue(b.storage[i])
  }

  /** `operator<`: the first differing word decides; equal keys are not less. */
  method Less(a: ArchetypeKey, b: ArchetypeKey) returns (r: bool)
    ensures r <==> LexLess(a, b)
  {
    var i := 0;
    while i < STORAGE_SIZE
      invariant 0 <= i <= STORAGE_SIZE
      invariant AgreeBelow(a, b, i)
    {
      if a.storage[i] != b.storage[i] {
        r := WordValue(a.storage[i]) < WordValue(b.storage[i]);
        if !r {
          forall j | 0 <= j < STORAGE_SIZE && AgreeBelow(a, b, j)
            ensures !(WordValue(a.storage[j]) < WordValue(b.storage[j]))
          {
            assert j <= i;
          }
        }
        return;
      }
      i := i + 1;
    }
    assert a.storage == b.storage;
    return false;
  }

  /** Two different keys have a first word where they differ. */
  lemma FirstDifference(a: ArchetypeKey, b: ArchetypeKey) returns (i: nat)
    requires a != b
    ensures i < STORAGE_SIZE && AgreeBelow(a, b, i) && a.storage[i] != b.storage[i]
  {
    if a.storage[0] != b.storage[0] {
      i := 0;
    } else if a.storage[1] != b.storage[1] {
      i := 1;
    } else if a.storage[2] != b.storage[2] {
      i := 2;
    } else {
      i := 3;
    }
  }

  /** For any two keys exactly one of `a < b`, `b < a`, `a == b` holds; in
      particular `<` is irreflexive. */
  lemma LessTrichotomy(a: ArchetypeKey, b: ArchetypeKey)
    ensures (if LexLess(a, b) then 1 else 0) + (if LexLess(b, a) then 1 else 0) + (if a == b then 1 else 0) == 1
  {
    if a != b {
      var i := FirstDifference(a, b);
      forall j | 0 <= j < STORAGE_SIZE && AgreeBelow(a, b, j)
        ensures j <= i
      {
      }
      forall j | 0 <= j < STORAGE_SIZE && AgreeBelow(b, a, j)
        ensures j <= i
      {
      }
      if WordValue(a.storage[i]) == WordValue(b.storage[i]) {
        BinaryValueInjective(a.storage[i], b.storage[i]);
      } else if WordValue(a.storage[i]) < WordValue(b.storage[i]) {
        assert LexLess(a, b);
      } else {
        assert LexLess(b, a);
      }
    }
  }

  /** `<` is transitive. */
  lemma LessTransitive(a: ArchetypeKey, b: ArchetypeKey, c: ArchetypeKey)
    requires LexLess(a, b) && LexLess(b, c)
    ensures LexLess(a, c)
  {
    var i :| 0 <= i < STORAGE_SIZE && AgreeBelow(a, b, i) && WordValue(a.storage[i]) < WordValue(b.storage[i]);
    var j :| 0 <= j < STORAGE_SIZE && AgreeBelow(b, c, j) && WordValue(b.storage[j]) < WordValue(c.storage[j]);
    var m := if i < j then i else j;
    assert AgreeBelow(a, c, m) && WordValue(a.storage[m]) < WordValue(c.storage[m]);
  }

  // ---------------------------------------------------------------------
  // Component type ids from a first-use counter

  /** The process-wide counter behind `next_id` and the per-type statics of
      `counter<T>`: `values` maps each type seen so far to the counter value
      it was given on first use. */
  class TypeCounter {
    var nextId: nat
    var values: map<TypeId, nat>

    /** Every recorded value was handed out by the counter, and no two
        types share one. */
    ghost predicate Valid()
      reads this
    {
      && (forall t | t in values :: values[t] < nextId)
      && (forall t, u | t in values && u in values && t != u :: values[t] != values[u])
    }

    /** Program start: the counter is 0 and no type has a value yet. */
    constructor ()
      ensures Valid() && nextId == 0 && values == map[]
    {
      nextId := 0;
      values := map[];
    }

    /** `next_id`: returns the counter, then bumps it. */
    method NextId() returns (id: nat)
      requires Valid()
      modifies this
      ensures Valid()
      ensures id == old(nextId) && nextId == old(nextId) + 1 && values == old(values)
    {
      id := nextId;
      nextId := nextId + 1;
    }

    /** `counter<T>`: the first call for a type takes the next counter value;
        every later call returns that same value. */
    method Counter(t: TypeId) returns (value: nat)
      requires Valid()
      modifies this
      ensures Valid()
      ensures t in old(values) ==> value == old(values)[t] && nextId == old(nextId) && values == old(values)
      ensures t !in old(values) ==> value == old(nextId) && nextId == old(nextId) + 1 && values == old(values)[t := value]
    {
      if t in values {
        value := values[t];
      } else {
        value := NextId();
        values := values[t := value];
      }
    }

    /** `get_component_type_id<T>`: the counter value of the cv/ref-stripped
        type, reduced modulo 256. */
    method GetComponentTypeId(t: TypeArg) returns (id: nat)
      requires Valid()
      modifies this
      ensures Valid()
      ensures id < CAPACITY
      ensures t.base in values && id == values[t.base] % CAPACITY
      ensures t.base in old(values) ==> id == old(values)[t.base] % CAPACITY && values == old(values) && nextId == old(nextId)
      ensures t.base !in old(values) ==> id == old(nextId) % CAPACITY && nextId == old(nextId) + 1
      ensures t.base !in old(values) ==> values == old(values)[t.base := old(nextId)]
    {
      var value := Counter(Normalize(t).base);
      id := value % CAPACITY;
    }
  }

  /** A type's id does not change when other types are numbered in between:
      asking for `t`, then `u`, then `t` again gives `t` the same id twice. */
  method IdStableAcrossTypes(c: TypeCounter, t: TypeArg, u: TypeArg) returns (first: nat, other: nat, again: nat)
    requires c.Valid()
    modifies c
    ensures c.Valid()
    ensures first == again
    ensures t.base != u.base && c.nextId <= CAPACITY ==> first != other
  {
    first := c.GetComponentTypeId(t);
    other := c.GetComponentTypeId(u);
    again := c.GetComponentTypeId(t);
    if t.base != u.base && c.nextId <= CAPACITY {
      DistinctIdsBelowCapacity(c, t.base, u.base);
    }
  }

  /** While fewer than 257 types have been seen, distinct types have
      distinct ids. */
  lemma DistinctIdsBelowCapacity(c: TypeCounter, t: TypeId, u: TypeId)
    requires c.Valid() && c.nextId <= CAPACITY
    requires t in c.values && u in c.values && t != u
    ensures c.values[t] % CAPACITY != c.values[u] % CAPACITY
  {
  }
}
