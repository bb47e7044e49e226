/** Access signatures: which component types a system touches and whether it
    only reads them, the duplicate-type check over a template argument list,
    and the runtime registry that turns an access list into a component
    signature. */
module ComponentAccesses {
  import opened Types
  import opened ArchetypeKeys
  import opened ComponentSignatures

  /** `ComponentAccess`: a cv/ref-stripped type and whether the system only
      reads it. */
  datatype ComponentAccess = ComponentAccess(ty: TypeId, isReadOnly: bool)

  datatype Ordering = Less | Equivalent | Greater

  /** `operator<=>` on a flag: `static_cast<int>(b)`, so false before true. */
  function CompareFlags(x: bool, y: bool): Ordering
  {
    if x == y then Equivalent else if !x then Less else Greater
  }

  /** `operator<=>`: by type first, then by the read-only flag. */
  function Compare(a: ComponentAccess, b: ComponentAccess): (r: Ordering)
    ensures r == Equivalent <==> a == b
    ensures a.ty < b.ty ==> r == Less
    ensures a.ty == b.ty && !a.isReadOnly && b.isReadOnly ==> r == Less
  {
    if a.ty != b.ty then
      (if a.ty < b.ty then Less else Greater)
    else
      CompareFlags(a.isReadOnly, b.isReadOnly)
  }

  /** Swapping the operands swaps `Less` and `Greater`. */
  lemma CompareAntisymmetric(a: ComponentAccess, b: ComponentAccess)
    ensures Compare(a, b) == Less <==> Compare(b, a) == Greater
  {
  }

  /** `Less` is transitive, so `<=>` is a strong total order. */
  lemma CompareTransitive(a: ComponentAccess, b: ComponentAccess, c: ComponentAccess)
    requires Compare(a, b) == Less && Compare(b, c) == Less
    ensures Compare(a, c) == Less
  {
  }

  // ---------------------------------------------------------------------
  // HasDuplicateComponentType

  /** Two positions of the argument list carry the same base type. */
  predicate RepeatsBase(ts: seq<TypeArg>)
  {
    exists i, j | 0 <= i < j < |ts| :: ts[i].base == ts[j].base
  }

  /** A repeat either involves the first argument or lies in the rest. */
  lemma RepeatsBaseStep(ts: seq<TypeArg>)
    requires ts != []
    ensures RepeatsBase(ts) <==>
      (exists j | 1 <= j < |ts| :: Normalize(ts[0]) == Normalize(ts[j])) || RepeatsBase(ts[1..])
  {
    if RepeatsBase(ts) {
      var i, j :| 0 <= i < j < |ts| && ts[i].base == ts[j].base;
      if i == 0 {
        assert Normalize(ts[0]) == Normalize(ts[j]);
      } else {
        assert ts[1..][i - 1].base == ts[1..][j - 1].base;
      }
    }
    if RepeatsBase(ts[1..]) {
      var i, j :| 0 <= i < j < |ts[1..]| && ts[1..][i].base == ts[1..][j].base;
      assert ts[i + 1].base == ts[j + 1].base;
    }
  }

  /** `HasDuplicateComponentType<Ts...>`: the first type's decayed form equals
      that of some later one, or the rest has a duplicate; false for no types.
      It holds exactly when two positions carry the same stripped type. */
  predicate HasDuplicate(ts: seq<TypeArg>)
    ensures HasDuplicate(ts) <==> RepeatsBase(ts)
  {
    if ts == [] then false
    else
      RepeatsBaseStep(ts);
      (exists j | 1 <= j < |ts| :: Normalize(ts[0]) == Normalize(ts[j])) || HasDuplicate(ts[1..])
  }

  // ---------------------------------------------------------------------
  // make_component_access_signature

  /** The access one template argument asks for: its stripped type, read-only
      exactly when it is `const` once the reference is dropped. */
  function AccessOf(t: TypeArg): (r: ComponentAccess)
    ensures r.ty == Normalize(t).base
    ensures r.isReadOnly <==> t.isConst
  {
    ComponentAccess(Normalize(t).base, t.isConst)
  }

  /** One access per template argument, in argument order. */
  function AccessesOf(ts: seq<TypeArg>): (r: seq<ComponentAccess>)
    ensures |r| == |ts|
    ensures forall i | 0 <= i < |ts| :: r[i] == AccessOf(ts[i])
  {
    seq(|ts|, i requires 0 <= i < |ts| => AccessOf(ts[i]))
  }

  /** The access list touches exactly the arguments' base types, and asks to
      write a type exactly when some argument of that type is not `const`. */
  lemma AccessesOfTypes(ts: seq<TypeArg>)
    ensures forall ty :: (exists a | a in AccessesOf(ts) :: a.ty == ty) <==> ty in Bases(ts)
    ensures forall ty :: ComponentAccess(ty, false) in AccessesOf(ts) <==> exists t | t in ts :: t.base == ty && !t.isConst
  {
    var r := AccessesOf(ts);
    forall ty | ty in Bases(ts)
      ensures exists a | a in r :: a.ty == ty
    {
      var t :| t in ts && t.base == ty;
      var i :| 0 <= i < |ts| && ts[i] == t;
      assert r[i] in r;
    }
    forall ty | exists t | t in ts :: t.base == ty && !t.isConst
      ensures ComponentAccess(ty, false) in r
    {
      var t :| t in ts && t.base == ty && !t.isConst;
      var i :| 0 <= i < |ts| && ts[i] == t;
      assert r[i] == ComponentAccess(ty, false);
    }
  }

  /** Sorted by type, ties in any order. */
  predicate SortedByType(s: seq<ComponentAccess>)
  {
    forall i, j | 0 <= i < j < |s| :: s[i].ty <= s[j].ty
  }

  /** Sorted by type with no type twice. */
  predicate StrictlySortedByType(s: seq<ComponentAccess>)
  {
    forall i, j | 0 <= i < j < |s| :: s[i].ty < s[j].ty
  }

  /** `std::ranges::sort` with `lhs.type < rhs.type`: an in-place insertion
      sort by type. */
  method SortByType(a: array<ComponentAccess>)
    modifies a
    ensures SortedByType(a[..])
    ensures multiset(a[..]) == multiset(old(a[..]))
  {
    var i := 0;
    while i < a.Length
      invariant 0 <= i <= a.Length
      invariant forall p, q | 0 <= p < q < i :: a[p].ty <= a[q].ty
      invariant multiset(a[..]) == multiset(old(a[..]))
    {
      InsertDown(a, i);
      i := i + 1;
    }
  }

  /** Moves `a[i]` down past every larger type, so that a sorted prefix of
      length `i` becomes a sorted prefix of length `i + 1`. */
  method InsertDown(a: array<ComponentAccess>, i: nat)
    requires i < a.Length
    requires forall p, q | 0 <= p < q < i :: a[p].ty <= a[q].ty
    modifies a
    ensures forall p, q | 0 <= p < q <= i :: a[p].ty <= a[q].ty
    ensures multiset(a[..]) == multiset(old(a[..]))
  {
    var j := i;
    while j > 0 && a[j - 1].ty > a[j].ty
      invariant 0 <= j <= i
      invariant forall p, q | 0 <= p < q <= i && p != j && q != j :: a[p].ty <= a[q].ty
      invariant forall q | j < q <= i :: a[j].ty < a[q].ty
      invariant multiset(a[..]) == multiset(old(a[..]))
    {
      SwapAdjacent(a, j);
      j := j - 1;
    }
  }

  /** Exchanges `a[j - 1]` and `a[j]`. */
  method SwapAdjacent(a: array<ComponentAccess>, j: nat)
    requires 0 < j < a.Length
    modifies a
    ensures a[..] == old(a[..])[j - 1 := old(a[j])][j := old(a[j - 1])]
    ensures multiset(a[..]) == multiset(old(a[..]))
  {
    a[j - 1], a[j] := a[j], a[j - 1];
  }

  /** `make_component_access_signature<Ts...>`: one access per argument,
      duplicates kept, sorted by type. */
  method MakeComponentAccessSignature(ts: seq<TypeArg>) returns (accesses: seq<ComponentAccess>)
    ensures |accesses| == |ts|
    ensures SortedByType(accesses)
    ensures multiset(accesses) == multiset(AccessesOf(ts))
  {
    var a := new ComponentAccess[|ts|](i requires 0 <= i < |ts| => AccessOf(ts[i]));
    assert a[..] == AccessesOf(ts);
    SortByType(a);
    accesses := a[..];
  }

  /** A value occurring at least twice in a sequence occurs at two positions. */
  lemma {:induction false} TwoOccurrences<T>(s: seq<T>, x: T)
    requires multiset(s)[x] >= 2
    ensures exists p, q | 0 <= p < q < |s| :: s[p] == x && s[q] == x
  {
    var last := |s| - 1;
    assert s == s[..last] + [s[last]];
    if s[last] == x {
      assert multiset(s[..last])[x] >= 1;
      var p :| 0 <= p < last && s[..last][p] == x;
      assert s[p] == x && s[last] == x;
    } else {
      TwoOccurrences(s[..last], x);
      var p, q :| 0 <= p < q < last && s[..last][p] == x && s[..last][q] == x;
      assert s[p] == x && s[q] == x;
    }
  }

  /** Without a duplicate type among the arguments, the sorted access list has
      no type twice, which is what the overlap check needs. */
  lemma NoDuplicateStrictlySorted(ts: seq<TypeArg>, accesses: seq<ComponentAccess>)
    requires !HasDuplicate(ts)
    requires SortedByType(accesses) && multiset(accesses) == multiset(AccessesOf(ts))
    ensures StrictlySortedByType(accesses)
  {
    var src := AccessesOf(ts);
    forall i, j | 0 <= i < j < |accesses|
      ensures accesses[i].ty < accesses[j].ty
    {
      if accesses[i].ty == accesses[j].ty {
        assert accesses[i] in multiset(src) && accesses[j] in multiset(src);
        if accesses[i] == accesses[j] {
          assert accesses == accesses[..j] + accesses[j..];
          assert accesses[i] in multiset(accesses[..j]) && accesses[j] in multiset(accesses[j..]);
          TwoOccurrences(src, accesses[i]);
        }
      }
    }
  }

  // ---------------------------------------------------------------------
  // The type_index -> component id registry

  /** The ids the map gives the registered types among `accesses`. */
  function RegisteredIds(ids: map<TypeId, nat>, accesses: seq<ComponentAccess>): set<nat>
  {
    set a | a in accesses && a.ty in ids :: ids[a.ty]
  }

  lemma RegisteredIdsAppend(ids: map<TypeId, nat>, s: seq<ComponentAccess>, a: ComponentAccess)
    ensures RegisteredIds(ids, s + [a]) == RegisteredIds(ids, s) + (if a.ty in ids then {ids[a.ty]} else {})
  {
    assert forall b :: b in s + [a] <==> b in s || b == a;
  }

  /** One step of `component_access_to_signature`'s loop: the next access's
      id is added when its type is registered. */
  lemma RegisteredIdStep(ids: map<TypeId, nat>, accesses: seq<ComponentAccess>, i: nat, sig: ArchetypeKey)
    requires i < |accesses| && Ids(sig) == RegisteredIds(ids, accesses[..i])
    requires forall ty | ty in ids :: ids[ty] < CAPACITY
    ensures accesses[i].ty in ids ==> Ids(AddComponent(sig, ids[accesses[i].ty])) == RegisteredIds(ids, accesses[..i + 1])
    ensures accesses[i].ty !in ids ==> Ids(sig) == RegisteredIds(ids, accesses[..i + 1])
  {
    RegisteredIdsAppend(ids, accesses[..i], accesses[i]);
    if accesses[i].ty in ids {
      AddComponentIds(sig, ids[accesses[i].ty]);
    }
    assert accesses[..i + 1] == accesses[..i] + [accesses[i]];
  }

  /** The base types of a template argument list. */
  function Bases(ts: seq<TypeArg>): set<TypeId>
  {
    set t | t in ts :: t.base
  }

  /** One step of the registration fold: the next type's base joins the bases. */
  lemma BasesStep(ts: seq<TypeArg>, i: nat)
    requires i < |ts|
    ensures Bases(ts[..i + 1]) == Bases(ts[..i]) + {ts[i].base}
  {
    assert forall u :: u in ts[..i + 1] <==> u in ts[..i] || u == ts[i];
  }

  /** The hashed ids of a template argument list. */
  function TypeIds(typeName: TypeId -> seq<Byte>, ts: seq<TypeArg>): set<nat>
  {
    set t | t in ts :: SignatureTypeId(typeName, t)
  }

  lemma TypeListAppend(typeName: TypeId -> seq<Byte>, s: seq<TypeArg>, t: TypeArg)
    ensures Bases(s + [t]) == Bases(s) + {t.base}
    ensures TypeIds(typeName, s + [t]) == TypeIds(typeName, s) + {SignatureTypeId(typeName, t)}
  {
    assert forall u :: u in s + [t] <==> u in s || u == t;
  }

  /** The process-wide map from `std::type_index` to component id, with the
      compiler's `typeid(T).name()` strings it hashes. `typeid` drops
      references and top-level `const`, so the map is keyed by base type. */
  class ComponentRegistry {
    const typeName: TypeId -> seq<Byte>
    var ids: map<TypeId, nat>

    /** The component id of a base type. */
    function IdOf(ty: TypeId): (r: nat)
      reads this
      ensures r < CAPACITY
    {
      SignatureTypeId(typeName, TypeArg(ty, false, false))
    }

    /** Only `register_component_type` writes the map, so every entry is the
        id of its type. */
    ghost predicate Valid()
      reads this
    {
      forall ty | ty in ids :: ids[ty] == IdOf(ty)
    }

    /** The map starts empty. */
    constructor (typeName: TypeId -> seq<Byte>)
      ensures this.typeName == typeName && ids == map[] && Valid()
    {
      this.typeName := typeName;
      ids := map[];
    }

    /** `register_component_type<T>`: sets (or overwrites) the entry for `T`. */
    method Register(t: TypeArg)
      requires Valid()
      modifies this
      ensures Valid()
      ensures ids == old(ids)[t.base := SignatureTypeId(typeName, t)]
    {
      var id := SignatureTypeId(typeName, t);
      ids := ids[t.base := id];
    }

    /** `component_access_to_signature`: a signature holding the id of every
        access whose type is registered; unregistered types are skipped and
        read-only flags play no part. */
    method ComponentAccessToSignature(accesses: seq<ComponentAccess>) returns (sig: ArchetypeKey)
      requires Valid()
      ensures Ids(sig) == RegisteredIds(ids, accesses)
    {
      sig := EMPTY_KEY;
      EmptyByWords(EMPTY_KEY);
      var i := 0;
      while i < |accesses|
        invariant 0 <= i <= |accesses|
        invariant Ids(sig) == RegisteredIds(ids, accesses[..i])
      {
        var a := accesses[i];
        RegisteredIdStep(ids, accesses, i, sig);
        if a.ty in ids {
          sig := AddComponent(sig, ids[a.ty]);
        }
        i := i + 1;
      }
      assert accesses[..i] == accesses;
    }

    /** The registration fold `(register_component_type<Ts>(), ...)`. */
    method RegisterAll(ts: seq<TypeArg>)
      requires Valid()
      modifies this
      ensures Valid()
      ensures ids.Keys == old(ids).Keys + Bases(ts)
    {
      var i := 0;
      while i < |ts|
        invariant 0 <= i <= |ts|
        invariant Valid()
        invariant ids.Keys == old(ids).Keys + Bases(ts[..i])
      {
        BasesStep(ts, i);
        Register(ts[i]);
        i := i + 1;
      }
      assert ts[..i] == ts;
    }

    /** `make_component_type_signature<Ts...>`: registers every type, then
        returns a signature holding exactly their ids. */
    method MakeComponentTypeSignature(ts: seq<TypeArg>) returns (sig: ArchetypeKey)
      requires Valid()
      modifies this
      ensures Valid()
      ensures ids.Keys == old(ids).Keys + Bases(ts)
      ensures Ids(sig) == TypeIds(typeName, ts)
    {
      RegisterAll(ts);
      sig := AddTypeIds(typeName, ts);
    }
  }

  /** The fold `(signature.add_component(get_component_type_id<Ts>()), ...)`
      from an empty signature. */
  method AddTypeIds(typeName: TypeId -> seq<Byte>, ts: seq<TypeArg>) returns (sig: ArchetypeKey)
    ensures Ids(sig) == TypeIds(typeName, ts)
  {
    sig := EMPTY_KEY;
    EmptyByWords(EMPTY_KEY);
    var i := 0;
    while i < |ts|
      invariant 0 <= i <= |ts|
      invariant Ids(sig) == TypeIds(typeName, ts[..i])
    {
      var id := SignatureTypeId(typeName, ts[i]);
      AddTypeIdStep(typeName, ts, i, sig);
      sig := AddComponent(sig, id);
      i := i + 1;
    }
    assert ts[..i] == ts;
  }

  /** One step of the fold: adding the next type's id to a signature holding
      the ids of the types before it. */
  lemma AddTypeIdStep(typeName: TypeId -> seq<Byte>, ts: seq<TypeArg>, i: nat, sig: ArchetypeKey)
    requires i < |ts| && Ids(sig) == TypeIds(typeName, ts[..i])
    ensures Ids(AddComponent(sig, SignatureTypeId(typeName, ts[i]))) == TypeIds(typeName, ts[..i + 1])
  {
    TypeListAppend(typeName, ts[..i], ts[i]);
    AddComponentIds(sig, SignatureTypeId(typeName, ts[i]));
    assert ts[..i + 1] == ts[..i] + [ts[i]];
  }

  /** Once every type of a list is registered, the signature built from its
      access list holds the same ids as the one built from the types. */
  lemma AccessSignatureMatchesTypeSignature(reg: ComponentRegistry, ts: seq<TypeArg>)
    requires reg.Valid()
    requires Bases(ts) <= reg.ids.Keys
    ensures RegisteredIds(reg.ids, AccessesOf(ts)) == TypeIds(reg.typeName, ts)
  {
    var accesses := AccessesOf(ts);
    forall id | id in RegisteredIds(reg.ids, accesses)
      ensures id in TypeIds(reg.typeName, ts)
    {
      var a :| a in accesses && a.ty in reg.ids && reg.ids[a.ty] == id;
      var i :| 0 <= i < |accesses| && accesses[i] == a;
      assert SignatureTypeId(reg.typeName, ts[i]) == id;
    }
    forall id | id in TypeIds(reg.typeName, ts)
      ensures id in RegisteredIds(reg.ids, accesses)
    {
      var t :| t in ts && SignatureTypeId(reg.typeName, t) == id;
      var i :| 0 <= i < |ts| && ts[i] == t;
      assert accesses[i] in accesses && t.base in Bases(ts);
    }
  }
}
