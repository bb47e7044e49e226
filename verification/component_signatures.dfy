/** The older `ComponentSignature`: the same four-word bitset as the archetype
    key (one datatype serves both), plus `remove_component`, `get_value`, the
    legacy one-word bitmask and component type ids taken from an FNV-1a hash of
    the type's name. */
module ComponentSignatures {
  import opened BitWords
  import opened Types
  import opened ArchetypeKeys

  // ---------------------------------------------------------------------
  // remove_component

  /** `remove_component`, on a signature value: `storage[bucket] &= ~(1ULL << bit)`
      when the bucket exists. */
  function RemoveComponent(k: ArchetypeKey, id: nat): (r: ArchetypeKey)
    ensures forall i, c | 0 <= i < STORAGE_SIZE && 0 <= c < WORD_BITS ::
      r.storage[i][c] <==> k.storage[i][c] && !(id < CAPACITY && i == Bucket(id) && c == Bit(id))
    ensures id >= CAPACITY ==> r == k
  {
    if Bucket(id) < STORAGE_SIZE then
      ArchetypeKey(k.storage[Bucket(id) := And(k.storage[Bucket(id)], Not(Mask(Bit(id))))])
    else
      k
  }

  /** After `remove_component(id)` the id is absent, and every other id is
      present exactly when it was before. */
  lemma RemoveComponentHas(k: ArchetypeKey, id: nat, j: nat)
    ensures HasComponent(RemoveComponent(k, id), j) <==> j != id && HasComponent(k, j)
  {
    var r := RemoveComponent(k, id);
    if j < CAPACITY {
      IdBit(k, j);
      IdBit(r, j);
      if id < CAPACITY && Bucket(j) == Bucket(id) {
        assert Bit(j) == Bit(id) <==> j == id;
      }
    }
  }

  /** `remove_component(id)` takes exactly `id` out of the set, and is a no-op
      for `id >= 256`. */
  lemma RemoveComponentIds(k: ArchetypeKey, id: nat)
    ensures Ids(RemoveComponent(k, id)) == Ids(k) - {id}
    ensures id >= CAPACITY ==> RemoveComponent(k, id) == k
  {
    forall j: nat
      ensures j in Ids(RemoveComponent(k, id)) <==> j in Ids(k) - {id}
    {
      RemoveComponentHas(k, id, j);
    }
  }

  /** Adding an id the signature did not hold and then removing it gives back
      an equal signature. */
  lemma AddThenRemove(k: ArchetypeKey, id: nat)
    requires id !in Ids(k)
    ensures RemoveComponent(AddComponent(k, id), id) == k
  {
    AddComponentIds(k, id);
    RemoveComponentIds(AddComponent(k, id), id);
    KeyEquality(RemoveComponent(AddComponent(k, id), id), k);
  }

  /** Removing an id and then adding it back gives a signature equal to the
      original exactly when the original held it. */
  lemma RemoveThenAdd(k: ArchetypeKey, id: nat)
    requires id < CAPACITY
    ensures AddComponent(RemoveComponent(k, id), id) == k <==> id in Ids(k)
  {
    RemoveComponentIds(k, id);
    AddComponentIds(RemoveComponent(k, id), id);
    KeyEquality(AddComponent(RemoveComponent(k, id), id), k);
  }

  // ---------------------------------------------------------------------
  // get_value and the legacy bitmask

  /** `get_value`: the first storage word. */
  function GetValue(k: ArchetypeKey): (r: Word)
    ensures forall i | 0 <= i < WORD_BITS :: r[i] <==> HasComponent(k, i)
  {
    k.storage[0]
  }

  /** `get_value` sees exactly the ids 0 .. 63: bit `i` is set iff id `i` is held. */
  lemma GetValueBits(k: ArchetypeKey)
    ensures forall i | 0 <= i < WORD_BITS :: GetValue(k)[i] <==> i in Ids(k)
  {
    forall i | 0 <= i < WORD_BITS
      ensures GetValue(k)[i] <==> i in Ids(k)
    {
      SlotBit(k, 0, i);
    }
  }

  /** `get_component_bitmask`: `1ULL << id` for an id below 64, else 0. */
  function ComponentBitmask(id: nat): (r: Word)
    ensures forall i | 0 <= i < WORD_BITS :: r[i] <==> i == id
  {
    if id < WORD_BITS then Mask(id) else Zero()
  }

  /** The bitmask of an id is the `get_value` of the signature holding that id
      alone. */
  lemma BitmaskIsValueOfSingleton(id: nat)
    ensures ComponentBitmask(id) == GetValue(AddComponent(EMPTY_KEY, id))
  {
    var k := AddComponent(EMPTY_KEY, id);
    AddComponentIds(EMPTY_KEY, id);
    EmptyByWords(EMPTY_KEY);
    GetValueBits(k);
    assert forall i | 0 <= i < WORD_BITS :: GetValue(k)[i] == ComponentBitmask(id)[i];
  }

  // ---------------------------------------------------------------------
  // empty, as an explicit scan

  /** `ComponentSignature::empty`: returns false at the first non-zero word. */
  method Empty(k: ArchetypeKey) returns (r: bool)
    ensures r <==> Ids(k) == {}
  {
    EmptyByWords(k);
    var i := 0;
    while i < STORAGE_SIZE
      invariant 0 <= i <= STORAGE_SIZE
      invariant forall j | 0 <= j < i :: k.storage[j] == Zero()
    {
      if k.storage[i] != Zero() {
        return false;
      }
      i := i + 1;
    }
    return true;
  }

  // ---------------------------------------------------------------------
  // FNV-1a string hash

  /** A `char` as the byte it occupies, 0 .. 255. */
  type Byte = b: int | 0 <= b < 256

  /** `2^64`: `std::uint64_t` arithmetic wraps modulo this. */
  const TWO_64: nat := 0x1_0000_0000_0000_0000

  /** A `std::uint64_t` value. */
  type U64 = x: int | 0 <= x < TWO_64

  /** FNV-1a 64-bit offset basis. */
  const FNV_OFFSET: U64 := 14695981039346656037

  /** FNV-1a 64-bit prime. */
  const FNV_PRIME: U64 := 1099511628211

  /** Bitwise xor of the low `n` bits of `a` and `b`. */
  function XorBits(a: nat, b: nat, n: nat): (r: nat)
    ensures r < Pow2(n)
  {
    if n == 0 then 0 else 2 * XorBits(a / 2, b / 2, n - 1) + (if a % 2 == b % 2 then 0 else 1)
  }

  /** Xor'ing the same bits twice gives back an `n`-bit number. */
  lemma {:induction false} XorBitsTwice(a: nat, b: nat, n: nat)
    requires a < Pow2(n)
    ensures XorBits(XorBits(a, b, n), b, n) == a
  {
    if n > 0 {
      var x := XorBits(a / 2, b / 2, n - 1);
      var d := if a % 2 == b % 2 then 0 else 1;
      assert XorBits(a, b, n) == 2 * x + d;
      assert (2 * x + d) / 2 == x && (2 * x + d) % 2 == d;
      XorBitsTwice(a / 2, b / 2, n - 1);
    }
  }

  /** `h ^ static_cast<std::uint64_t>(c)` for a signed `char` `c`. The cast
      sign-extends, so the low byte of `h` is xor'ed with `c`, and the upper
      56 bits are kept for `c < 0x80` and all flipped for `c >= 0x80`. */
  function XorChar(h: U64, c: Byte): U64
  {
    var low := XorBits(h % 256, c, 8);
    var high := h / 256;
    (if c < 0x80 then high else 0xFF_FFFF_FFFF_FFFF - high) * 256 + low
  }

  /** Xor'ing the same character in twice restores the hash state. */
  lemma XorCharTwice(h: U64, c: Byte)
    ensures XorChar(XorChar(h, c), c) == h
  {
    var r := XorChar(h, c);
    var low := XorBits(h % 256, c, 8);
    assert Pow2(8) == 256;
    assert r % 256 == low && r / 256 == (if c < 0x80 then h / 256 else 0xFF_FFFF_FFFF_FFFF - h / 256);
    XorBitsTwice(h % 256, c, 8);
  }

  /** One FNV-1a round: xor the character in, then multiply by the prime
      modulo 2^64 (`hash *= 1099511628211ULL` wraps). */
  function FnvStep(h: U64, c: Byte): U64
  {
    (XorChar(h, c) * FNV_PRIME) % TWO_64
  }

  /** The hash after feeding `s` into state `h`, one character at a time. */
  function FnvFrom(h: U64, s: seq<Byte>): U64
  {
    if s == [] then h else FnvStep(FnvFrom(h, s[..|s| - 1]), s[|s| - 1])
  }

  /** FNV-1a of a whole string. */
  function Fnv1a(s: seq<Byte>): U64
  {
    FnvFrom(FNV_OFFSET, s)
  }

  /** The empty string hashes to the offset basis. */
  lemma Fnv1aEmpty()
    ensures Fnv1a([]) == 14695981039346656037
  {
  }

  /** Appending a character is one more round on the hash of the prefix. */
  lemma Fnv1aAppend(s: seq<Byte>, c: Byte)
    ensures Fnv1a(s + [c]) == (XorChar(Fnv1a(s), c) * 1099511628211) % 0x1_0000_0000_0000_0000
  {
    assert (s + [c])[..|s|] == s;
  }

  /** Hashing a concatenation continues from the hash of the first part. */
  lemma {:induction false} FnvFromConcat(h: U64, s: seq<Byte>, t: seq<Byte>)
    ensures FnvFrom(h, s + t) == FnvFrom(FnvFrom(h, s), t)
  {
    if t != [] {
      var t' := t[..|t| - 1];
      FnvFromConcat(h, s, t');
      assert (s + t)[..|s + t| - 1] == s + t';
    } else {
      assert s + t == s;
    }
  }

  /** `hash_string(std::string_view)`: FNV-1a over every character. */
  method HashStringView(s: seq<Byte>) returns (hash: U64)
    ensures hash == Fnv1a(s)
  {
    hash := FNV_OFFSET;
    var i := 0;
    while i < |s|
      invariant 0 <= i <= |s|
      invariant hash == FnvFrom(FNV_OFFSET, s[..i])
    {
      hash := XorChar(hash, s[i]);
      hash := (hash * FNV_PRIME) % TWO_64;
      assert s[..i + 1][..i] == s[..i];
      i := i + 1;
    }
    assert s[..i] == s;
  }

  /** The characters of a NUL-terminated string: everything before the first 0. */
  function CString(mem: seq<Byte>): (r: seq<Byte>)
    ensures 0 !in r
    ensures r <= mem
    ensures |r| < |mem| ==> mem[|r|] == 0
  {
    if mem == [] || mem[0] == 0 then [] else [mem[0]] + CString(mem[1..])
  }

  /** A name without NUL bytes, stored with its terminator, reads back as itself. */
  lemma {:induction false} CStringOfTerminated(name: seq<Byte>, rest: seq<Byte>)
    requires 0 !in name
    ensures CString(name + [0] + rest) == name
  {
    if name != [] {
      CStringOfTerminated(name[1..], rest);
      assert (name + [0] + rest)[1..] == name[1..] + [0] + rest;
    }
  }

  /** `hash_string(const char*)`: FNV-1a over the characters before the
      terminating NUL. The memory from the pointer on must hold a NUL. */
  method HashCString(mem: seq<Byte>) returns (hash: U64)
    requires 0 in mem
    ensures hash == Fnv1a(CString(mem))
  {
    hash := FNV_OFFSET;
    var i := 0;
    while mem[i] != 0
      invariant 0 <= i < |mem|
      invariant i <= |CString(mem)| && mem[..i] == CString(mem)[..i]
      invariant hash == FnvFrom(FNV_OFFSET, mem[..i])
      decreases |mem| - i
    {
      hash := XorChar(hash, mem[i]);
      hash := (hash * FNV_PRIME) % TWO_64;
      assert mem[..i + 1][..i] == mem[..i];
      i := i + 1;
    }
    assert mem[..i] == CString(mem);
  }

  /** For a name stored with its terminator, both `hash_string` overloads agree. */
  lemma HashOverloadsAgree(name: seq<Byte>, rest: seq<Byte>)
    requires 0 !in name
    ensures Fnv1a(CString(name + [0] + rest)) == Fnv1a(name)
  {
    CStringOfTerminated(name, rest);
  }

  // ---------------------------------------------------------------------
  // get_component_type_id from the type name

  /** `get_component_type_id<T>`: the `const char*` FNV-1a hash of the name of
      the cv/ref-stripped type, reduced modulo 256. `typeName` stands for the
      memory `typeid(...).name()` points at, which the compiler chooses; the
      hash reads it up to its first NUL. */
  function SignatureTypeId(typeName: TypeId -> seq<Byte>, t: TypeArg): (r: nat)
    ensures r < CAPACITY
  {
    Fnv1a(CString(typeName(Normalize(t).base))) % 256
  }

  /** When the type's name is stored with its terminator, the id is the
      FNV-1a hash of exactly the name's characters, modulo 256. */
  lemma SignatureTypeIdOfName(typeName: TypeId -> seq<Byte>, t: TypeArg, name: seq<Byte>, rest: seq<Byte>)
    requires 0 !in name && typeName(t.base) == name + [0] + rest
    ensures SignatureTypeId(typeName, t) == Fnv1a(name) % 256
  {
    HashOverloadsAgree(name, rest);
  }

  /** `T`, `const T` and `T&` get the same id. */
  lemma SignatureTypeIdIgnoresQualifiers(typeName: TypeId -> seq<Byte>, t: TypeArg, u: TypeArg)
    requires t.base == u.base
    ensures SignatureTypeId(typeName, t) == SignatureTypeId(typeName, u)
  {
  }

  /** `get_component_bitmask<T>`: the one-word mask of the type's id. */
  function TypeBitmask(typeName: TypeId -> seq<Byte>, t: TypeArg): (r: Word)
    ensures forall i | 0 <= i < WORD_BITS :: r[i] <==> i == SignatureTypeId(typeName, t)
  {
    ComponentBitmask(SignatureTypeId(typeName, t))
  }
}
