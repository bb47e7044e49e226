# Hephaestus ECS core, modelled in Dafny

Hephaestus is the entity-component-system module of the Atlas engine. Its
core is modelled here:

- **Keys.** An archetype key (`ArchetypeKey`, and its older twin
  `ComponentSignature`) is a set of component ids 0..255, stored as four
  64-bit words. Ids come from one of two allocators:
  - a first-use counter, taken modulo 256;
  - the FNV-1a hash of the type name, taken modulo 256.
- **Access signatures.** A system's access signature lists, for each
  component type it touches, whether it only reads it. The list is sorted
  by type. A merge walk over two such lists decides whether two systems
  conflict and so must not run in parallel.
- **Archetypes.** An archetype stores the entities that have one set of
  component types, in columns: one column per type, and one row per
  entity. Two maps, entity→row and row→entity, are kept mutual inverses.
  Destroying an entity swap-removes its row.
- **Queries.** A query keeps the archetypes whose key contains the query
  key and concatenates their entity tuples. The cached query memoises that
  result and rebuilds it when the caller's version token changes. The
  older query filters on type lists instead.
- **Allocator.** The entity id allocator is a counter.

Files, one module each:

| file | module | models |
|---|---|---|
| `bitwords.dfy` | `BitWords` | 64-bit words as 64 booleans; `|`, `&`, `~`, `1ULL << b`, popcount, unsigned value |
| `types.dfy` | `Types` | type identities, cv/ref stripping, entity handles |
| `archetype_keys.dfy` | `ArchetypeKeys` | `ArchetypeKey.hpp`: the key, its scans, the first-use type counter |
| `component_signatures.dfy` | `ComponentSignatures` | `ComponentSignature.hpp`: remove, `get_value`, bitmask, FNV-1a, hash-based ids |
| `component_access.dfy` | `ComponentAccesses` | `Utils.hpp`: access ordering, duplicate check, sorted access signature, the type-id registry |
| `overlap.dfy` | `Overlap` | `Utils.cpp`: the overlap merge walk |
| `archetype.dfy` | `Archetypes` | `Archetype.hpp` and `Archetype.cpp`: columns, create, destroy, tuples |
| `query_pipeline.dfy` | `QueryPipeline` | `query/QueryComponentsPipeline.hpp`: filter and join |
| `query.dfy` | `Queries` | `query/Query.hpp`: the cached query |
| `legacy_query.dfy` | `LegacyQueries` | `Query.hpp`: the older type-list query |
| `hephaestus.dfy` | `Hephaestus` | `Hephaestus.cpp`: entity ids and tick rate |

Modelling choices:

- **Keys are values.** `add_component` and `remove_component` are functions
  that return the updated key. The C++ updates a key in place, but keys are
  value types that serve as map keys.
- **Words.** A word is 64 booleans, bit `i` at index `i`. The unsigned
  order of `uint64_t` is the order of `WordValue`, whose injectivity is
  proved.
- **Types.** Types are `nat`, and their order
  stands for the `std::type_index` order.
- **Type names.** The compiler's `typeid(T).name()` strings are a parameter,
  `typeName`.
- **Characters.** `char` is taken to be signed, which is the common case on
  x86. A byte of 128 or more is sign-extended before the xor.
- **The hash ids.** `get_component_type_id` in `ComponentSignature.hpp`
  is used by `register_component_type` and `make_component_type_signature`,
  since `Utils.hpp` includes that header.
- **SystemDependencies.** `Utils.cpp` defines `are_dependencies_overlapping`
  over `SystemDependencies`, while `Utils.hpp` declares
  `are_access_signatures_overlapping` over `ComponentAccess`. Both have the
  same `type` and `is_read_only` fields. One method,
  `AreDependenciesOverlapping`, over `ComponentAccess`, models both;
  `Common.hpp` is not part of this model.
- **The cached query's archetypes.** `query/Query.hpp` calls
  `build_pipeline` with only the archetype list, but the pipeline header
  takes a map and a signature. The model's query joins the entity tuples of
  the archetypes it was given. `Queries.GetFiltered` shows that pointing it
  at the filter's output gives the two-argument pipeline.
- **Key types in the filter.** The pipeline filter compares the query's
  `ComponentSignature` with `ArchetypeKey` map keys. Both are the same
  four-word set, and one datatype models both.
- **The older query's keys.** The older `Query.hpp` iterates over each map
  key as a list of component types. Its map is modelled as keyed by such
  lists, and is copied into the query value when the query is made.

## Model

| member | source | states |
|---|---|---|
| BitWords.MaskTest | modules/hephaestus/include/hephaestus/ArchetypeKey.hpp:50-54 | `(w & (1 << b)) != 0` holds exactly when bit b of w is set |
| BitWords.SubsetWord | modules/hephaestus/include/hephaestus/ArchetypeKey.hpp:65-72 | `(w & v) == w` holds exactly when every bit of w is a bit of v |
| BitWords.IntersectWord | modules/hephaestus/include/hephaestus/ArchetypeKey.hpp:74-81 | `(w & v) != 0` holds exactly when some bit is set in both |
| BitWords.ZeroWord | modules/hephaestus/include/hephaestus/ArchetypeKey.hpp:91-95 | a word is zero exactly when no bit is set |
| BitWords.PopCount | modules/hephaestus/include/hephaestus/ArchetypeKey.hpp:83-89 | the number of set bits is at most the word length |
| BitWords.WordValue | modules/hephaestus/include/hephaestus/ArchetypeKey.hpp:36-44 | the unsigned value of a word is below 2^64 |
| BitWords.BinaryValueBound | modules/hephaestus/include/hephaestus/ArchetypeKey.hpp:36-44 | n bits make a number below 2^n |
| BitWords.BinaryValueInjective | modules/hephaestus/include/hephaestus/ArchetypeKey.hpp:36-44 | two words with the same unsigned value are equal, so word `<` is a total order |
| Types.NormalizeKernel | modules/hephaestus/include/hephaestus/ArchetypeKey.hpp:125 | stripping is idempotent, and two arguments strip to the same type exactly when their base types agree |
| ArchetypeKeys.IdBit | modules/hephaestus/include/hephaestus/ArchetypeKey.hpp:50-54 | an id below 256 is in the key exactly when bit `id % 64` of word `id / 64` is set |
| ArchetypeKeys.SlotBit | modules/hephaestus/include/hephaestus/ArchetypeKey.hpp:50-54 | bit c of word i is set exactly when id `64*i + c` is in the key |
| ArchetypeKeys.HasComponentBound | modules/hephaestus/include/hephaestus/ArchetypeKey.hpp:50-54 | `has_component` is false for every id of 256 or more, and otherwise is membership |
| ArchetypeKeys.HasComponent | modules/hephaestus/include/hephaestus/ArchetypeKey.hpp:50-54 | the mask test is true exactly when the id is below 256 and bit id%64 of word id/64 is set |
| ArchetypeKeys.AddComponent | modules/hephaestus/include/hephaestus/ArchetypeKey.hpp:56-63 | sets exactly bit id%64 of word id/64 and keeps every other bit; an id of 256 or more leaves the key unchanged |
| ArchetypeKeys.AddComponentHas | modules/hephaestus/include/hephaestus/ArchetypeKey.hpp:56-63 | after adding an id below 256 it is present, and every other id's presence is unchanged |
| ArchetypeKeys.AddComponentIds | modules/hephaestus/include/hephaestus/ArchetypeKey.hpp:56-63 | adding inserts the id into the set when it is below 256; an id of 256 or more leaves the key unchanged |
| ArchetypeKeys.AddAllIds | modules/hephaestus/include/hephaestus/ArchetypeKey.hpp:56-63 | folding adds over a list yields the old ids plus the list's ids below 256 |
| ArchetypeKeys.KeyEquality | modules/hephaestus/include/hephaestus/ArchetypeKey.hpp:28-34 | two keys are `==` exactly when they hold the same ids; `!=` is its negation |
| ArchetypeKeys.AddAllOrderIndependent | modules/hephaestus/include/hephaestus/ArchetypeKey.hpp:56-63 | folding the same ids in any order or multiplicity gives equal keys |
| ArchetypeKeys.AddComponentIdempotent | modules/hephaestus/include/hephaestus/ArchetypeKey.hpp:56-63 | adding an id twice equals adding it once |
| ArchetypeKeys.AddComponentCommutes | modules/hephaestus/include/hephaestus/ArchetypeKey.hpp:56-63 | two adds commute |
| ArchetypeKeys.SubsetByWords | modules/hephaestus/include/hephaestus/ArchetypeKey.hpp:65-72 | the word-by-word subset test holds exactly when every id of a is in b |
| ArchetypeKeys.IsSubsetOf | modules/hephaestus/include/hephaestus/ArchetypeKey.hpp:65-72 | the loop returns true exactly when the ids of a are a subset of the ids of b |
| ArchetypeKeys.IntersectByWords | modules/hephaestus/include/hephaestus/ArchetypeKey.hpp:74-81 | some word pair has a common bit exactly when the id sets meet |
| ArchetypeKeys.IntersectsWith | modules/hephaestus/include/hephaestus/ArchetypeKey.hpp:74-81 | the loop returns true exactly when some id is in both keys (hence it is symmetric) |
| ArchetypeKeys.EmptyByWords | modules/hephaestus/include/hephaestus/ArchetypeKey.hpp:91-95 | all four words are zero exactly when the key holds no id |
| ArchetypeKeys.IsEmpty | modules/hephaestus/include/hephaestus/ArchetypeKey.hpp:91-95 | all words are zero exactly when no bit of any word is set |
| ArchetypeKeys.SubsetReflexiveAndEmpty | modules/hephaestus/include/hephaestus/ArchetypeKey.hpp:65-72 | subset is reflexive, and the default key is a subset of every key |
| ArchetypeKeys.IdsBelowStep | modules/hephaestus/include/hephaestus/ArchetypeKey.hpp:83-89 | counting ids below p+1 adds one exactly when p is present |
| ArchetypeKeys.CountWordPrefix | modules/hephaestus/include/hephaestus/ArchetypeKey.hpp:83-89 | the popcount of a word prefix counts the ids in that range |
| ArchetypeKeys.CountComponents | modules/hephaestus/include/hephaestus/ArchetypeKey.hpp:83-89 | the sum of word popcounts is the number of ids present, at most 256 (so it is 0 exactly when `EmptyByWords` says the key is empty) |
| ArchetypeKeys.Less | modules/hephaestus/include/hephaestus/ArchetypeKey.hpp:36-44 | the loop decides the lexicographic order of the words, by unsigned value |
| ArchetypeKeys.FirstDifference | modules/hephaestus/include/hephaestus/ArchetypeKey.hpp:36-44 | different keys have a first differing word |
| ArchetypeKeys.LessTrichotomy | modules/hephaestus/include/hephaestus/ArchetypeKey.hpp:36-44 | exactly one of a<b, b<a, a==b holds (so `<` is irreflexive) |
| ArchetypeKeys.LessTransitive | modules/hephaestus/include/hephaestus/ArchetypeKey.hpp:36-44 | `<` is transitive |
| ArchetypeKeys.TypeCounter.constructor | modules/hephaestus/include/hephaestus/ArchetypeKey.hpp:101-110 | the counter starts at 0 with no type seen |
| ArchetypeKeys.TypeCounter.NextId | modules/hephaestus/include/hephaestus/ArchetypeKey.hpp:101-104 | returns the counter and bumps it by one |
| ArchetypeKeys.TypeCounter.Counter | modules/hephaestus/include/hephaestus/ArchetypeKey.hpp:106-110 | a type's first call takes the next counter value; later calls return the same value and change nothing |
| ArchetypeKeys.TypeCounter.GetComponentTypeId | modules/hephaestus/include/hephaestus/ArchetypeKey.hpp:122-133 | the id is the stripped type's counter value modulo 256, below 256, the same for const and reference variants and on repeat calls; a new type takes the next counter value and every other type keeps its value |
| ArchetypeKeys.DistinctIdsBelowCapacity | modules/hephaestus/include/hephaestus/ArchetypeKey.hpp:122-133 | while at most 256 types have been seen, distinct types get distinct ids |
| ArchetypeKeys.IdStableAcrossTypes | modules/hephaestus/include/hephaestus/ArchetypeKey.hpp:106-133 | asking for T, then U, then T again gives T the same id both times, and a different one from U while at most 256 types have been seen |
| ComponentSignatures.RemoveComponentHas | modules/hephaestus/include/hephaestus/ComponentSignature.hpp:64-71 | after removing, the id is absent and every other id's presence is unchanged |
| ComponentSignatures.RemoveComponent | modules/hephaestus/include/hephaestus/ComponentSignature.hpp:64-71 | clears exactly bit id%64 of word id/64 and keeps every other bit; an id of 256 or more leaves the signature unchanged |
| ComponentSignatures.RemoveComponentIds | modules/hephaestus/include/hephaestus/ComponentSignature.hpp:64-71 | removing takes the id out of the set; an id of 256 or more is a no-op |
| ComponentSignatures.AddThenRemove | modules/hephaestus/include/hephaestus/ComponentSignature.hpp:55-71 | adding then removing an absent id restores the signature |
| ComponentSignatures.RemoveThenAdd | modules/hephaestus/include/hephaestus/ComponentSignature.hpp:55-71 | removing then adding an id below 256 restores the signature exactly when the id was present |
| ComponentSignatures.GetValueBits | modules/hephaestus/include/hephaestus/ComponentSignature.hpp:45-47 | `get_value` reflects exactly the ids 0..63 |
| ComponentSignatures.GetValue | modules/hephaestus/include/hephaestus/ComponentSignature.hpp:45-47 | bit i of the returned word is set exactly when the signature holds id i, for i below 64 |
| ComponentSignatures.ComponentBitmask | modules/hephaestus/include/hephaestus/ComponentSignature.hpp:138-145 | the bitmask has bit `id` set when id < 64 and no other bit (0 when id ≥ 64) |
| ComponentSignatures.BitmaskIsValueOfSingleton | modules/hephaestus/include/hephaestus/ComponentSignature.hpp:138-145 | the bitmask equals `get_value` of the signature holding only that id |
| ComponentSignatures.Empty | modules/hephaestus/include/hephaestus/ComponentSignature.hpp:99-106 | the loop returns true exactly when the signature holds no id |
| ComponentSignatures.XorBits | modules/hephaestus/include/hephaestus/ComponentSignature.hpp:116 | the xor of n-bit numbers is below 2^n |
| ComponentSignatures.XorBitsTwice | modules/hephaestus/include/hephaestus/ComponentSignature.hpp:116 | xoring the same value twice restores the number |
| ComponentSignatures.XorCharTwice | modules/hephaestus/include/hephaestus/ComponentSignature.hpp:116 | xoring the sign-extended character twice restores the hash |
| ComponentSignatures.Fnv1aEmpty | modules/hephaestus/include/hephaestus/ComponentSignature.hpp:113-120 | the hash of the empty string is 14695981039346656037 |
| ComponentSignatures.Fnv1aAppend | modules/hephaestus/include/hephaestus/ComponentSignature.hpp:113-120 | each further character is xored in and the hash is multiplied by 1099511628211 modulo 2^64 |
| ComponentSignatures.FnvFromConcat | modules/hephaestus/include/hephaestus/ComponentSignature.hpp:113-120 | hashing a concatenation continues from the hash of the first part |
| ComponentSignatures.HashStringView | modules/hephaestus/include/hephaestus/ArchetypeKey.hpp:113-120 | the loop over a `string_view` computes FNV-1a of its characters |
| ComponentSignatures.CString | modules/hephaestus/include/hephaestus/ComponentSignature.hpp:113-120 | the string a `const char*` denotes is the longest zero-free prefix, stopped by a zero |
| ComponentSignatures.CStringOfTerminated | modules/hephaestus/include/hephaestus/ComponentSignature.hpp:113-120 | a zero-free name followed by a terminator denotes that name |
| ComponentSignatures.HashCString | modules/hephaestus/include/hephaestus/ComponentSignature.hpp:113-120 | the loop up to the terminator computes FNV-1a of the denoted string |
| ComponentSignatures.HashOverloadsAgree | modules/hephaestus/include/hephaestus/ComponentSignature.hpp:113-120 | the `const char*` and `string_view` hashes agree on a terminated name |
| ComponentSignatures.SignatureTypeId | modules/hephaestus/include/hephaestus/ComponentSignature.hpp:124-135 | the hash-based type id, taken over the name up to its NUL, is below 256 |
| ComponentSignatures.SignatureTypeIdOfName | modules/hephaestus/include/hephaestus/ComponentSignature.hpp:131-134 | for a NUL-terminated type name the id is the FNV-1a hash of exactly the name's characters, modulo 256 |
| ComponentSignatures.SignatureTypeIdIgnoresQualifiers | modules/hephaestus/include/hephaestus/ComponentSignature.hpp:124-135 | T, const T and T& get the same id |
| ComponentSignatures.TypeBitmask | modules/hephaestus/include/hephaestus/ComponentSignature.hpp:138-145 | a type's bitmask has exactly the bit of its id, when that id is below 64 |
| ComponentAccesses.Compare | modules/hephaestus/include/hephaestus/Utils.hpp:18-28 | `<=>` is equivalent exactly when `==` holds; smaller type first; on one type, writing before read-only |
| ComponentAccesses.CompareAntisymmetric | modules/hephaestus/include/hephaestus/Utils.hpp:22-28 | a<b exactly when b>a |
| ComponentAccesses.CompareTransitive | modules/hephaestus/include/hephaestus/Utils.hpp:22-28 | `<` is transitive |
| ComponentAccesses.HasDuplicate | modules/hephaestus/include/hephaestus/Utils.hpp:31-41 | the recursive test is true exactly when two positions carry the same stripped type (so false for zero or one type) |
| ComponentAccesses.RepeatsBaseStep | modules/hephaestus/include/hephaestus/Utils.hpp:36-40 | a repeated type either pairs with the first argument or lies in the rest, the two cases the recursion tests |
| ComponentAccesses.AccessOf | modules/hephaestus/include/hephaestus/Utils.hpp:45-48 | an entry's type is the cv/ref-stripped type, and it is read-only exactly when the argument is const |
| ComponentAccesses.AccessesOfTypes | modules/hephaestus/include/hephaestus/Utils.hpp:43-48 | the access list touches exactly the arguments' base types and writes a type exactly when some argument of that type is not const |
| ComponentAccesses.SortByType | modules/hephaestus/include/hephaestus/Utils.hpp:50-52 | the sort leaves the array ordered by type and a permutation of what it was |
| ComponentAccesses.SwapAdjacent | modules/hephaestus/include/hephaestus/Utils.hpp:50-52 | exchanges two neighbouring accesses and keeps the multiset |
| ComponentAccesses.InsertDown | modules/hephaestus/include/hephaestus/Utils.hpp:50-52 | one insertion step extends the sorted prefix by one, keeping the multiset |
| ComponentAccesses.MakeComponentAccessSignature | modules/hephaestus/include/hephaestus/Utils.hpp:43-55 | one entry per type argument, sorted by type, a permutation of the per-argument entries |
| ComponentAccesses.TwoOccurrences | modules/hephaestus/include/hephaestus/Utils.hpp:31-41 | an element counted twice in a multiset sits at two positions |
| ComponentAccesses.NoDuplicateStrictlySorted | modules/hephaestus/include/hephaestus/Utils.hpp:31-55 | without repeated types the access signature is strictly increasing by type |
| ComponentAccesses.RegisteredIdsAppend | modules/hephaestus/include/hephaestus/Utils.hpp:81-86 | one more access adds its registered id, if any |
| ComponentAccesses.TypeListAppend | modules/hephaestus/include/hephaestus/Utils.hpp:93-96 | one more type adds its base type and its id |
| ComponentAccesses.AddTypeIdStep | modules/hephaestus/include/hephaestus/Utils.hpp:95-96 | adding the next type's id to the signature of the types before it gives the signature of one more type |
| ComponentAccesses.BasesStep | modules/hephaestus/include/hephaestus/Utils.hpp:93 | registering one more type adds its base type to the registered ones |
| ComponentAccesses.RegisteredIdStep | modules/hephaestus/include/hephaestus/Utils.hpp:81-86 | the next access adds its registered id to the signature, and an unregistered one leaves it as it is |
| ComponentAccesses.ComponentRegistry.IdOf | modules/hephaestus/include/hephaestus/Utils.hpp:72 | a registered id is below 256 |
| ComponentAccesses.ComponentRegistry.constructor | modules/hephaestus/include/hephaestus/Utils.hpp:62-67 | the registry map starts empty |
| ComponentAccesses.ComponentRegistry.Register | modules/hephaestus/include/hephaestus/Utils.hpp:69-74 | sets or overwrites the type's entry with its id; no other entry changes |
| ComponentAccesses.ComponentRegistry.ComponentAccessToSignature | modules/hephaestus/include/hephaestus/Utils.hpp:76-88 | the signature holds exactly the ids of registered access types; unregistered types and flags play no part |
| ComponentAccesses.ComponentRegistry.RegisterAll | modules/hephaestus/include/hephaestus/Utils.hpp:93 | every listed type is registered afterwards, and no other type is added |
| ComponentAccesses.ComponentRegistry.MakeComponentTypeSignature | modules/hephaestus/include/hephaestus/Utils.hpp:90-98 | registers every listed type and returns a signature holding exactly their ids |
| ComponentAccesses.AddTypeIds | modules/hephaestus/include/hephaestus/Utils.hpp:95-96 | the add fold from an empty signature holds exactly the listed types' ids |
| ComponentAccesses.AccessSignatureMatchesTypeSignature | modules/hephaestus/include/hephaestus/Utils.hpp:76-98 | once a list's types are registered, converting its access signature gives the same ids as its type signature |
| Overlap.AreDependenciesOverlapping | modules/hephaestus/src/hephaestus/Utils.cpp:4-32 | a reported overlap is a real conflict; empty lists never overlap; on strictly type-sorted lists it reports exactly the conflicts; it terminates within the summed lengths |
| Overlap.Walk | modules/hephaestus/src/hephaestus/Utils.cpp:11-31 | whenever the merge walk from any pair of positions reports an overlap, some access of one list conflicts with some access of the other |
| Overlap.ConflictSymmetric | modules/hephaestus/src/hephaestus/Utils.cpp:11-29 | conflict does not depend on argument order, so the check is symmetric on sorted lists |
| Overlap.ReadersNeverConflict | modules/hephaestus/src/hephaestus/Utils.cpp:18-23 | lists that only read never conflict |
| Overlap.WriterConflicts | modules/hephaestus/src/hephaestus/Utils.cpp:15-20 | a write to a type conflicts with any access to it, in either order |
| Overlap.RepeatedTypeMissesWrite | modules/hephaestus/src/hephaestus/Utils.cpp:15-28 | with a repeated type (read then write of one type, against a read) the walk returns false although the lists conflict |
| Overlap.DisjointTypesNeverConflict | modules/hephaestus/src/hephaestus/Utils.cpp:24-28 | lists without a common type never conflict, whatever their flags |
| Overlap.SystemsOverlap | modules/hephaestus/src/hephaestus/Utils.cpp:4-32 | for systems without repeated types, the walk over their access signatures decides conflict exactly |
| Overlap.ConflictPermutation | modules/hephaestus/include/hephaestus/Utils.hpp:50-52 | sorting does not change whether two lists conflict |
| Archetypes.SwapRemove | modules/hephaestus/include/hephaestus/Archetype.hpp:35-46 | one shorter; the removed slot holds the former last element; every other slot is unchanged |
| Archetypes.SwapRemoveMultiset | modules/hephaestus/include/hephaestus/Archetype.hpp:35-46 | exactly one copy of the removed element goes |
| Archetypes.AppendTo | modules/hephaestus/include/hephaestus/Archetype.hpp:115-124 | the type gains a column if it had none; its column keeps its old values and ends with the new one; every other column is unchanged |
| Archetypes.TypesOfAppend | modules/hephaestus/include/hephaestus/Archetype.hpp:90 | one more component adds its type |
| Archetypes.AppendAllAt | modules/hephaestus/include/hephaestus/Archetype.hpp:90 | after the create fold a type has a column exactly when it had one or is passed, holding the old column then the passed values |
| Archetypes.ValuesOfAbsent | modules/hephaestus/include/hephaestus/Archetype.hpp:90 | a type not passed receives no value |
| Archetypes.ValuesOfDistinct | modules/hephaestus/include/hephaestus/Archetype.hpp:90 | with each type passed once, a type receives exactly its one value |
| Archetypes.CreateKeepsBijection | modules/hephaestus/include/hephaestus/Archetype.hpp:93-95 | mapping a new entity to the next row keeps the two maps mutual inverses |
| Archetypes.DestroyKeepsBijection | modules/hephaestus/src/hephaestus/Archetype.cpp:18-24 | after the fix-up, erase and pop the maps remain mutual inverses over the other entities; the last entity moves to the freed row and all others keep theirs |
| Archetypes.SurvivorsKeepComponents | modules/hephaestus/src/hephaestus/Archetype.cpp:13-21 | after swap-removing a column, every surviving entity finds its own value at its new row |
| Archetypes.CreatedColumnsGrow | modules/hephaestus/include/hephaestus/Archetype.hpp:88-96 | creating with the full type set, each once, makes every column one longer |
| Archetypes.ColumnsAfterDestroy | modules/hephaestus/src/hephaestus/Archetype.cpp:14-16 | the destroy loop keeps the set of component types |
| Archetypes.CreateKeepsValid | modules/hephaestus/include/hephaestus/Archetype.hpp:88-96 | a new entity created with the archetype's own types, each once, keeps every column as long as the row list and the maps inverse, and its row is every column's last index |
| Archetypes.DestroyKeepsValid | modules/hephaestus/src/hephaestus/Archetype.cpp:4-26 | destroying a present entity keeps every column as long as the row list and the maps inverse |
| Archetypes.DestroyKeepsValues | modules/hephaestus/src/hephaestus/Archetype.cpp:13-24 | after a destroy every surviving entity finds its own values, in every column, at its new row |
| Archetypes.Archetype.constructor | modules/hephaestus/include/hephaestus/Archetype.hpp:53-57 | only reserves: no columns, no entities |
| Archetypes.Archetype.AddToComponentStorage | modules/hephaestus/include/hephaestus/Archetype.hpp:115-124 | creates the type's column on first use and appends the value; nothing else changes |
| Archetypes.Archetype.AddAllToComponentStorage | modules/hephaestus/include/hephaestus/Archetype.hpp:90 | the fold appends every passed value to its type's column |
| Archetypes.Archetype.CreateEntity | modules/hephaestus/include/hephaestus/Archetype.hpp:88-96 | appends the values; maps the entity to the last row of the first column, keeping an existing entry; appends the entity to the row list; keeps the invariant when the entity is new and the types are the archetype's own |
| Archetypes.Archetype.DestroyEntity | modules/hephaestus/src/hephaestus/Archetype.cpp:4-26 | an unknown entity gives false and no change; otherwise true, every column swap-removed at the entity's row, the last entity moved there, the entity erased, the invariant kept |
| Archetypes.Archetype.DestroyInColumns | modules/hephaestus/src/hephaestus/Archetype.cpp:14-16 | every column is swap-removed at the row, and no column is added or dropped |
| Archetypes.Archetype.GetComponents | modules/hephaestus/include/hephaestus/Archetype.hpp:106-113 | the type's column (which must exist) has one value per entity |
| Archetypes.Archetype.EntityTuples | modules/hephaestus/include/hephaestus/Archetype.hpp:98-104 | one tuple per entity; an entity's tuple holds its values from each requested column |
| QueryPipeline.Owned | modules/hephaestus/include/hephaestus/query/QueryComponentsPipeline.hpp:31-34 | the transform keeps one archetype per kept entry, in order |
| QueryPipeline.Join | modules/hephaestus/include/hephaestus/query/QueryComponentsPipeline.hpp:30-34 | the join has one tuple per entity of every archetype |
| QueryPipeline.RowRefs | modules/hephaestus/include/hephaestus/query/QueryComponentsPipeline.hpp:32 | an archetype's tuples are one per entity, and a tuple is among them exactly when it names one of its rows |
| QueryPipeline.JoinMembership | modules/hephaestus/include/hephaestus/query/QueryComponentsPipeline.hpp:28-35 | a tuple is in the join exactly when it names a row of one of the archetypes |
| QueryPipeline.JoinAppend | modules/hephaestus/include/hephaestus/query/QueryComponentsPipeline.hpp:28-35 | the join concatenates in order |
| QueryPipeline.FilterArchetypesToSignature | modules/hephaestus/include/hephaestus/query/QueryComponentsPipeline.hpp:12-25 | the filter keeps at most all entries |
| QueryPipeline.FilterMembership | modules/hephaestus/include/hephaestus/query/QueryComponentsPipeline.hpp:20-24 | an archetype is kept exactly when the query key is a subset of its key |
| QueryPipeline.FilterAppend | modules/hephaestus/include/hephaestus/query/QueryComponentsPipeline.hpp:12-25 | the filter keeps map order |
| QueryPipeline.OwnedAppend | modules/hephaestus/include/hephaestus/query/QueryComponentsPipeline.hpp:31-34 | the transform keeps map order |
| QueryPipeline.PipelineAppend | modules/hephaestus/include/hephaestus/query/QueryComponentsPipeline.hpp:27-35 | the output is the kept archetypes' tuples in map order |
| QueryPipeline.PipelineOfOne | modules/hephaestus/include/hephaestus/query/QueryComponentsPipeline.hpp:27-35 | a matching archetype contributes its tuples, a rejected one nothing |
| QueryPipeline.BuildPipeline | modules/hephaestus/include/hephaestus/query/QueryComponentsPipeline.hpp:27-35 | the output length is the kept archetypes' total entity count |
| QueryPipeline.PipelineMembership | modules/hephaestus/include/hephaestus/query/QueryComponentsPipeline.hpp:27-35 | a tuple is output exactly when it names a row of an archetype whose key contains the query key |
| QueryPipeline.EmptyQueryKeepsAll | modules/hephaestus/include/hephaestus/query/QueryComponentsPipeline.hpp:20-24 | a query key without ids keeps every archetype |
| QueryPipeline.UnregisteredQueryMatchesAll | modules/hephaestus/include/hephaestus/query/QueryComponentsPipeline.hpp:18 | an access list with no registered type matches every archetype |
| QueryPipeline.FilterAntitone | modules/hephaestus/include/hephaestus/query/QueryComponentsPipeline.hpp:20-24 | a larger query key keeps no archetype a smaller one drops |
| Queries.Query.constructor | modules/hephaestus/include/hephaestus/query/Query.hpp:37-39 | a new query has no cache and token 0 |
| Queries.Query.Get | modules/hephaestus/include/hephaestus/query/Query.hpp:42-74 | rebuilds exactly when there is no cache or the token differs; a rebuild caches the whole join; otherwise the old cache is returned; the token is recorded and the cache is then clean |
| Queries.Query.SetArchetypes | modules/hephaestus/include/hephaestus/query/Query.hpp:76-81 | replaces the archetypes only; cache and token stay |
| Queries.FirstGetBuilds | modules/hephaestus/include/hephaestus/query/Query.hpp:37-48 | a fresh query's first `get` builds the pipeline, whatever the token |
| Queries.GetTwice | modules/hephaestus/include/hephaestus/query/Query.hpp:58-74 | two `get` calls with one token return the same tuples |
| Queries.GetFiltered | modules/hephaestus/include/hephaestus/query/Query.hpp:60-70 | a query pointed at the filter's output rebuilds to the two-argument pipeline |
| Queries.StaleAfterSetArchetypes | modules/hephaestus/include/hephaestus/query/Query.hpp:76-81 | changing archetypes without a new token returns the old result |
| LegacyQueries.SameTypesSameQuery | modules/hephaestus/include/hephaestus/Query.hpp:32-38 | two type lists naming the same types, in any order and with any repeats, give the same query |
| LegacyQueries.RepeatedTypesIgnored | modules/hephaestus/include/hephaestus/Query.hpp:33-38 | repeating a type does not change the query |
| LegacyQueries.KeepContaining | modules/hephaestus/include/hephaestus/Query.hpp:42-54 | the filter keeps at most all entries |
| LegacyQueries.KeepContainingMembership | modules/hephaestus/include/hephaestus/Query.hpp:42-54 | an archetype is kept exactly when its type list contains every signature type |
| LegacyQueries.EmptySignatureKeepsAll | modules/hephaestus/include/hephaestus/Query.hpp:46-53 | an empty signature keeps every archetype |
| LegacyQueries.GetMembership | modules/hephaestus/include/hephaestus/Query.hpp:41-60 | a tuple is output exactly when it names a row of a kept archetype |
| LegacyQueries.Get | modules/hephaestus/include/hephaestus/Query.hpp:40-60 | the output length is the kept archetypes' total entity count |
| LegacyQueries.KeepContainingAppend | modules/hephaestus/include/hephaestus/Query.hpp:42-54 | the filter keeps map order: filtering two parts of the map one after the other |
| LegacyQueries.GetAppend | modules/hephaestus/include/hephaestus/Query.hpp:40-60 | the tuples of two parts of the map come out one part after the other, so the output follows the map's order |
| Hephaestus.EntityIdAllocator.constructor | modules/hephaestus/src/hephaestus/Hephaestus.cpp:17 | the counter starts at 0 |
| Hephaestus.EntityIdAllocator.GenerateUniqueEntityId | modules/hephaestus/src/hephaestus/Hephaestus.cpp:16-19 | returns the counter, then increments it |
| Hephaestus.GenerateMany | modules/hephaestus/src/hephaestus/Hephaestus.cpp:16-19 | successive ids are 0, 1, 2, …, strictly increasing, never reused |
| Hephaestus.GetTickRate | modules/hephaestus/src/hephaestus/Hephaestus.cpp:14 | the tick rate is always 1 |

## Left out

- `start`, `shutdown`, `tick` and the constructors of `Hephaestus`, `Query` (older) and `ArchetypeQueryContext` only print. Console output is not modelled.
- The `std::hash`-based functors `ArchetypeKeyHash` and `ComponentSignatureHash` are left out: their values are library-defined.
- `std::unordered_map` iteration order is unspecified. The archetype map is a sequence in some fixed iteration order. Which column `create_entity` and `destroy_entity` read as "first" is an arbitrary choice among the columns.
- ComponentSignatures.SignatureTypeId: no colliding pair of type names is exhibited. Ids are hashes modulo 256, so distinct types can share an id, and nothing in the model says otherwise.
- ComponentSignatures.XorChar: `char` is taken as signed. On platforms where it is unsigned the high bits are not flipped for bytes of 128 or more.
- The entity `Entity` and `SystemDependencies` typedefs come from `Common.hpp`, which is not part of this model. `Entity` is an unbounded `nat`.
- Hephaestus.EntityIdAllocator.GenerateUniqueEntityId: the fixed-width counter's wrap-around is not modelled; ids are unbounded naturals.
- Queries.Query.Get: the query's archetypes are held as snapshots (identity and entity count) taken when they are set. In the C++ the query holds references to the live archetypes, so a rebuild sees entities created or destroyed since; here a rebuild sees the counts as of the last `SetArchetypes`.
- LegacyQueries.Get: the map and each archetype's entity count are taken by value when the query is made (`MakeLegacyQuery`). In the C++ the query's context refers to the live map, and `get` returns a lazy view read when it is iterated, so archetypes added to the map and entities created or destroyed since show up there; they do not here.
- Queries.Query.Get: the version token is a `std::uint64_t`, but the model only compares it for equality and takes any natural.
- ArchetypeKeys.TypeCounter.GetComponentTypeId: the C++ counter is a `std::size_t` and could wrap. The model's counter is unbounded, which matters only after 2^64 distinct types.
- Overlap.AreDependenciesOverlapping: completeness is claimed only for lists strictly sorted by type. With a repeated type the walk can miss a write, as `Overlap.RepeatedTypeMissesWrite` shows.
- Archetypes.Archetype.CreateEntity: the invariant is proved only when the call passes exactly the archetype's own types, each once, for a new entity. Other calls break it in the C++ too.
- Archetype values are held by value in the columns. A `std::tuple` of references is modelled as the row it refers to (`QueryPipeline.TupleRef`), or as the row's values (`Archetypes.Archetype.EntityTuples`); aliasing through those references is not modelled.
- The pairwise conflict count and concurrency estimate in the parallel-execution tests are left out: they are test code, not part of the module.
- `std::type_index` is modelled by a natural number per stripped type. `typeid(T).name()` strings are a parameter, since they are chosen by the compiler.
