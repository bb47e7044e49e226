/** Component types as the ECS sees them. A C++ template argument such as
    `const Position&` is a base type plus qualifiers; `std::remove_cvref_t`
    and `typeid` both see only the base type. */
module Types {

  /** A cv/ref-stripped component type. The natural order on `nat` stands for
      the `std::type_index` order the access lists are sorted by. */
  type TypeId = nat

  /** A template argument: its base type, whether it is `const` once the
      reference is dropped, and whether it is a reference. */
  datatype TypeArg = TypeArg(base: TypeId, isConst: bool, isRef: bool)

  /** An entity handle. Its C++ typedef lives in a header that is not part of
      this model; the allocator hands out consecutive numbers from 0. */
  type Entity = nat

  /** `std::remove_cvref_t<T>` */
  function Normalize(t: TypeArg): (r: TypeArg)
    ensures r.base == t.base && !r.isConst && !r.isRef
  {
    TypeArg(t.base, false, false)
  }

  /** Stripping is idempotent, and two arguments strip to the same type
      exactly when they share their base type: qualifiers are all it drops. */
  lemma NormalizeKernel(t: TypeArg, u: TypeArg)
    ensures Normalize(Normalize(t)) == Normalize(t)
    ensures Normalize(t) == Normalize(u) <==> t.base == u.base
  {
  }
}
