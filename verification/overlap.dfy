/** Whether two systems' component accesses overlap, so that the systems
    must not run in parallel: some component type is accessed by both and
    written by at least one. */
module Overlap {
  import opened Types
  import opened ComponentAccesses

  /** Two accesses conflict when they touch the same type and one writes it. */
  predicate Conflicting(a: ComponentAccess, b: ComponentAccess)
  {
    a.ty == b.ty && (!a.isReadOnly || !b.isReadOnly)
  }

  /** Some access of `lhs` conflicts with some access of `rhs`. */
  predicate Conflict(lhs: seq<ComponentAccess>, rhs: seq<ComponentAccess>)
  {
    exists i, j | 0 <= i < |lhs| && 0 <= j < |rhs| :: Conflicting(lhs[i], rhs[j])
  }

  /** The merge walk from positions `li` and `ri`, one step per call. */
  function Walk(lhs: seq<ComponentAccess>, rhs: seq<ComponentAccess>, li: nat, ri: nat): (r: bool)
    requires li <= |lhs| && ri <= |rhs|
    ensures r ==> Conflict(lhs, rhs)
    decreases |lhs| - li + |rhs| - ri
  {
    if li == |lhs| || ri == |rhs| then false
    else if lhs[li].ty == rhs[ri].ty then
      if !lhs[li].isReadOnly || !rhs[ri].isReadOnly then
        assert Conflicting(lhs[li], rhs[ri]);
        true
      else Walk(lhs, rhs, li + 1, ri + 1)
    else if lhs[li].ty < rhs[ri].ty then Walk(lhs, rhs, li + 1, ri)
    else Walk(lhs, rhs, li, ri + 1)
  }

  /** `are_dependencies_overlapping`: a merge walk over both lists. On equal
      types it reports a conflict if either side writes, and otherwise steps
      past both; on unequal types it steps past the smaller one. Whatever it
      reports is a real conflict; on lists strictly sorted by type (as
      `make_component_access_signature` yields for systems without repeated
      types) it finds every conflict. */
  method AreDependenciesOverlapping(lhs: seq<ComponentAccess>, rhs: seq<ComponentAccess>) returns (r: bool)
    ensures r == Walk(lhs, rhs, 0, 0)
    ensures r ==> Conflict(lhs, rhs)
    ensures lhs == [] || rhs == [] ==> !r
    ensures StrictlySortedByType(lhs) && StrictlySortedByType(rhs) ==> (r <==> Conflict(lhs, rhs))
  {
    var li, ri := 0, 0;
    while li < |lhs| && ri < |rhs|
      invariant 0 <= li <= |lhs| && 0 <= ri <= |rhs|
      invariant Walk(lhs, rhs, li, ri) == Walk(lhs, rhs, 0, 0)
      invariant StrictlySortedByType(lhs) && StrictlySortedByType(rhs) ==>
        forall i, j | 0 <= i < |lhs| && 0 <= j < |rhs| && (i < li || j < ri) :: !Conflicting(lhs[i], rhs[j])
      decreases |lhs| - li + |rhs| - ri
    {
      if lhs[li].ty == rhs[ri].ty {
        if !lhs[li].isReadOnly || !rhs[ri].isReadOnly {
          return true;
        }
        li, ri := li + 1, ri + 1;
      } else if lhs[li].ty < rhs[ri].ty {
        li := li + 1;
      } else {
        ri := ri + 1;
      }
    }
    return false;
  }

  /** Conflict does not depend on the order of the two systems. */
  lemma ConflictSymmetric(lhs: seq<ComponentAccess>, rhs: seq<ComponentAccess>)
    ensures Conflict(lhs, rhs) <==> Conflict(rhs, lhs)
  {
    if Conflict(lhs, rhs) {
      var i, j :| 0 <= i < |lhs| && 0 <= j < |rhs| && Conflicting(lhs[i], rhs[j]);
      assert Conflicting(rhs[j], lhs[i]);
    }
    if Conflict(rhs, lhs) {
      var j, i :| 0 <= j < |rhs| && 0 <= i < |lhs| && Conflicting(rhs[j], lhs[i]);
      assert Conflicting(lhs[i], rhs[j]);
    }
  }

  /** Read-only access never conflicts: lists that only read do not overlap. */
  lemma ReadersNeverConflict(lhs: seq<ComponentAccess>, rhs: seq<ComponentAccess>)
    requires forall i | 0 <= i < |lhs| :: lhs[i].isReadOnly
    requires forall j | 0 <= j < |rhs| :: rhs[j].isReadOnly
    ensures !Conflict(lhs, rhs)
  {
  }

  /** A writer to a type conflicts with any access to that type. */
  lemma WriterConflicts(lhs: seq<ComponentAccess>, rhs: seq<ComponentAccess>, i: nat, j: nat)
    requires i < |lhs| && j < |rhs| && lhs[i].ty == rhs[j].ty
    requires !lhs[i].isReadOnly
    ensures Conflict(lhs, rhs) && Conflict(rhs, lhs)
  {
    assert Conflicting(lhs[i], rhs[j]);
    assert Conflicting(rhs[j], lhs[i]);
  }

  /** With a type listed twice the walk can miss a write: reading and then
      writing a type, against reading it, pairs the two reads, steps past the
      only right-hand access and stops. */
  lemma RepeatedTypeMissesWrite(v: nat)
    ensures var lhs := [ComponentAccess(v, true), ComponentAccess(v, false)];
            var rhs := [ComponentAccess(v, true)];
            Conflict(lhs, rhs) && !Walk(lhs, rhs, 0, 0)
  {
    var lhs := [ComponentAccess(v, true), ComponentAccess(v, false)];
    var rhs := [ComponentAccess(v, true)];
    assert Conflicting(lhs[1], rhs[0]);
    assert !Walk(lhs, rhs, 1, 1);
  }

  /** Lists with no type in common never conflict, whatever their flags. */
  lemma DisjointTypesNeverConflict(lhs: seq<ComponentAccess>, rhs: seq<ComponentAccess>)
    requires forall i, j | 0 <= i < |lhs| && 0 <= j < |rhs| :: lhs[i].ty != rhs[j].ty
    ensures !Conflict(lhs, rhs)
  {
  }

  /** The access signature of a system whose type list has no repeats is a
      valid input for the complete form of the overlap check. */
  method SystemsOverlap(lhs: seq<TypeArg>, rhs: seq<TypeArg>) returns (r: bool)
    requires !HasDuplicate(lhs) && !HasDuplicate(rhs)
    ensures r <==> Conflict(AccessesOf(lhs), AccessesOf(rhs))
  {
    var a := MakeComponentAccessSignature(lhs);
    var b := MakeComponentAccessSignature(rhs);
    NoDuplicateStrictlySorted(lhs, a);
    NoDuplicateStrictlySorted(rhs, b);
    r := AreDependenciesOverlapping(a, b);
    ConflictPermutation(a, AccessesOf(lhs), b, AccessesOf(rhs));
  }

  /** Conflict depends only on which accesses each side has, not their order. */
  lemma ConflictPermutation(a: seq<ComponentAccess>, a2: seq<ComponentAccess>, b: seq<ComponentAccess>, b2: seq<ComponentAccess>)
    requires multiset(a) == multiset(a2) && multiset(b) == multiset(b2)
    ensures Conflict(a, b) <==> Conflict(a2, b2)
  {
    if Conflict(a, b) {
      var i, j :| 0 <= i < |a| && 0 <= j < |b| && Conflicting(a[i], b[j]);
      assert a[i] in multiset(a2) && b[j] in multiset(b2);
      var i2 :| 0 <= i2 < |a2| && a2[i2] == a[i];
      var j2 :| 0 <= j2 < |b2| && b2[j2] == b[j];
      assert Conflicting(a2[i2], b2[j2]);
    }
    if Conflict(a2, b2) {
      var i, j :| 0 <= i < |a2| && 0 <= j < |b2| && Conflicting(a2[i], b2[j]);
      assert a2[i] in multiset(a) && b2[j] in multiset(b);
      var i2 :| 0 <= i2 < |a| && a[i2] == a2[i];
      var j2 :| 0 <= j2 < |b| && b[j2] == b2[j];
      assert Conflicting(a[i2], b[j2]);
    }
  }
}
