/** The ECS module's own state: the entity id allocator and the tick rate. */
module Hephaestus {
  import opened Types

  /** The `static` counter behind `generate_unique_entity_id`. The C++
      `Entity` is a fixed-width unsigned integer; the model's is unbounded. */
  class EntityIdAllocator {
    var nextEntityId: Entity

    /** The counter starts at 0. */
    constructor ()
      ensures nextEntityId == 0
    {
      nextEntityId := 0;
    }

    /** `generate_unique_entity_id`: returns the counter, then bumps it. */
    method GenerateUniqueEntityId() returns (id: Entity)
      modifies this
      ensures id == old(nextEntityId)
      ensures nextEntityId == id + 1
    {
      id := nextEntityId;
      nextEntityId := nextEntityId + 1;
    }
  }

  /** Ids from a fresh allocator are 0, 1, 2, ...: the first is 0, each is one
      more than the one before, and none repeats. */
  method GenerateMany(n: nat) returns (ids: seq<Entity>)
    ensures |ids| == n
    ensures forall k | 0 <= k < n :: ids[k] == k
    ensures forall i, j | 0 <= i < j < n :: ids[i] < ids[j]
  {
    var allocator := new EntityIdAllocator();
    ids := [];
    while |ids| < n
      invariant |ids| <= n
      invariant allocator.nextEntityId == |ids|
      invariant forall k | 0 <= k < |ids| :: ids[k] == k
    {
      var id := allocator.GenerateUniqueEntityId();
      ids := ids + [id];
    }
  }

  /** `get_tick_rate` */
  function GetTickRate(): (r: nat)
    ensures r == 1
  {
    1
  }
}
