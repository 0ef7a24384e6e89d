/** The allocator of control peer ids: one id per accepted socket, from a counter that saturates. */
module PeerRegistry {
  import opened Prelude

  class Registry {
    var nextId: u64

    constructor ()
      ensures nextId == 1
    {
      nextId := 1;
    }

    method Allocate() returns (id: u64)
      modifies this
      ensures id == old(nextId) && nextId == SaturatingSucc(old(nextId))
    {
      id := nextId;
      nextId := SaturatingSucc(nextId);
    }

    /** A server's life from this state: one id for each socket it accepts. */
    method AllocateAll(sockets: nat) returns (ids: seq<u64>)
      modifies this
      ensures ids == Allocated(old(nextId), sockets)
    {
      ids := [];
      ghost var start := nextId;
      for k := 0 to sockets
        invariant Allocated(start, sockets) == ids + Allocated(nextId, sockets - k)
      {
        assert Allocated(nextId, sockets - k) == [nextId] + Allocated(SaturatingSucc(nextId), sockets - k - 1);
        var id := Allocate();
        ids := ids + [id];
      }
    }
  }

  /** The ids a counter hands out, in order. */
  function Allocated(next: u64, count: nat): seq<u64>
    decreases count
  {
    if count == 0 then [] else [next] + Allocated(SaturatingSucc(next), count - 1)
  }

  lemma {:induction false} AllocatedAt(next: u64, count: nat, k: nat)
    requires k < count
    ensures |Allocated(next, count)| == count
    ensures Allocated(next, count)[k] == if next + k <= U64_MAX then next + k else U64_MAX
    decreases count
  {
    if count > 1 { AllocatedAt(SaturatingSucc(next), count - 1, if k == 0 then 0 else k - 1); }
  }

  ghost predicate Distinct(ids: seq<u64>) { forall i, j :: 0 <= i < j < |ids| ==> ids[i] != ids[j] }

  /** The ids of a server's sockets are pairwise distinct exactly while there are at most 2^64 - 1 of them. */
  lemma AllocatedAreDistinctIff(count: nat)
    ensures Distinct(Allocated(1, count)) <==> count <= U64_MAX
  {
    var ids := Allocated(1, count);
    if count > 0 { AllocatedAt(1, count, 0); }
    forall i, j | 0 <= i < j < |ids| && count <= U64_MAX ensures ids[i] != ids[j] {
      AllocatedAt(1, count, i);
      AllocatedAt(1, count, j);
    }
    if count > U64_MAX {
      AllocatedAt(1, count, U64_MAX - 1);
      AllocatedAt(1, count, U64_MAX);
    }
  }
}
