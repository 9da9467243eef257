/**
  * The growable arena and the fixed temp arena as objects whose operations
  * update them in place. Each `Arena` method is proved to leave exactly the
  * blocks that the corresponding function of ArenaSpec describes, so the
  * properties proved in ArenaFacts carry over to every call.
  *
  * The system allocator is not part of the model: where the C code calls
  * malloc for a new block's buffer, the caller passes the address malloc
  * would return (`freshBase`).
  */
module Arenas {
  import opened Bits
  import opened Wrappers
  import opened ArenaSpec

  class Arena {
    /** The `first` .. `last` chain of `ArenaAllocation` nodes, in order. */
    var blocks: seq<Block>

    /** The chain is never empty after `arena_init`, and every buffer holds
        `capacity` bytes. */
    predicate Valid()
      reads this
    {
      |blocks| >= 1 && WellFormed(blocks)
    }

    /** `arena_init`: one zero-filled block of `capacity` bytes. */
    constructor Init(capacity: nat, base: nat)
      requires capacity > 0
      ensures Valid()
      ensures blocks == [NewBlock(base, capacity)]
    {
      blocks := [NewBlock(base, capacity)];
    }

    /** `_arena_new_allocation`: link a zero-filled block of exactly
        `capacity` bytes after `last`; it becomes `last`. */
    method NewAllocation(capacity: nat, base: nat) returns (i: nat)
      requires capacity > 0
      modifies this
      ensures blocks == old(blocks) + [NewBlock(base, capacity)]
      ensures i == |old(blocks)| && i < |blocks|
    {
      i := |blocks|;
      blocks := blocks + [NewBlock(base, capacity)];
    }

    /** `_arena_allocation_for_size`: walk the chain from `first` and stop at
        the first block that fits; if none does, append one. */
    method AllocationForSize(size: nat, freshBase: nat) returns (i: nat)
      requires Valid()
      requires size > 0 || FirstFit(blocks, size).Some?
      modifies this
      ensures Valid()
      ensures (blocks, i) == ChooseBlock(old(blocks), size, freshBase)
    {
      i := 0;
      while i < |blocks|
        invariant i <= |blocks|
        invariant FirstFitFrom(blocks, size, i) == FirstFit(blocks, size)
      {
        if Fits(blocks[i], size) {
          return;
        }
        i := i + 1;
      }
      i := NewAllocation(size, freshBase);
    }

    /** `arena_alloc`: pad the chosen block's head to DEFAULT_ALIGN, and if
        the padded request fits, advance the head, zero the region and
        return its position; otherwise NULL ("Arena out of memory"). */
    method Alloc(size: nat, freshBase: nat) returns (p: Option<Ptr>)
      requires Valid()
      requires size > 0 || FirstFit(blocks, size).Some?
      modifies this
      ensures Valid()
      ensures AllocOutcome(blocks, p) == ArenaAlloc(old(blocks), size, freshBase)
    {
      var i := AllocationForSize(size, freshBase);
      ghost var chosen := blocks;
      var b := blocks[i];
      var off := AlignedOffset(b);
      var delta := off - b.head;
      if b.head + size + delta <= b.capacity {
        blocks := blocks[i := b.(head := off + size, data := ZeroRange(b.data, off, size))];
        p := Some(Ptr(i, off));
      } else {
        p := None;
      }
      assert AllocOutcome(blocks, p) == BumpBlock(chosen, i, size);
    }

    /** `arena_realloc`: a fresh allocation; the old region is neither
        reused nor copied. */
    method Realloc(ptr: Option<Ptr>, size: nat, freshBase: nat) returns (p: Option<Ptr>)
      requires Valid()
      requires size > 0 || FirstFit(blocks, size).Some?
      modifies this
      ensures Valid()
      ensures AllocOutcome(blocks, p) == ArenaAlloc(old(blocks), size, freshBase)
    {
      p := Alloc(size, freshBase);
    }

    /** `arena_free`: does nothing. */
    method Free(ptr: Option<Ptr>)
      ensures blocks == old(blocks)
    {
    }

    /** `arena_reset`: walk the chain and set every head to 0. */
    method Reset()
      requires Valid()
      modifies this
      ensures Valid()
      ensures blocks == ResetHeads(old(blocks))
    {
      var i := 0;
      while i < |blocks|
        invariant i <= |blocks| == |old(blocks)|
        invariant forall j :: 0 <= j < i ==> blocks[j] == old(blocks)[j].(head := 0)
        invariant forall j :: i <= j < |blocks| ==> blocks[j] == old(blocks)[j]
      {
        blocks := blocks[i := blocks[i].(head := 0)];
        i := i + 1;
      }
    }

    /** `arena_set_head`: overwrite the head of `last`, unchecked. */
    method SetHead(h: nat)
      requires Valid()
      modifies this
      ensures Valid()
      ensures blocks == SetTailHead(old(blocks), h)
    {
      blocks := blocks[|blocks| - 1 := blocks[|blocks| - 1].(head := h)];
    }

    /** `arena_ensure_capacity`: return if some block fits `capacity`,
        otherwise append a block of exactly that many bytes. */
    method EnsureCapacity(capacity: nat, freshBase: nat)
      requires Valid()
      requires capacity > 0 || FirstFit(blocks, capacity).Some?
      modifies this
      ensures Valid()
      ensures blocks == ArenaSpec.EnsureCapacity(old(blocks), capacity, freshBase)
    {
      var i := 0;
      while i < |blocks|
        invariant i <= |blocks|
        invariant FirstFitFrom(blocks, capacity, i) == FirstFit(blocks, capacity)
      {
        if Fits(blocks[i], capacity) {
          return;
        }
        i := i + 1;
      }
      var _ := NewAllocation(capacity, freshBase);
    }

    /** `arena_query_capacity`: the sum of the heads along the chain. */
    method QueryCapacity() returns (sum: nat)
      ensures sum == Used(blocks)
    {
      sum := 0;
      var i := 0;
      while i < |blocks|
        invariant i <= |blocks|
        invariant sum == Used(blocks[..i])
      {
        assert blocks[..i + 1][..i] == blocks[..i];
        sum := sum + blocks[i].head;
        i := i + 1;
      }
      assert blocks[..i] == blocks;
    }
  }

  /** The fixed-size scratch arena: one buffer and a bump head, no
      alignment and no growth. The buffer's bytes are never read or written
      by the arena itself, so only its address and size are kept. The ghost
      `live` records the (offset, size) regions handed out since the last
      reset. */
  class TempArena {
    const base: nat
    const capacity: nat
    var head: nat
    ghost var live: seq<(nat, nat)>

    /** The head is within the buffer, every live region lies below it, and
        the live regions follow one another without overlapping. */
    ghost predicate Valid()
      reads this
    {
      && head <= capacity
      && (forall k :: 0 <= k < |live| ==> live[k].0 + live[k].1 <= head)
      && (forall j, k :: 0 <= j < k < |live| ==> live[j].0 + live[j].1 <= live[k].0)
    }

    /** `temp_arena_init`: a buffer of `capacity` bytes at `base`, head 0. */
    constructor Init(capacity: nat, base: nat)
      ensures Valid() && this.capacity == capacity && this.base == base
      ensures head == 0 && live == []
    {
      this.base := base;
      this.capacity := capacity;
      head := 0;
      live := [];
    }

    /** `temp_arena_alloc`: the caller must stay within the buffer (the C
        code asserts it); the address at the old head is returned and the
        head advances by exactly `size`. */
    method Alloc(size: nat) returns (p: nat)
      requires Valid() && head + size <= capacity
      modifies this
      ensures Valid()
      ensures p == base + old(head) && head == old(head) + size
      ensures base <= p && p + size <= base + capacity
      ensures live == old(live) + [(old(head), size)]
    {
      p := base + head;
      live := live + [(head, size)];
      head := head + size;
    }

    /** `temp_arena_reset`: head back to 0, all regions released. */
    method Reset()
      modifies this
      ensures Valid() && head == 0 && live == []
    {
      head := 0;
      live := [];
    }
  }
}
