/**
  * The growable arena as values. The C arena is a singly linked chain of
  * `ArenaAllocation` nodes; here the chain is the sequence of its blocks
  * in chain order (index 0 is `first`, the final index is `last`), and a
  * pointer into it is a block index and an offset from that block's data.
  * The address the system allocator returned for a block's buffer is kept
  * as `base`, because alignment is decided on real addresses.
  *
  * The functions below define what each arena operation does to the
  * blocks; the imperative class in module Arenas is proved to do exactly
  * that, and the lemmas here state what the source promises about it.
  */
module ArenaSpec {
  import opened Bits
  import opened Wrappers

  /** `u8`. */
  type Byte = b: int | 0 <= b < 256

  /** One `ArenaAllocation`: buffer address, write head, capacity and the
      buffer's bytes. */
  datatype Block = Block(base: nat, head: nat, capacity: nat, data: seq<Byte>)

  /** A pointer handed out by the arena. */
  datatype Ptr = Ptr(block: nat, offset: nat)

  /** What `arena_alloc` leaves behind: the blocks and the returned pointer
      (None for NULL). */
  datatype AllocOutcome = AllocOutcome(blocks: seq<Block>, ptr: Option<Ptr>)

  /** Every buffer holds exactly `capacity` bytes. */
  predicate WellFormed(bs: seq<Block>)
  {
    forall i :: 0 <= i < |bs| ==> |bs[i].data| == bs[i].capacity
  }

  /** No write head has run past its buffer. */
  predicate HeadsInBounds(bs: seq<Block>)
  {
    forall i :: 0 <= i < |bs| ==> bs[i].head <= bs[i].capacity
  }

  function Zeros(n: nat): (z: seq<Byte>)
    ensures |z| == n && forall i :: 0 <= i < n ==> z[i] == 0
  {
    seq(n, _ => 0)
  }

  /** `memset(data + off, 0, size)`. */
  function ZeroRange(data: seq<Byte>, off: nat, size: nat): (d: seq<Byte>)
    requires off + size <= |data|
    ensures |d| == |data|
    ensures forall k :: off <= k < off + size ==> d[k] == 0
    ensures forall k :: 0 <= k < |data| && !(off <= k < off + size) ==> d[k] == data[k]
  {
    data[..off] + Zeros(size) + data[off + size..]
  }

  /** The node `_arena_new_allocation` links in: a zero-filled buffer of
      exactly the requested capacity with head 0. */
  function NewBlock(base: nat, capacity: nat): Block
  {
    Block(base, 0, capacity, Zeros(capacity))
  }

  /** Offset from the block's data of the first DEFAULT_ALIGN-aligned
      address at or after its head. */
  function AlignedOffset(b: Block): (off: nat)
    ensures b.head <= off < b.head + DEFAULT_ALIGN
    ensures (b.base + off) % DEFAULT_ALIGN == 0
    ensures b.base % DEFAULT_ALIGN == 0 ==> off % DEFAULT_ALIGN == 0
    ensures b.base % DEFAULT_ALIGN == 0 && b.head % DEFAULT_ALIGN == 0 ==> off == b.head
  {
    DefaultAlignIsPowerOf2();
    var a := AlignUp(b.base + b.head, DEFAULT_ALIGN);
    var off := a - b.base;
    AlignedDifference(b.base, b.head, a, off);
    off
  }

  lemma AlignedDifference(base: nat, head: nat, a: int, off: int)
    requires base + head <= a < base + head + DEFAULT_ALIGN && a % DEFAULT_ALIGN == 0 && off == a - base
    requires (base + head) % DEFAULT_ALIGN == 0 ==> a == base + head
    ensures head <= off < head + DEFAULT_ALIGN && (base + off) % DEFAULT_ALIGN == 0
    ensures base % DEFAULT_ALIGN == 0 ==> off % DEFAULT_ALIGN == 0
    ensures base % DEFAULT_ALIGN == 0 && head % DEFAULT_ALIGN == 0 ==> off == head
  {
    if base % 8 == 0 {
      DivMod(base, 8);
      DivMod(a, 8);
      ModUnique(a - base, 8, a / 8 - base / 8, 0);
      if head % 8 == 0 {
        DivMod(head, 8);
        ModUnique(base + head, 8, base / 8 + head / 8, 0);
      }
    }
  }

  /** `_arena_allocation_has_capacity_for_size`: the aligned offset plus
      the size stays within the buffer. */
  predicate HasCapacityForSize(b: Block, size: nat, align: nat)
    requires PowerOf2(align) && align < Pow2(64)
  {
    size + (AlignUp(b.base + b.head, align) - b.base) <= b.capacity
  }

  /** The fit test as the arena uses it, with DEFAULT_ALIGN. */
  predicate Fits(b: Block, size: nat)
  {
    DefaultAlignIsPowerOf2();
    HasCapacityForSize(b, size, DEFAULT_ALIGN)
  }

  /** First-fit search from index i on, in chain order. */
  function FirstFitFrom(bs: seq<Block>, size: nat, i: nat): (r: Option<nat>)
    requires i <= |bs|
    ensures r.Some? ==> i <= r.value < |bs| && Fits(bs[r.value], size)
    ensures r.Some? ==> forall j :: i <= j < r.value ==> !Fits(bs[j], size)
    ensures r.None? ==> forall j :: i <= j < |bs| ==> !Fits(bs[j], size)
    decreases |bs| - i
  {
    if i == |bs| then None
    else if Fits(bs[i], size) then Some(i)
    else FirstFitFrom(bs, size, i + 1)
  }

  /** The first block, in chain order, that can hold `size` bytes. */
  function FirstFit(bs: seq<Block>, size: nat): Option<nat>
  {
    FirstFitFrom(bs, size, 0)
  }

  /** What `_arena_allocation_for_size` does: the first fitting block, or
      a new block of exactly `size` bytes appended at the tail. */
  function ChooseBlock(bs: seq<Block>, size: nat, freshBase: nat): (r: (seq<Block>, nat))
    ensures r.1 < |r.0|
  {
    match FirstFit(bs, size)
    case Some(i) => (bs, i)
    case None => (bs + [NewBlock(freshBase, size)], |bs|)
  }

  /** `arena_alloc`: choose a block, then, if the padded request still fits,
      advance its head by padding + size, zero the region and return its
      aligned offset; otherwise return NULL. A request of size 0 that fits
      nowhere would make the C code link a node without data and leave
      `last` stale, so it is excluded. */
  function ArenaAlloc(bs: seq<Block>, size: nat, freshBase: nat): (r: AllocOutcome)
    requires WellFormed(bs)
    requires size > 0 || FirstFit(bs, size).Some?
    ensures WellFormed(r.blocks)
    ensures r.ptr.Some? <==> FirstFit(bs, size).Some? || freshBase % DEFAULT_ALIGN == 0
    ensures r.ptr.Some? ==>
      var p := r.ptr.value;
      && p.block < |r.blocks|
      && (r.blocks[p.block].base + p.offset) % DEFAULT_ALIGN == 0
      && p.offset + size <= r.blocks[p.block].capacity
      && (r.blocks[p.block].base % DEFAULT_ALIGN == 0 ==> p.offset % DEFAULT_ALIGN == 0)
  {
    var (blocks, i) := ChooseBlock(bs, size, freshBase);
    BumpBlock(blocks, i, size)
  }

  /** The second half of `arena_alloc`: if the padded request fits in block
      `i`, advance its head by padding + size and zero the region. */
  function BumpBlock(blocks: seq<Block>, i: nat, size: nat): (r: AllocOutcome)
    requires WellFormed(blocks) && i < |blocks|
    ensures WellFormed(r.blocks) && |r.blocks| == |blocks|
    ensures r.ptr.Some? <==> AlignedOffset(blocks[i]) + size <= blocks[i].capacity
    ensures r.ptr.Some? ==>
      && r.ptr.value == Ptr(i, AlignedOffset(blocks[i]))
      && r.blocks[i].base == blocks[i].base && r.blocks[i].capacity == blocks[i].capacity
  {
    var b := blocks[i];
    var off := AlignedOffset(b);
    var delta := off - b.head;
    if b.head + size + delta <= b.capacity then
      var b' := b.(head := off + size, data := ZeroRange(b.data, off, size));
      AllocOutcome(blocks[i := b'], Some(Ptr(i, off)))
    else
      AllocOutcome(blocks, None)
  }

  /** `arena_reset`: every head back to zero. */
  function ResetHeads(bs: seq<Block>): (r: seq<Block>)
    ensures |r| == |bs|
    ensures forall i :: 0 <= i < |bs| ==> r[i] == bs[i].(head := 0)
  {
    seq(|bs|, i requires 0 <= i < |bs| => bs[i].(head := 0))
  }

  /** `arena_set_head`: overwrite the tail block's head, unchecked. */
  function SetTailHead(bs: seq<Block>, h: nat): (r: seq<Block>)
    requires |bs| >= 1
  {
    bs[|bs| - 1 := bs[|bs| - 1].(head := h)]
  }

  /** `arena_ensure_capacity`: nothing if some block fits, else one new
      block of exactly `capacity` bytes. */
  function EnsureCapacity(bs: seq<Block>, capacity: nat, freshBase: nat): seq<Block>
  {
    if FirstFit(bs, capacity).Some? then bs else bs + [NewBlock(freshBase, capacity)]
  }

  /** Sum of the heads: the bytes in use, as `arena_query_capacity` reports. */
  function Used(bs: seq<Block>): nat
  {
    if bs == [] then 0 else Used(bs[..|bs| - 1]) + bs[|bs| - 1].head
  }
}
