/**
  * What the growable arena promises, proved about the functions of
  * ArenaSpec: first-fit block choice, the exact head bump, zeroed regions,
  * pairwise disjoint allocations, usage accounting, reset, pre-growing and
  * the tail-head rollback.
  */
module ArenaFacts {
  import opened Bits
  import opened Wrappers
  import opened ArenaSpec

  /** A region handed out by the arena: block, offset and size. */
  datatype Region = Region(block: nat, offset: nat, size: nat)

  predicate Disjoint(a: Region, b: Region)
  {
    a.block != b.block || a.offset + a.size <= b.offset || b.offset + b.size <= a.offset
  }

  predicate PairwiseDisjoint(rs: seq<Region>)
  {
    forall j, k :: 0 <= j < k < |rs| ==> Disjoint(rs[j], rs[k])
  }

  /** Every region lies below its block's write head. */
  predicate BelowHeads(bs: seq<Block>, rs: seq<Region>)
  {
    forall k :: 0 <= k < |rs| ==> rs[k].block < |bs| && rs[k].offset + rs[k].size <= bs[rs[k].block].head
  }

  /** The block that `arena_alloc` writes into, as it was before the call. */
  function Chosen(bs: seq<Block>, size: nat, freshBase: nat): Block
  {
    var (blocks, i) := ChooseBlock(bs, size, freshBase);
    blocks[i]
  }

  /** Block choice is first-fit: the first fitting block is used and the
      list is not grown; only when none fits is exactly one block, of
      capacity exactly `size` and head 0, appended at the tail. */
  lemma AllocIsFirstFit(bs: seq<Block>, size: nat, freshBase: nat)
    requires WellFormed(bs)
    requires size > 0 || FirstFit(bs, size).Some?
    ensures var r := ArenaAlloc(bs, size, freshBase);
      match FirstFit(bs, size)
      case Some(i) =>
        && |r.blocks| == |bs|
        && r.ptr.Some? && r.ptr.value.block == i
        && forall j :: 0 <= j < i ==> !Fits(bs[j], size)
      case None =>
        && |r.blocks| == |bs| + 1
        && r.blocks[..|bs|] == bs
        && r.blocks[|bs|].base == freshBase && r.blocks[|bs|].capacity == size
        && (forall j :: 0 <= j < |bs| ==> !Fits(bs[j], size))
        && (freshBase % DEFAULT_ALIGN == 0 ==> r.ptr == Some(Ptr(|bs|, 0)) && r.blocks[|bs|].head == size)
  {
    var r := ArenaAlloc(bs, size, freshBase);
    if FirstFit(bs, size).None? {
      assert r.blocks[..|bs|] == bs;
    }
  }

  /** A successful allocation raises the chosen block's head by exactly
      padding + size (the padding is below DEFAULT_ALIGN), zeroes the
      returned region, keeps the rest of that block's bytes, and leaves
      every other block as it was. A failed one changes no existing block. */
  lemma AllocBumpsOnlyChosenHead(bs: seq<Block>, size: nat, freshBase: nat)
    requires WellFormed(bs)
    requires size > 0 || FirstFit(bs, size).Some?
    ensures var r := ArenaAlloc(bs, size, freshBase);
      r.ptr.Some? ==>
        var p := r.ptr.value;
        var b := Chosen(bs, size, freshBase);
        var b' := r.blocks[p.block];
        && b.head <= p.offset < b.head + DEFAULT_ALIGN
        && b'.head == p.offset + size
        && b'.base == b.base && b'.capacity == b.capacity
        && (forall k :: p.offset <= k < p.offset + size ==> b'.data[k] == 0)
        && (forall k :: 0 <= k < b.capacity && !(p.offset <= k < p.offset + size) ==> b'.data[k] == b.data[k])
        && (forall j :: 0 <= j < |bs| && j != p.block ==> r.blocks[j] == bs[j])
    ensures var r := ArenaAlloc(bs, size, freshBase);
      r.ptr.None? ==> r.blocks[..|bs|] == bs
  {
    var r := ArenaAlloc(bs, size, freshBase);
    if FirstFit(bs, size).None? {
      assert ChooseBlock(bs, size, freshBase).0[..|bs|] == bs;
    }
  }

  /** Heads never go down and blocks are never removed or resized. */
  lemma AllocOnlyGrows(bs: seq<Block>, size: nat, freshBase: nat)
    requires WellFormed(bs)
    requires size > 0 || FirstFit(bs, size).Some?
    ensures var r := ArenaAlloc(bs, size, freshBase);
      && |bs| <= |r.blocks| <= |bs| + 1
      && forall j :: 0 <= j < |bs| ==>
           r.blocks[j].head >= bs[j].head && r.blocks[j].base == bs[j].base && r.blocks[j].capacity == bs[j].capacity
  {
    AllocBumpsOnlyChosenHead(bs, size, freshBase);
    var r := ArenaAlloc(bs, size, freshBase);
    if r.ptr.Some? && r.ptr.value.block < |bs| {
      assert Chosen(bs, size, freshBase) == bs[r.ptr.value.block];
    }
    if r.ptr.None? {
      forall j | 0 <= j < |bs| ensures r.blocks[j] == bs[j] {
        assert r.blocks[..|bs|][j] == r.blocks[j];
      }
    }
  }

  /** One allocation keeps the live regions below the heads and disjoint,
      and the new region joins them. */
  lemma {:induction false} AllocKeepsRegionsDisjoint(bs: seq<Block>, rs: seq<Region>, size: nat, freshBase: nat)
    requires WellFormed(bs)
    requires size > 0 || FirstFit(bs, size).Some?
    requires BelowHeads(bs, rs) && PairwiseDisjoint(rs)
    ensures var r := ArenaAlloc(bs, size, freshBase);
      var rs' := if r.ptr.Some? then rs + [Region(r.ptr.value.block, r.ptr.value.offset, size)] else rs;
      BelowHeads(r.blocks, rs') && PairwiseDisjoint(rs')
  {
    var r := ArenaAlloc(bs, size, freshBase);
    AllocOnlyGrows(bs, size, freshBase);
    AllocBumpsOnlyChosenHead(bs, size, freshBase);
    if r.ptr.Some? {
      var p := r.ptr.value;
      var nr := Region(p.block, p.offset, size);
      var rs' := rs + [nr];
      if p.block < |bs| {
        assert Chosen(bs, size, freshBase) == bs[p.block];
      }
      forall k | 0 <= k < |rs| ensures Disjoint(rs[k], nr) {
        if rs[k].block == p.block {
          assert rs[k].offset + rs[k].size <= bs[p.block].head;
        }
      }
      forall j, k | 0 <= j < k < |rs'| ensures Disjoint(rs'[j], rs'[k]) {
        if k == |rs| { assert rs'[k] == nr; } else { assert rs'[j] == rs[j] && rs'[k] == rs[k]; }
      }
      forall k | 0 <= k < |rs'|
        ensures rs'[k].block < |r.blocks| && rs'[k].offset + rs'[k].size <= r.blocks[rs'[k].block].head
      {
        if k < |rs| { assert rs'[k] == rs[k]; }
      }
    }
  }

  /** One allocation together with the record of live regions: the region
      it returns, if any, joins them, and they stay disjoint. */
  function Step(bs: seq<Block>, size: nat, freshBase: nat, live: seq<Region>): (r: (seq<Block>, seq<Region>))
    requires WellFormed(bs)
    requires size > 0 || FirstFit(bs, size).Some?
    ensures WellFormed(r.0) && |r.0| >= |bs|
    ensures BelowHeads(bs, live) && PairwiseDisjoint(live) ==> BelowHeads(r.0, r.1) && PairwiseDisjoint(r.1)
  {
    var r := ArenaAlloc(bs, size, freshBase);
    var live' := if r.ptr.Some? then live + [Region(r.ptr.value.block, r.ptr.value.offset, size)] else live;
    AllocOnlyGrows(bs, size, freshBase);
    if BelowHeads(bs, live) && PairwiseDisjoint(live) then
      AllocKeepsRegionsDisjoint(bs, live, size, freshBase);
      (r.blocks, live')
    else
      (r.blocks, live')
  }

  /** Successive allocations from one arena, with no reset or set_head in
      between: the final blocks and the live regions after each request
      (a request answered with NULL adds no region). */
  function Allocations(bs: seq<Block>, sizes: seq<nat>, bases: seq<nat>, live: seq<Region>): (r: (seq<Block>, seq<Region>))
    requires WellFormed(bs) && Admissible(bs, sizes, bases)
    ensures WellFormed(r.0) && |r.0| >= |bs|
    decreases |sizes|
  {
    if sizes == [] then (bs, live)
    else
      AdmissibleTail(bs, sizes, bases, live);
      var s := Step(bs, sizes[0], bases[0], live);
      Allocations(s.0, sizes[1..], bases[1..], s.1)
  }

  /** A request sequence `arena_alloc` serves from `bs` on: one fresh base
      per size, and a request of size 0 only when some block already fits
      it (a size-0 request that fits nowhere is the excluded case of
      ArenaAlloc). */
  predicate Admissible(bs: seq<Block>, sizes: seq<nat>, bases: seq<nat>)
    requires WellFormed(bs)
    decreases |sizes|
  {
    && |bases| == |sizes|
    && (sizes != [] ==>
         && (sizes[0] > 0 || FirstFit(bs, sizes[0]).Some?)
         && Admissible(ArenaAlloc(bs, sizes[0], bases[0]).blocks, sizes[1..], bases[1..]))
  }

  /** Requests of positive size are admissible from any arena. */
  lemma {:induction false} PositiveRequestsAdmissible(bs: seq<Block>, sizes: seq<nat>, bases: seq<nat>)
    requires WellFormed(bs) && |bases| == |sizes|
    requires forall k :: 0 <= k < |sizes| ==> sizes[k] > 0
    ensures Admissible(bs, sizes, bases)
    decreases |sizes|
  {
    if sizes != [] {
      assert sizes[0] > 0;
      PositiveRequestsAdmissible(ArenaAlloc(bs, sizes[0], bases[0]).blocks, sizes[1..], bases[1..]);
    }
  }

  /** Every fresh base is DEFAULT_ALIGN-aligned, as malloc guarantees. */
  predicate AlignedBases(bases: seq<nat>)
  {
    forall k :: 0 <= k < |bases| ==> bases[k] % DEFAULT_ALIGN == 0
  }

  lemma AdmissibleTail(bs: seq<Block>, sizes: seq<nat>, bases: seq<nat>, live: seq<Region>)
    requires WellFormed(bs) && Admissible(bs, sizes, bases) && sizes != []
    ensures sizes[0] > 0 || FirstFit(bs, sizes[0]).Some?
    ensures Admissible(Step(bs, sizes[0], bases[0], live).0, sizes[1..], bases[1..])
  {
  }

  lemma AlignedBasesTail(bases: seq<nat>)
    requires AlignedBases(bases) && bases != []
    ensures bases[0] % DEFAULT_ALIGN == 0 && AlignedBases(bases[1..])
  {
  }

  /** The regions returned by successive allocations are pairwise disjoint,
      because heads only increase. */
  lemma {:induction false} AllocationsAreDisjoint(bs: seq<Block>, sizes: seq<nat>, bases: seq<nat>, live: seq<Region>)
    requires WellFormed(bs) && Admissible(bs, sizes, bases)
    requires BelowHeads(bs, live) && PairwiseDisjoint(live)
    ensures var r := Allocations(bs, sizes, bases, live);
      BelowHeads(r.0, r.1) && PairwiseDisjoint(r.1)
    decreases |sizes|
  {
    if sizes != [] {
      AdmissibleTail(bs, sizes, bases, live);
      var s := Step(bs, sizes[0], bases[0], live);
      AllocationsAreDisjoint(s.0, sizes[1..], bases[1..], s.1);
    }
  }

  // ---------------------------------------------------------------------
  // The fit test
  // ---------------------------------------------------------------------

  /** A block that fits a request also fits any smaller one. */
  lemma FitsMonotone(b: Block, small: nat, large: nat)
    requires small <= large && Fits(b, large)
    ensures Fits(b, small)
  {
  }

  /** An empty block at an aligned address fits exactly the requests up to
      its capacity, and serves them at offset 0. */
  lemma FitsEmptyBlock(b: Block, size: nat)
    requires b.base % DEFAULT_ALIGN == 0 && b.head == 0
    ensures Fits(b, size) <==> size <= b.capacity
    ensures AlignedOffset(b) == 0
  {
  }

  // ---------------------------------------------------------------------
  // Reset determinism
  // ---------------------------------------------------------------------

  /** Two blocks agree on everything the allocator looks at. */
  predicate SameShape(a: Block, b: Block)
  {
    a.base == b.base && a.head == b.head && a.capacity == b.capacity
  }

  lemma FitsSameShape(a: Block, b: Block, size: nat)
    requires SameShape(a, b)
    ensures Fits(a, size) <==> Fits(b, size)
    ensures AlignedOffset(a) == AlignedOffset(b)
  {
  }

  /** First-fit only depends on the shapes of the blocks it passes. */
  lemma FirstFitSameShape(s1: seq<Block>, s2: seq<Block>, size: nat)
    requires |s1| <= |s2|
    requires forall i :: 0 <= i < |s1| ==> SameShape(s1[i], s2[i])
    ensures FirstFit(s1, size).Some? ==> FirstFit(s2, size) == FirstFit(s1, size)
    ensures FirstFit(s1, size).None? && |s1| < |s2| && Fits(s2[|s1|], size) ==> FirstFit(s2, size) == Some(|s1|)
  {
    forall i | 0 <= i < |s1| ensures Fits(s1[i], size) <==> Fits(s2[i], size) {
      FitsSameShape(s1[i], s2[i], size);
    }
  }

  /** `f` keeps the address and capacity of every block of `bs`. */
  ghost predicate KeepsBlocks(bs: seq<Block>, f: seq<Block>)
  {
    |bs| <= |f| && forall i :: 0 <= i < |bs| ==> f[i].base == bs[i].base && f[i].capacity == bs[i].capacity
  }

  /** Successive allocations never change a block's address or capacity. */
  lemma {:induction false} AllocationsKeepShape(bs: seq<Block>, sizes: seq<nat>, bases: seq<nat>, live: seq<Region>)
    requires WellFormed(bs) && Admissible(bs, sizes, bases)
    ensures KeepsBlocks(bs, Allocations(bs, sizes, bases, live).0)
    decreases |sizes|
  {
    if sizes != [] {
      AdmissibleTail(bs, sizes, bases, live);
      var t := Step(bs, sizes[0], bases[0], live);
      AllocOnlyGrows(bs, sizes[0], bases[0]);
      AllocationsKeepShape(t.0, sizes[1..], bases[1..], t.1);
    }
  }

  /** Two allocation outcomes agree: the same pointer, the same shapes
      where both lists have blocks, and the second list unchanged beyond
      the first. */
  ghost predicate Lockstep(r1: AllocOutcome, r2: AllocOutcome, s2: seq<Block>)
  {
    && r1.ptr.Some? && r1.ptr == r2.ptr
    && |r1.blocks| <= |r2.blocks| == |s2|
    && (forall i :: 0 <= i < |r1.blocks| ==> SameShape(r1.blocks[i], r2.blocks[i]))
    && (forall i :: |r1.blocks| <= i < |s2| ==> r2.blocks[i] == s2[i])
  }

  /** One step of two runs whose block lists have the same shapes, except
      that the second already holds, reset, the block the first appends. */
  lemma AllocSameShape(s1: seq<Block>, s2: seq<Block>, size: nat, base1: nat, base2: nat)
    requires WellFormed(s1) && WellFormed(s2) && base1 % DEFAULT_ALIGN == 0
    requires size > 0 || FirstFit(s1, size).Some?
    requires |s1| <= |s2|
    requires forall i :: 0 <= i < |s1| ==> SameShape(s1[i], s2[i])
    requires FirstFit(s1, size).None? ==>
      |s1| < |s2| && s2[|s1|].base == base1 && s2[|s1|].capacity == size && s2[|s1|].head == 0
    ensures size > 0 || FirstFit(s2, size).Some?
    ensures Lockstep(ArenaAlloc(s1, size, base1), ArenaAlloc(s2, size, base2), s2)
  {
    FirstFitSameShape(s1, s2, size);
    if FirstFit(s1, size).None? {
      AllocSameShapeAppending(s1, s2, size, base1, base2);
    } else {
      AllocSameShapeFitting(s1, s2, size, base1, base2);
    }
  }

  /** The first run appends a block; the second finds its reset copy. */
  lemma AllocSameShapeAppending(s1: seq<Block>, s2: seq<Block>, size: nat, base1: nat, base2: nat)
    requires WellFormed(s1) && WellFormed(s2) && size > 0 && base1 % DEFAULT_ALIGN == 0
    requires |s1| < |s2| && FirstFit(s1, size).None? && FirstFit(s2, size) == Some(|s1|)
    requires forall i :: 0 <= i < |s1| ==> SameShape(s1[i], s2[i])
    requires s2[|s1|].base == base1 && s2[|s1|].capacity == size && s2[|s1|].head == 0
    ensures Lockstep(ArenaAlloc(s1, size, base1), ArenaAlloc(s2, size, base2), s2)
  {
    var r1 := ArenaAlloc(s1, size, base1);
    AllocBumpsOnlyChosenHead(s1, size, base1);
    AllocBumpsOnlyChosenHead(s2, size, base2);
    FitsEmptyBlock(s2[|s1|], size);
    assert r1.blocks[..|s1|] == s1;
  }

  /** Both runs find a fitting block, the same one. */
  lemma AllocSameShapeFitting(s1: seq<Block>, s2: seq<Block>, size: nat, base1: nat, base2: nat)
    requires WellFormed(s1) && WellFormed(s2)
    requires |s1| <= |s2| && FirstFit(s1, size).Some? && FirstFit(s2, size) == FirstFit(s1, size)
    requires forall i :: 0 <= i < |s1| ==> SameShape(s1[i], s2[i])
    ensures Lockstep(ArenaAlloc(s1, size, base1), ArenaAlloc(s2, size, base2), s2)
  {
    AllocBumpsOnlyChosenHead(s1, size, base1);
    AllocBumpsOnlyChosenHead(s2, size, base2);
    var k := FirstFit(s1, size).value;
    FitsSameShape(s1[k], s2[k], size);
  }

  /** `s2` agrees in shape with `s1` and, beyond it, holds with head 0 the
      blocks of `f1`, the list a run from `s1` ends with. */
  ghost predicate Shadows(s1: seq<Block>, s2: seq<Block>, f1: seq<Block>)
  {
    && |s1| <= |s2| == |f1|
    && (forall i :: 0 <= i < |s1| ==> SameShape(s1[i], s2[i]))
    && (forall i :: |s1| <= i < |s2| ==> SameShape(s2[i], f1[i].(head := 0)))
  }

  /** One request of the simulation behind reset determinism: both runs
      return the same region, and the shapes still line up afterwards. */
  lemma ReplayStep(s1: seq<Block>, s2: seq<Block>, size: nat, base1: nat, base2: nat, live: seq<Region>, f1: seq<Block>)
    requires WellFormed(s1) && WellFormed(s2) && base1 % DEFAULT_ALIGN == 0
    requires size > 0 || FirstFit(s1, size).Some?
    requires Shadows(s1, s2, f1)
    requires KeepsBlocks(Step(s1, size, base1, live).0, f1)
    ensures size > 0 || FirstFit(s2, size).Some?
    ensures var t1, t2 := Step(s1, size, base1, live), Step(s2, size, base2, live);
      t1.1 == t2.1 && Shadows(t1.0, t2.0, f1)
  {
    if FirstFit(s1, size).None? {
      AllocIsFirstFit(s1, size, base1);
      assert f1[|s1|].base == base1 && f1[|s1|].capacity == size;
    }
    AllocSameShape(s1, s2, size, base1, base2);
  }

  /** The simulation behind reset determinism: if the second list agrees in
      shape with the first, and beyond it holds, with head 0, exactly the
      blocks the first run goes on to append, both runs return the same
      regions. */
  lemma {:induction false} ReplayAgrees(s1: seq<Block>, s2: seq<Block>, sizes: seq<nat>, bases1: seq<nat>, bases2: seq<nat>, live: seq<Region>)
    requires WellFormed(s1) && WellFormed(s2)
    requires Admissible(s1, sizes, bases1) && AlignedBases(bases1) && |bases2| == |sizes|
    requires Shadows(s1, s2, Allocations(s1, sizes, bases1, live).0)
    ensures Admissible(s2, sizes, bases2)
    ensures Allocations(s1, sizes, bases1, live).1 == Allocations(s2, sizes, bases2, live).1
    decreases |sizes|
  {
    if sizes != [] {
      AdmissibleTail(s1, sizes, bases1, live);
      AlignedBasesTail(bases1);
      var f1 := Allocations(s1, sizes, bases1, live).0;
      var t1, t2 := Step(s1, sizes[0], bases1[0], live), Step(s2, sizes[0], bases2[0], live);
      AllocationsKeepShape(t1.0, sizes[1..], bases1[1..], t1.1);
      ReplayStep(s1, s2, sizes[0], bases1[0], bases2[0], live, f1);
      ReplayAgrees(t1.0, t2.0, sizes[1..], bases1[1..], bases2[1..], t1.1);
    }
  }

  /** `arena_reset` makes allocation repeatable: replaying the same request
      sizes after a second reset returns the same block indices and
      offsets, even though the first run may have appended blocks. */
  lemma ResetDeterminism(bs: seq<Block>, sizes: seq<nat>, bases1: seq<nat>, bases2: seq<nat>)
    requires WellFormed(bs)
    requires Admissible(ResetHeads(bs), sizes, bases1) && AlignedBases(bases1) && |bases2| == |sizes|
    ensures var first := Allocations(ResetHeads(bs), sizes, bases1, []);
      && WellFormed(ResetHeads(first.0))
      && Admissible(ResetHeads(first.0), sizes, bases2)
      && Allocations(ResetHeads(first.0), sizes, bases2, []).1 == first.1
  {
    var s1 := ResetHeads(bs);
    var f1 := Allocations(s1, sizes, bases1, []).0;
    var s2 := ResetHeads(f1);
    AllocationsKeepShape(s1, sizes, bases1, []);
    ReplayAgrees(s1, s2, sizes, bases1, bases2, []);
  }

  // ---------------------------------------------------------------------
  // Usage accounting
  // ---------------------------------------------------------------------

  lemma UsedAppend(bs: seq<Block>, b: Block)
    ensures Used(bs + [b]) == Used(bs) + b.head
  {
    assert (bs + [b])[..|bs|] == bs;
  }

  lemma {:induction false} UsedUpdate(bs: seq<Block>, i: nat, b: Block)
    requires i < |bs|
    ensures Used(bs[i := b]) + bs[i].head == Used(bs) + b.head
    decreases |bs|
  {
    var n := |bs|;
    if i == n - 1 {
      assert bs[i := b][..n - 1] == bs[..n - 1];
    } else {
      assert bs[i := b][..n - 1] == bs[..n - 1][i := b];
      UsedUpdate(bs[..n - 1], i, b);
    }
  }

  lemma {:induction false} UsedAllZero(bs: seq<Block>)
    requires forall i :: 0 <= i < |bs| ==> bs[i].head == 0
    ensures Used(bs) == 0
    decreases |bs|
  {
    if bs != [] { UsedAllZero(bs[..|bs| - 1]); }
  }

  /** `arena_query_capacity` grows by exactly padding + size on a successful
      allocation, whether it reused a block or appended one. */
  lemma AllocUsage(bs: seq<Block>, size: nat, freshBase: nat)
    requires WellFormed(bs)
    requires size > 0 || FirstFit(bs, size).Some?
    ensures var r := ArenaAlloc(bs, size, freshBase);
      r.ptr.Some? ==>
        Used(r.blocks) == Used(bs) + (r.ptr.value.offset - Chosen(bs, size, freshBase).head) + size
  {
    var r := ArenaAlloc(bs, size, freshBase);
    var (blocks, i) := ChooseBlock(bs, size, freshBase);
    if r.ptr.Some? {
      UsedUpdate(blocks, i, r.blocks[i]);
      assert r.blocks == blocks[i := r.blocks[i]];
      if FirstFit(bs, size).None? {
        UsedAppend(bs, NewBlock(freshBase, size));
      }
    }
  }

  /** After `arena_reset` the reported usage is 0 while the blocks, their
      addresses, capacities and bytes stay. */
  lemma ResetReleasesNothing(bs: seq<Block>)
    ensures var r := ResetHeads(bs);
      && Used(r) == 0
      && |r| == |bs|
      && forall i :: 0 <= i < |bs| ==> r[i].base == bs[i].base && r[i].capacity == bs[i].capacity && r[i].data == bs[i].data
  {
    UsedAllZero(ResetHeads(bs));
  }

  /** After a reset, a request up to the first block's capacity is served
      from the first block at offset 0, without appending a block. */
  lemma ResetThenAllocReusesFirstBlock(bs: seq<Block>, size: nat, freshBase: nat)
    requires WellFormed(bs) && |bs| >= 1 && bs[0].base % DEFAULT_ALIGN == 0
    requires size <= bs[0].capacity
    ensures WellFormed(ResetHeads(bs)) && FirstFit(ResetHeads(bs), size) == Some(0)
    ensures var r := ArenaAlloc(ResetHeads(bs), size, freshBase);
      |r.blocks| == |bs| && r.ptr == Some(Ptr(0, 0))
  {
    var rb := ResetHeads(bs);
    assert AlignedOffset(rb[0]) == 0;
  }

  /** After a reset, with malloc's aligned buffers, a request is served
      without growth exactly when some block's capacity is at least its
      size: first-fit looks at every block, and reset emptied them all. */
  lemma ResetThenAllocGrowsOnlyWhenNothingFits(bs: seq<Block>, size: nat, freshBase: nat)
    requires WellFormed(bs)
    requires forall i :: 0 <= i < |bs| ==> bs[i].base % DEFAULT_ALIGN == 0
    ensures WellFormed(ResetHeads(bs))
    ensures FirstFit(ResetHeads(bs), size).Some? <==> exists i :: 0 <= i < |bs| && size <= bs[i].capacity
    ensures (exists i :: 0 <= i < |bs| && size <= bs[i].capacity) ==>
      var r := ArenaAlloc(ResetHeads(bs), size, freshBase);
      |r.blocks| == |bs| && r.ptr.Some? && r.ptr.value.offset == 0
  {
    var rb := ResetHeads(bs);
    forall i | 0 <= i < |bs| ensures Fits(rb[i], size) <==> size <= bs[i].capacity {
      FitsEmptyBlock(rb[i], size);
    }
    if FirstFit(rb, size).Some? {
      var k := FirstFit(rb, size).value;
      FitsEmptyBlock(rb[k], size);
      AllocIsFirstFit(rb, size, freshBase);
    }
  }

  // ---------------------------------------------------------------------
  // Pre-growing and the tail-head rollback
  // ---------------------------------------------------------------------

  /** `arena_ensure_capacity` changes no head; when it had to grow, the new
      block is empty and of exactly the requested capacity. */
  lemma EnsureCapacityKeepsHeads(bs: seq<Block>, capacity: nat, freshBase: nat)
    ensures var r := EnsureCapacity(bs, capacity, freshBase);
      && r[..|bs|] == bs
      && (|r| == |bs| <==> FirstFit(bs, capacity).Some?)
      && (|r| == |bs| + 1 ==> r[|bs|] == NewBlock(freshBase, capacity))
      && Used(r) == Used(bs)
  {
    var r := EnsureCapacity(bs, capacity, freshBase);
    assert r[..|bs|] == bs;
    if |r| != |bs| { UsedAppend(bs, NewBlock(freshBase, capacity)); }
  }

  /** After `arena_ensure_capacity(c)` on aligned memory, some block fits c,
      so the next `arena_alloc(c)` appends no block. */
  lemma EnsureCapacityThenAllocDoesNotGrow(bs: seq<Block>, capacity: nat, base1: nat, base2: nat)
    requires WellFormed(bs) && (capacity > 0 || FirstFit(bs, capacity).Some?)
    requires base1 % DEFAULT_ALIGN == 0
    ensures var e := EnsureCapacity(bs, capacity, base1);
      && WellFormed(e)
      && FirstFit(e, capacity).Some?
      && |ArenaAlloc(e, capacity, base2).blocks| == |e|
      && ArenaAlloc(e, capacity, base2).ptr.Some?
  {
    var e := EnsureCapacity(bs, capacity, base1);
    if FirstFit(bs, capacity).None? {
      assert AlignedOffset(e[|bs|]) == 0;
      assert Fits(e[|bs|], capacity);
      assert FirstFit(e, capacity).Some?;
    }
  }

  /** `arena_set_head` touches only the tail block's head; with a value
      within the tail's capacity it keeps every head in bounds. */
  lemma SetTailHeadOnlyTouchesTail(bs: seq<Block>, h: nat)
    requires |bs| >= 1
    ensures var r := SetTailHead(bs, h);
      && |r| == |bs|
      && r[..|bs| - 1] == bs[..|bs| - 1]
      && r[|bs| - 1].head == h
      && Used(r) + bs[|bs| - 1].head == Used(bs) + h
      && (HeadsInBounds(bs[..|bs| - 1]) && h <= bs[|bs| - 1].capacity ==> HeadsInBounds(r))
  {
    var r := SetTailHead(bs, h);
    assert r[..|bs| - 1] == bs[..|bs| - 1];
    UsedUpdate(bs, |bs| - 1, bs[|bs| - 1].(head := h));
  }

  /** Rolling the tail head back to a value saved before an allocation that
      landed in the tail block restores every head and address: the only
      trace left is the zeroed bytes. */
  lemma SetHeadRollsBackTailAllocation(bs: seq<Block>, size: nat, freshBase: nat)
    requires WellFormed(bs) && |bs| >= 1
    requires size > 0 || FirstFit(bs, size).Some?
    requires FirstFit(bs, size) == Some(|bs| - 1)
    ensures var r := ArenaAlloc(bs, size, freshBase);
      var back := SetTailHead(r.blocks, bs[|bs| - 1].head);
      && |back| == |bs|
      && Used(back) == Used(bs)
      && forall j :: 0 <= j < |bs| ==>
           back[j].head == bs[j].head && back[j].base == bs[j].base && back[j].capacity == bs[j].capacity
  {
    var last := |bs| - 1;
    var b' := TailAllocation(bs, size, freshBase);
    var x := b'.(head := bs[last].head);
    assert SetTailHead(bs[last := b'], bs[last].head) == bs[last := x];
    UsedUpdate(bs, last, x);
  }

  /** When the tail is the first fit, allocation replaces only the tail,
      keeping its address and capacity. */
  lemma TailAllocation(bs: seq<Block>, size: nat, freshBase: nat) returns (b': Block)
    requires WellFormed(bs) && |bs| >= 1
    requires FirstFit(bs, size) == Some(|bs| - 1)
    ensures ArenaAlloc(bs, size, freshBase).blocks == bs[|bs| - 1 := b']
    ensures b'.base == bs[|bs| - 1].base && b'.capacity == bs[|bs| - 1].capacity
  {
    var r := BumpBlock(bs, |bs| - 1, size);
    b' := r.blocks[|bs| - 1];
  }

  /** Every operation keeps all heads within their buffers (set_head only
      when given a value within the tail's capacity). */
  lemma AllocKeepsHeadsInBounds(bs: seq<Block>, size: nat, freshBase: nat)
    requires WellFormed(bs) && HeadsInBounds(bs)
    requires size > 0 || FirstFit(bs, size).Some?
    ensures HeadsInBounds(ArenaAlloc(bs, size, freshBase).blocks)
  {
    AllocBumpsOnlyChosenHead(bs, size, freshBase);
    var r := ArenaAlloc(bs, size, freshBase);
    if r.ptr.None? {
      forall j | 0 <= j < |r.blocks| ensures r.blocks[j].head <= r.blocks[j].capacity {
        if j < |bs| { assert r.blocks[..|bs|][j] == r.blocks[j]; }
      }
    }
  }

  // ---------------------------------------------------------------------
  // A worked example
  // ---------------------------------------------------------------------

  lemma AlignedPlusEight(base: nat)
    requires base % 8 == 0
    ensures (base + 16) % 8 == 0
  {
    DivMod(base, 8);
    ModUnique(base + 16, 8, base / 8 + 2, 0);
  }

  lemma EightBetween(x: int)
    requires 10 <= x <= 16 && x % 8 == 0
    ensures x == 16
  {
    DivMod(x, 8);
  }

  /** An arena created with 64 bytes: a 10-byte request lands at offset 0 of
      the first block; a 60-byte request then does not fit there (aligned
      offset 16 + 60 > 64), so a 60-byte block is appended and serves it at
      offset 0; the usage reported is 10 + 60 = 70 across two blocks. */
  lemma GrowthScenario(base0: nat, base1: nat, base2: nat)
    requires base0 % 8 == 0 && base1 % 8 == 0 && base2 % 8 == 0
    ensures var a0 := [NewBlock(base0, 64)];
      var s1 := ArenaAlloc(a0, 10, base1);
      && s1.ptr == Some(Ptr(0, 0)) && |s1.blocks| == 1 && s1.blocks[0].head == 10
      && var s2 := ArenaAlloc(s1.blocks, 60, base2);
      && s2.ptr == Some(Ptr(1, 0)) && |s2.blocks| == 2
      && s2.blocks[1].capacity == 60
      && Used(s2.blocks) == 70
  {
    var a0 := [NewBlock(base0, 64)];
    assert AlignedOffset(a0[0]) == 0;
    var s1 := ArenaAlloc(a0, 10, base1);
    assert s1.blocks[0].head == 10;
    var b := s1.blocks[0];
    assert AlignedOffset(b) == 16 by {
      DefaultAlignIsPowerOf2();
      AlignedPlusEight(base0);
      var off := AlignedOffset(b);
      assert AlignUp(base0 + 10, DEFAULT_ALIGN) <= base0 + 16;
      EightBetween(off);
    }
    assert !Fits(b, 60);
    assert FirstFit(s1.blocks, 60) == None;
    var s2 := ArenaAlloc(s1.blocks, 60, base2);
    assert AlignedOffset(NewBlock(base2, 60)) == 0;
    assert s2.blocks == [s1.blocks[0], s2.blocks[1]];
    assert s2.blocks[1].head == 60;
    assert Used(s2.blocks) == Used([s1.blocks[0]]) + 60;
  }
}
