/**
 * Sequences of calls to the allocator, with the outcome each sequence
 * has: what next fit does with a freed block, and how freeing turns
 * blocks back into room for the same request.
 */
module Scenarios {
  import opened Tags
  import opened Options
  import opened BlockList
  import opened Layout
  import opened HeapState
  import opened NextFitSearch
  import opened Placement
  import opened Coalescing
  import opened Release
  import opened Allocation

  /**
   * mm_init, allocate(100), allocate(40), free of the first block, then
   * allocate(90).  Freeing the first block merges nothing, so `rover` stays
   * on the free rest of the heap, and the third request is carved from
   * there: it does not get the freed block back, though first fit would
   * have returned it.
   */
  method NextFitAfterFree() returns (a: Option<int>, b: Option<int>, c: Option<int>)
    ensures a == Some(FIRST_BP) && b == Some(FIRST_BP + 112)
    ensures c == Some(FIRST_BP + 112 + 48) && c != a
  {
    var h0 := MmInit();
    assert IndexOf(Blocks(h0), FIRST_BP, h0.rover) == Some(0);
    FirstAt(h0);
    AfterFreeChains();
    var h1, h2, h3, h4;
    h1, a := MallocAt(h0, 100, 0);
    h2, b := MallocAt(h1, 40, 1);
    h3 := FreeAt(h2, FIRST_BP, 0);
    h4, c := MallocAt(h3, 90, 2);
  }

  /** The chains NextFitAfterFree goes through, and where next fit and first fit land on the last one. */
  lemma AfterFreeChains()
    ensures var bs1 := [Block(112, true), Block(CHUNKSIZE - 112, false)];
      var bs2 := [Block(112, true), Block(48, true), Block(CHUNKSIZE - 160, false)];
      var bs3 := [Block(112, false), Block(48, true), Block(CHUNKSIZE - 160, false)];
      && AdjustedSize(100) == 112 && AdjustedSize(40) == 48 && AdjustedSize(90) == 104
      && Replace([Block(CHUNKSIZE, false)], 0, 1, Carve(CHUNKSIZE, 112)) == bs1
      && NextFit(bs1, 1, 48) == Some(1) && Addr(bs1, 1) == FIRST_BP + 112
      && Replace(bs1, 1, 2, Carve(bs1[1].size, 48)) == bs2
      && IndexOf(bs2, FIRST_BP, FIRST_BP) == Some(0) && bs2[0].alloc
      && Freed(bs2, 0) == bs3 && !PrevFree(bs3, 0) && !NextFree(bs3, 0) && Merged(bs3, 0) == bs3
      && NextFit(bs3, 2, 104) == Some(2) && Addr(bs3, 2) == FIRST_BP + 112 + 48
      && FirstFit(bs3, 0, |bs3|, 104) == Some(0)
  {
    var bs1 := [Block(112, true), Block(CHUNKSIZE - 112, false)];
    var bs3 := [Block(112, false), Block(48, true), Block(CHUNKSIZE - 160, false)];
    assert bs1[..1] == [bs1[0]];
    SumSmall(bs1[0], bs1[1], bs1[1]);
    assert bs3[0..1] == [bs3[0]] && bs3[..2] == [bs3[0], bs3[1]];
    SumSmall(bs3[0], bs3[1], bs3[2]);
    NextFitSkipsFreed();
  }

  /**
   * mm_init, allocate(16) twice, free of both blocks, then allocate(32).
   * The second free finds free blocks on both sides (the fourth case of
   * coalesce), so the heap is one free block again, and the 40-byte block
   * for the last request is carved from it without growing the heap.
   */
  method BothNeighboursFree() returns (a: Option<int>, b: Option<int>, c: Option<int>, grown: bool)
    ensures a == Some(FIRST_BP) && b == Some(FIRST_BP + 24)
    ensures c == a && !grown
  {
    var h0 := MmInit();
    assert IndexOf(Blocks(h0), FIRST_BP, h0.rover) == Some(0);
    FirstAt(h0);
    BothFreeChains();
    var h1, h2, h3, h4, h5;
    h1, a := MallocAt(h0, 16, 0);
    h2, b := MallocAt(h1, 16, 1);
    h3 := FreeAt(h2, FIRST_BP, 0);
    h4 := FreeAt(h3, FIRST_BP + 24, 1);
    FirstAt(h4);
    h5, c := MallocAt(h4, 32, 0);
    grown := |h5.mem| != |h4.mem|;
  }

  /** The chains BothNeighboursFree goes through: the second free merges all three blocks. */
  lemma BothFreeChains()
    ensures var bs1 := [Block(24, true), Block(CHUNKSIZE - 24, false)];
      var bs2 := [Block(24, true), Block(24, true), Block(CHUNKSIZE - 48, false)];
      var bs3 := [Block(24, false), Block(24, true), Block(CHUNKSIZE - 48, false)];
      var bs4 := [Block(24, false), Block(24, false), Block(CHUNKSIZE - 48, false)];
      && AdjustedSize(16) == 24 && AdjustedSize(32) == 40
      && Replace([Block(CHUNKSIZE, false)], 0, 1, Carve(CHUNKSIZE, 24)) == bs1
      && NextFit(bs1, 1, 24) == Some(1) && Addr(bs1, 1) == FIRST_BP + 24
      && Replace(bs1, 1, 2, Carve(bs1[1].size, 24)) == bs2
      && IndexOf(bs2, FIRST_BP, FIRST_BP) == Some(0) && bs2[0].alloc
      && Freed(bs2, 0) == bs3 && !PrevFree(bs3, 0) && !NextFree(bs3, 0) && Merged(bs3, 0) == bs3
      && IndexOf(bs3, FIRST_BP, FIRST_BP + 24) == Some(1) && bs3[1].alloc
      && Freed(bs3, 1) == bs4 && PrevFree(bs4, 1) && NextFree(bs4, 1)
      && Merged(bs4, 1) == [Block(CHUNKSIZE, false)]
  {
    var bs1 := [Block(24, true), Block(CHUNKSIZE - 24, false)];
    var bs4 := [Block(24, false), Block(24, false), Block(CHUNKSIZE - 48, false)];
    var bs3 := [Block(24, false), Block(24, true), Block(CHUNKSIZE - 48, false)];
    assert bs1[..1] == [bs1[0]];
    SumSmall(bs1[0], bs1[1], bs1[1]);
    assert bs3[0..1] == [bs3[0]];
    assert bs3[..1] == [bs3[0]];
    SumSmall(bs3[0], bs3[1], bs3[2]);
    assert bs4[0..3] == bs4;
    SumSmall(bs4[0], bs4[1], bs4[2]);
  }

  /** On a heap that is one free block with `rover` on it, next fit picks that block for any request it can hold. */
  lemma FirstAt(h: Heap)
    requires Valid(h) && Blocks(h) == [Block(CHUNKSIZE, false)] && RoverIndex(h) == 0
    ensures forall asize :: 0 < asize <= CHUNKSIZE ==> NextFit(Blocks(h), RoverIndex(h), asize) == Some(0)
  {
  }

  /** mm_malloc when next fit picks block `k`: block `k` is carved and returned. */
  method MallocAt(h: Heap, size: nat, ghost k: nat) returns (h': Heap, r: Option<int>)
    requires Valid(h) && size > 0
    requires NextFit(Blocks(h), RoverIndex(h), AdjustedSize(size)) == Some(k)
    ensures Valid(h') && k < |Blocks(h)| && r == Some(Addr(Blocks(h), k)) && |h'.mem| == |h.mem|
    ensures Blocks(h') == Replace(Blocks(h), k, k + 1, Carve(Blocks(h)[k].size, AdjustedSize(size)))
    ensures RoverIndex(h') == k + 1
  {
    h', r := MmMalloc(h, size);
  }

  /**
   * mm_free of the block at `p`, block `k` of the chain: it is merged with
   * its free neighbours, and `rover` stays where it was when there are none.
   */
  method FreeAt(h: Heap, p: int, ghost k: nat) returns (h': Heap)
    requires Valid(h) && IndexOf(Blocks(h), FIRST_BP, p) == Some(k)
    requires k < |Blocks(h)| && Blocks(h)[k].alloc
    ensures Valid(h') && Blocks(h') == Merged(Freed(Blocks(h), k), k)
    ensures !PrevFree(Freed(Blocks(h), k), k) && !NextFree(Freed(Blocks(h), k), k) ==> RoverIndex(h') == RoverIndex(h)
    ensures PrevFree(Freed(Blocks(h), k), k) || NextFree(Freed(Blocks(h), k), k) ==> RoverIndex(h') == MergeLo(Freed(Blocks(h), k), k)
  {
    ShapedLayout(h);
    AllocatedHas(Blocks(h), FIRST_BP, k);
    h' := MmFree(h, Some(p));
  }

  /**
   * Freeing a block just allocated gives its room back: after
   * allocate(size) and free, whatever the heap held before, the same
   * request is served again without growing the heap.
   */
  method ReuseAfterFree(h: Heap, size: nat) returns (h1: Heap, h3: Heap, r: Option<int>, r2: Option<int>)
    requires Valid(h) && size > 0
    ensures r.None? ==> h1 == h
    ensures r.Some? ==> r2.Some? && |h3.mem| == |h1.mem|
  {
    h1, r := MmMalloc(h, size);
    if r.None? {
      return h1, h1, r, None;
    }
    var h2 := MmFree(h1, r);
    FreedRoom(h1, r.value, AdjustedSize(size));
    NextFitSpec(Blocks(h2), RoverIndex(h2), AdjustedSize(size));
    h3, r2 := MmMalloc(h2, size);
  }

  /**
   * After block `q` of at least `asize` bytes is freed and coalesced, some
   * block of the chain fits `asize`: the merged block holds `q`'s bytes.
   */
  lemma FreedRoom(h: Heap, q: int, asize: int)
    requires Valid(h) && q in Live(h) && asize <= Live(h)[q]
    ensures IsBlock(h, q)
    ensures var k := Index(h, q);
      FirstFit(Merged(Freed(Blocks(h), k), k), 0, |Merged(Freed(Blocks(h), k), k)|, asize).Some?
  {
    var bs := Blocks(h);
    LiveBlock(h, q);
    ShapedLayout(h);
    var k := Index(h, q);
    FreedSpec(bs, k, FIRST_BP);
    var fb := Freed(bs, k);
    MergedSpec(fb, k, FIRST_BP);
    var m := Merged(fb, k);
    assert Fits(m[MergeLo(fb, k)], asize);
  }
}
