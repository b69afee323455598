/**
 * Freeing a block (mm_free in mm.c): both tags of the block are rewritten
 * with the allocation bit cleared, and the block is coalesced with its free
 * neighbours.
 */
module Release {
  import opened Tags
  import opened Options
  import opened MemLib
  import opened BlockList
  import opened Layout
  import opened HeapState
  import opened Coalescing

  /** The chain with block `k` marked free, its size unchanged. */
  function Freed(bs: seq<Block>, k: nat): (r: seq<Block>)
    requires k < |bs|
    ensures |r| == |bs| && r[k] == Block(bs[k].size, false)
    ensures forall j :: 0 <= j < |bs| && j != k ==> r[j] == bs[j]
  {
    bs[k := Block(bs[k].size, false)]
  }

  /** Two chains whose blocks have the same sizes, position by position. */
  ghost predicate SameSizes(bs: seq<Block>, bs': seq<Block>)
  {
    |bs| == |bs'| && forall j :: 0 <= j < |bs| ==> bs[j].size == bs'[j].size
  }

  /** Chains of the same sizes put their blocks at the same addresses. */
  lemma {:induction false} IndexOfSameSizes(bs: seq<Block>, bs': seq<Block>, p: int, q: int)
    requires SameSizes(bs, bs')
    ensures IndexOf(bs, p, q) == IndexOf(bs', p, q)
    decreases |bs|
  {
    if q != p && bs != [] {
      assert SameSizes(bs[1..], bs'[1..]) by {
        forall j | 0 <= j < |bs| - 1
          ensures bs[1..][j].size == bs'[1..][j].size
        {
          assert bs[1..][j] == bs[j + 1] && bs'[1..][j] == bs'[j + 1];
        }
      }
      IndexOfSameSizes(bs[1..], bs'[1..], p + bs[0].size, q);
    }
  }

  /**
   * Freeing allocated block `k` of a coalesced chain: the chain stays well
   * sized, only the pairs next to block `k` may now both be free, and the
   * block leaves the allocated map.
   */
  lemma FreedSpec(bs: seq<Block>, k: nat, p: int)
    requires WellSized(bs) && NoAdjacentFree(bs)
    requires k < |bs| && bs[k].alloc
    ensures Freed(bs, k) == Replace(bs, k, k + 1, [Block(bs[k].size, false)])
    ensures WellSized(Freed(bs, k)) && SameSizes(bs, Freed(bs, k))
    ensures NoAdjacentFreeExcept(Freed(bs, k), k)
    ensures p + Sum(bs[..k]) in Allocated(bs, p)
    ensures Allocated(Freed(bs, k), p) == Allocated(bs, p) - {p + Sum(bs[..k])}
  {
    var f := Block(bs[k].size, false);
    var r := Freed(bs, k);
    var q := p + Sum(bs[..k]);
    assert r == bs[..k] + [f] + bs[k + 1..];
    assert r[..k] == bs[..k] && r[k + 1..] == bs[k + 1..];
    NoAdjacentFreeSlice(bs, 0, k);
    NoAdjacentFreeSlice(bs, k + 1, |bs|);
    assert bs[0..k] == bs[..k] && bs[k + 1..|bs|] == bs[k + 1..];
    assert bs[k..k + 1] == [bs[k]];
    SumSmall(bs[k], f, f);
    AllocatedSplice(bs, k, k + 1, [f], p);
    assert [bs[k]][1..] == [] && [f][1..] == [];
    assert Allocated([bs[k]], q) == map[q := bs[k].size];
    assert Allocated([f], q) == map[];
    AllocatedHas(bs, p, k);
  }

  /** The heap right after the tags are rewritten, before coalescing. */
  lemma Unmarked(h: Heap, bp: int, h1: Heap)
    requires Valid(h) && IsBlock(h, bp) && Blocks(h)[Index(h, bp)].alloc
    requires LaidOut(h1.mem, Freed(Blocks(h), Index(h, bp)))
    requires |h1.mem| == |h.mem| && h1.heapListp == h.heapListp && h1.rover == h.rover
    ensures Shaped(h1) && RoverOk(h1) && Blocks(h1) == Freed(Blocks(h), Index(h, bp))
    ensures MinSized(Blocks(h1))
    ensures IsBlock(h1, bp) && Index(h1, bp) == Index(h, bp) && !Blocks(h1)[Index(h1, bp)].alloc
    ensures NoAdjacentFreeExcept(Blocks(h1), Index(h1, bp))
    ensures Live(h1) == Live(h) - {bp}
    ensures RoverIndex(h1) == RoverIndex(h)
  {
    var bs, k := Blocks(h), Index(h, bp);
    var bs1 := Freed(bs, k);
    ShapedLayout(h);
    IsBlockAddr(h, bp);
    FreedSpec(bs, k, FIRST_BP);
    LayoutShaped(h1, bs1);
    IndexOfSameSizes(bs, bs1, FIRST_BP, h.rover);
    IndexOfSameSizes(bs, bs1, FIRST_BP, bp);
  }

  /** A live address is the payload address of an allocated block. */
  lemma LiveBlock(h: Heap, bp: int)
    requires Shaped(h) && bp in Live(h)
    ensures IsBlock(h, bp) && Blocks(h)[Index(h, bp)] == Block(Live(h)[bp], true)
  {
    ShapedLayout(h);
    AllocatedIndex(Blocks(h), FIRST_BP, bp);
  }

  /**
   * What mm_free(p) promises for an allocated `p`, `h` being the heap
   * before the call and `h'` the heap after it: the region keeps its length,
   * the chain is block `p` marked free and then merged with its free
   * neighbours, and exactly `p` leaves the allocated map.  With no free
   * neighbour `rover` stays on its block; otherwise it is the merged block.
   * Every block still allocated keeps its payload words.
   */
  ghost predicate Released(h: Heap, p: int, h': Heap)
    requires Valid(h) && Valid(h')
  {
    && IsBlock(h, p)
    && |h'.mem| == |h.mem| && h'.heapListp == h.heapListp
    && Live(h') == Live(h) - {p}
    && PayloadsKept(h, h')
    && var k, fb := Index(h, p), Freed(Blocks(h), Index(h, p));
       && Blocks(h') == Merged(fb, k)
       && (!PrevFree(fb, k) && !NextFree(fb, k) ==> RoverIndex(h') == RoverIndex(h))
       && (PrevFree(fb, k) || NextFree(fb, k) ==> RoverIndex(h') == MergeLo(fb, k))
  }

  /**
   * mm_free(ptr): NULL is ignored.  Otherwise the block's header and footer
   * get the allocation bit cleared and the block is coalesced, with the
   * outcome Released states.
   */
  method MmFree(h: Heap, ptr: Option<int>) returns (h': Heap)
    requires Valid(h)
    requires ptr.Some? ==> ptr.value in Live(h)
    ensures Valid(h')
    ensures ptr.None? ==> h' == h
    ensures ptr.Some? ==> Released(h, ptr.value, h')
    ensures PayloadsKept(h, h')
  {
    if ptr.None? {
      KeptAround(h, h, 0, 0);
      return h;
    }
    var bp := ptr.value;
    ghost var bs := Blocks(h);
    LiveBlock(h, bp);
    ghost var k := Index(h, bp);
    ShapedLayout(h);
    IsBlockAddr(h, bp);
    HeaderRead(h.mem, bs, k);
    SetOneBlock(h.mem, bs, k, false);
    var size := GetSize(Get(h.mem, Hdrp(bp)));
    var mem1 := SetTags(h.mem, bp, size, false);
    FreedSpec(bs, k, FIRST_BP);
    var h1 := Heap(mem1, h.heapListp, h.rover);
    Unmarked(h, bp, h1);
    BlockSpan(h.mem, bs, k);
    SetTagsFrame(h.mem, bp, size, false, Addr(bs, k + 1));
    UnmarkKept(h, h1, k);
    var r;
    h', r := Coalesce(h1, bp);
    KeptTrans(h, h1, h');
  }

  /** Clearing the bit touches only the tags of the block being freed, which is no longer live. */
  lemma UnmarkKept(h: Heap, h1: Heap, k: nat)
    requires Shaped(h) && Shaped(h1)
    requires k < |Blocks(h)| && Addr(Blocks(h), k) !in Live(h1)
    requires SameWords(h.mem, h1.mem, 0, Hdrp(Addr(Blocks(h), k)) / WSIZE)
    requires SameWords(h.mem, h1.mem, Hdrp(Addr(Blocks(h), k + 1)) / WSIZE, |h.mem|)
    ensures PayloadsKept(h, h1)
  {
    var bs := Blocks(h);
    SameWordsWithin(h.mem, h1.mem, Hdrp(Addr(bs, k + 1)) / WSIZE, |h.mem|, Hdrp(Addr(bs, k + 1)) / WSIZE, |h.mem| - 1);
    KeptAround(h, h1, k, k + 1);
  }
}
