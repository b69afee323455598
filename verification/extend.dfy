/**
 * Growing the heap (extend_heap in mm.c): the region is extended through
 * mem_sbrk, the new space becomes one free block whose header takes the
 * place of the old epilogue, a new epilogue is written in the last word, and
 * the new block is coalesced with a free block before it.
 */
module Extension {
  import opened Tags
  import opened Options
  import opened MemLib
  import opened BlockList
  import opened Layout
  import opened HeapState
  import opened Coalescing

  /** The bytes requested for `words` words: rounded up to an even number of words. */
  function ExtendSize(words: nat): (size: int)
    ensures size % DSIZE == 0
    ensures WSIZE * words <= size < WSIZE * words + DSIZE
  {
    if words % 2 == 1 then (words + 1) * WSIZE else words * WSIZE
  }

  /**
   * The chain after a free block of `size` bytes is appended and coalesced:
   * it joins the last block when that one is free, and is added at the end
   * otherwise.
   */
  function Grown(bs: seq<Block>, size: int): seq<Block>
  {
    if |bs| > 0 && !bs[|bs| - 1].alloc
    then bs[..|bs| - 1] + [Block(bs[|bs| - 1].size + size, false)]
    else bs + [Block(size, false)]
  }

  /** The last block of the grown chain is free and holds at least the new bytes. */
  lemma GrownLast(bs: seq<Block>, size: int)
    requires WellSized(bs)
    ensures var g := Grown(bs, size);
      |g| > 0 && !g[|g| - 1].alloc && g[|g| - 1].size >= size
  {
  }

  /** Coalescing an appended free block gives the grown chain. */
  lemma GrownMerged(bs: seq<Block>, size: int)
    ensures var bs' := bs + [Block(size, false)];
      Merged(bs', |bs|) == Grown(bs, size)
    ensures var bs' := bs + [Block(size, false)];
      MergeLo(bs', |bs|) == |Grown(bs, size)| - 1
  {
    var b := Block(size, false);
    var bs' := bs + [b];
    assert bs'[|bs|] == b;
    assert bs'[..|bs|] == bs;
    if |bs| > 0 && !bs[|bs| - 1].alloc {
      var n := |bs| - 1;
      assert bs'[n..n + 2] == [bs[n], b];
      SumSmall(bs[n], b, b);
      assert bs'[..n] == bs[..n];
      assert bs'[n + 2..] == [];
    } else {
      assert bs'[|bs|..|bs| + 1] == [b];
      SumSmall(b, b, b);
      assert bs'[|bs| + 1..] == [];
    }
  }

  /**
   * The words after extension: `mem1` is `mem` with `size` fresh bytes,
   * `mem2` adds the tags of the new free block over the old epilogue, and
   * `mem3` adds the new epilogue in the last word.  The chain gains one
   * block at its end.
   */
  lemma GrowLayout(mem: seq<Word>, bs: seq<Block>, mem1: seq<Word>, mem2: seq<Word>, mem3: seq<Word>, size: int)
    requires LaidOut(mem, bs)
    requires DSIZE <= size < 0x1_0000_0000 && size % DSIZE == 0
    requires WSIZE * |mem1| == WSIZE * |mem| + size && mem1[..|mem|] == mem
    requires |mem2| == |mem1| && Tiles(mem2, WSIZE * |mem|, [Block(size, false)])
    requires SameWords(mem1, mem2, 0, Hdrp(WSIZE * |mem|) / WSIZE)
    requires |mem3| == |mem2| && SameWords(mem2, mem3, 0, |mem2| - 1) && mem3[|mem3| - 1] == Pack(0, 1)
    ensures LaidOut(mem3, bs + [Block(size, false)])
  {
    var b := Block(size, false);
    LayoutFacts(mem, bs);
    GrowOld(mem, bs, mem1, mem2, mem3);
    GrowNew(mem2, mem3, WSIZE * |mem|, b);
    GrowJoin(mem3, bs, b);
  }

  /** The old chain and the new block after it make up the grown region. */
  lemma GrowJoin(mem3: seq<Word>, bs: seq<Block>, b: Block)
    requires Prologue(mem3) && Epilogue(mem3)
    requires Tiles(mem3, FIRST_BP, bs) && Tiles(mem3, FIRST_BP + Sum(bs), [b])
    requires WSIZE * |mem3| == FIRST_BP + Sum(bs) + b.size
    ensures LaidOut(mem3, bs + [b])
  {
    TilesAppend(mem3, FIRST_BP, bs, [b]);
    SumAppend(bs, [b]);
    SumSmall(b, b, b);
  }

  /** The prologue and the old chain survive the extension. */
  lemma GrowOld(mem: seq<Word>, bs: seq<Block>, mem1: seq<Word>, mem2: seq<Word>, mem3: seq<Word>)
    requires LaidOut(mem, bs)
    requires |mem| <= |mem1| && mem1[..|mem|] == mem
    requires SameWords(mem1, mem2, 0, Hdrp(WSIZE * |mem|) / WSIZE)
    requires |mem3| == |mem2| && |mem| <= |mem2| && SameWords(mem2, mem3, 0, |mem2| - 1)
    ensures Prologue(mem3) && Tiles(mem3, FIRST_BP, bs)
  {
    LayoutFacts(mem, bs);
    OldWords(mem, mem1, mem2, mem3);
    SameWordsWithin(mem, mem3, 0, |mem| - 1, Hdrp(FIRST_BP) / WSIZE, Hdrp(FIRST_BP + Sum(bs)) / WSIZE);
    TilesFrame(mem, mem3, FIRST_BP, bs);
  }

  /** The new block survives the epilogue write after it. */
  lemma GrowNew(mem2: seq<Word>, mem3: seq<Word>, p: int, b: Block)
    requires Tiles(mem2, p, [b]) && p + b.size == WSIZE * |mem2|
    requires |mem3| == |mem2| && SameWords(mem2, mem3, 0, |mem2| - 1)
    ensures Tiles(mem3, p, [b])
  {
    SumSmall(b, b, b);
    SameWordsWithin(mem2, mem3, 0, |mem2| - 1, Hdrp(p) / WSIZE, Hdrp(p + Sum([b])) / WSIZE);
    TilesFrame(mem2, mem3, p, [b]);
  }

  /** The words below the old epilogue survive the extension. */
  lemma OldWords(mem: seq<Word>, mem1: seq<Word>, mem2: seq<Word>, mem3: seq<Word>)
    requires 1 <= |mem| <= |mem1| && mem1[..|mem|] == mem
    requires SameWords(mem1, mem2, 0, Hdrp(WSIZE * |mem|) / WSIZE)
    requires |mem3| == |mem2| && |mem| <= |mem2| && SameWords(mem2, mem3, 0, |mem2| - 1)
    ensures SameWords(mem, mem3, 0, |mem| - 1)
  {
    forall w | 0 <= w < |mem| - 1
      ensures mem3[w] == mem[w]
    {
      assert mem1[..|mem|][w] == mem1[w];
    }
  }

  /**
   * The heap right after the new block is written, before coalescing: a
   * well-shaped heap whose chain has the new free block at its end, with
   * `rover` on it, and the same allocated blocks.
   */
  lemma Appended(h: Heap, h1: Heap, size: int)
    requires Shaped(h) && NoAdjacentFree(Blocks(h))
    requires LaidOut(h1.mem, Blocks(h) + [Block(size, false)])
    requires h1.heapListp == h.heapListp && WSIZE * |h1.mem| <= MAX_HEAP
    requires h1.rover == WSIZE * |h.mem|
    ensures Shaped(h1) && RoverOk(h1)
    ensures Blocks(h1) == Blocks(h) + [Block(size, false)]
    ensures IsBlock(h1, h1.rover) && Index(h1, h1.rover) == |Blocks(h)|
    ensures NoAdjacentFreeExcept(Blocks(h1), |Blocks(h)|)
    ensures Live(h1) == Live(h)
  {
    var bs := Blocks(h);
    var bs' := bs + [Block(size, false)];
    ShapedLayout(h);
    LayoutShaped(h1, bs');
    LayoutFacts(h1.mem, bs');
    assert bs'[..|bs|] == bs;
    IndexOfAddr(bs', FIRST_BP, |bs|);
    assert IndexOf(bs', FIRST_BP, h1.rover) == Some(|bs|);
    assert bs'[|bs| + 1..] == [];
    AllocatedConcat(bs, [Block(size, false)], FIRST_BP);
    assert [Block(size, false)][1..] == [];
    assert Allocated([Block(size, false)], FIRST_BP + Sum(bs)) == map[];
  }

  /**
   * The new space as one free block: its header over the old epilogue, its
   * footer, then PACK(0, 1) in the header slot of the block after it, which
   * is the last word of the region.
   */
  method NewFreeBlock(mem: seq<Word>, ghost bs: seq<Block>, mem1: seq<Word>, bp: int, size: int)
    returns (mem3: seq<Word>)
    requires LaidOut(mem, bs)
    requires DSIZE <= size < 0x1_0000_0000 && size % DSIZE == 0
    requires bp == WSIZE * |mem| && bp % DSIZE == 0
    requires WSIZE * |mem1| == bp + size && mem1[..|mem|] == mem
    ensures |mem3| == |mem1|
    ensures LaidOut(mem3, bs + [Block(size, false)])
    ensures SameWords(mem, mem3, 0, |mem| - 1)
  {
    var mem2 := SetTags(mem1, bp, size, false);
    SetTagsFrame(mem1, bp, size, false, bp + size);
    SetTagsNext(mem1, bp, size, false);
    var last := Hdrp(NextBlkp(mem2, bp));
    assert last == WSIZE * (|mem2| - 1);
    mem3 := Put(mem2, last, Pack(0, 1));
    PutBelow(mem2, last, Pack(0, 1));
    GrowLayout(mem, bs, mem1, mem2, mem3, size);
    LayoutFacts(mem, bs);
    OldWords(mem, mem1, mem2, mem3);
  }

  /** Writing the new block and epilogue touches no word below the old epilogue, so no payload. */
  lemma GrowKept(h: Heap, h1: Heap)
    requires Shaped(h) && Shaped(h1)
    requires |h.mem| <= |h1.mem| && SameWords(h.mem, h1.mem, 0, |h.mem| - 1)
    ensures PayloadsKept(h, h1)
  {
    var bs := Blocks(h);
    ShapedLayout(h);
    EpilogueRead(h.mem, bs);
    KeptAround(h, h1, |bs|, |bs|);
  }

  /**
   * extend_heap(words): asks mem_sbrk for `words` words rounded up to an
   * even count; at least four words, so the new block is at least a
   * minimum block (both callers ask for 1024 words or more).  On refusal nothing changes and the result is NULL (None).
   * Otherwise the new space is one free block coalesced with a free last
   * block; `rover` and the result are the address of the merged block, the
   * last of the chain.
   */
  method ExtendHeap(h: Heap, words: nat) returns (h': Heap, r: Option<int>)
    requires Shaped(h) && MinSized(Blocks(h)) && NoAdjacentFree(Blocks(h))
    requires words >= 2 * DSIZE / WSIZE
    ensures r.None? <==> WSIZE * |h.mem| + ExtendSize(words) > MAX_HEAP
    ensures r.None? ==> h' == h
    ensures r.Some? ==> && Valid(h') && h'.heapListp == h.heapListp
                        && WSIZE * |h'.mem| == WSIZE * |h.mem| + ExtendSize(words)
                        && Blocks(h') == Grown(Blocks(h), ExtendSize(words))
                        && IsBlock(h', r.value) && Index(h', r.value) == |Blocks(h')| - 1
                        && h'.rover == r.value
                        && Live(h') == Live(h)
                        && PayloadsKept(h, h')
  {
    var size := ExtendSize(words);
    var s := Sbrk(h.mem, size);
    if s.None? {
      return h, None;
    }
    var bp := s.value.1;
    var h1 := AppendFree(h, s.value.0, bp, size);
    GrownMerged(Blocks(h), size);
    var h2, q := Coalesce(h1, bp);
    KeptTrans(h, h1, h2);
    h', r := h2, Some(q);
  }

  /**
   * The three tag writes of extend_heap on the region mem_sbrk grew: the
   * new space is a free block at the end of the chain, with `rover` on it.
   */
  method AppendFree(h: Heap, mem1: seq<Word>, bp: int, size: int) returns (h1: Heap)
    requires Shaped(h) && MinSized(Blocks(h)) && NoAdjacentFree(Blocks(h))
    requires 2 * DSIZE <= size < 0x1_0000_0000 && size % DSIZE == 0
    requires bp == WSIZE * |h.mem| && WSIZE * |mem1| == bp + size <= MAX_HEAP && mem1[..|h.mem|] == h.mem
    ensures Shaped(h1) && RoverOk(h1) && h1.heapListp == h.heapListp && h1.rover == bp
    ensures WSIZE * |h1.mem| == bp + size
    ensures Blocks(h1) == Blocks(h) + [Block(size, false)] && MinSized(Blocks(h1))
    ensures IsBlock(h1, bp) && Index(h1, bp) == |Blocks(h)|
    ensures NoAdjacentFreeExcept(Blocks(h1), |Blocks(h)|)
    ensures Live(h1) == Live(h) && PayloadsKept(h, h1)
  {
    ghost var bs := Blocks(h);
    ShapedLayout(h);
    SumWellSized(bs);
    Aligned(FIRST_BP, Sum(bs));
    var mem3 := NewFreeBlock(h.mem, bs, mem1, bp, size);
    h1 := Heap(mem3, h.heapListp, bp);
    Appended(h, h1, size);
    GrowKept(h, h1);
  }
}
