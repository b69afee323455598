/**
 * place: putting an allocation of `asize` bytes into a free block.  The
 * block is split when the rest would make a block of at least the minimum
 * size (2 * DSIZE); otherwise the whole block is handed out.  Either way
 * `rover` moves to the block just after the allocated one.
 */
module Placement {
  import opened Tags
  import opened Options
  import opened MemLib
  import opened BlockList
  import opened Layout
  import opened HeapState

  /**
   * What a free block of `csize` bytes becomes when `asize` bytes are
   * placed in it: an allocated block of `asize` bytes and a free rest, or
   * one allocated block of all `csize` bytes when the rest would be smaller
   * than a minimum block.
   */
  function Carve(csize: int, asize: int): (c: seq<Block>)
    ensures 1 <= |c| <= 2 && c[0].alloc
    ensures |c| == 2 <==> csize - asize >= 2 * DSIZE
  {
    if csize - asize >= 2 * DSIZE then [Block(asize, true), Block(csize - asize, false)]
    else [Block(csize, true)]
  }

  /**
   * The carved blocks cover exactly the free block, are well sized, hand
   * out at least `asize` bytes, and the free rest (if any) is at least a
   * minimum block.
   */
  lemma CarveSpec(csize: int, asize: int)
    requires csize % DSIZE == 0 && asize % DSIZE == 0 && DSIZE <= asize <= csize
    ensures Sum(Carve(csize, asize)) == csize
    ensures WellSized(Carve(csize, asize))
    ensures asize <= Carve(csize, asize)[0].size
    ensures csize - asize >= 2 * DSIZE ==> Carve(csize, asize)[0].size == asize
    ensures csize - asize < 2 * DSIZE ==> Carve(csize, asize)[0].size == csize
    ensures |Carve(csize, asize)| == 2 ==> Carve(csize, asize)[1] == Block(csize - asize, false)
    ensures |Carve(csize, asize)| == 2 ==> 2 * DSIZE <= Carve(csize, asize)[1].size
  {
    if csize - asize >= 2 * DSIZE {
      SumSmall(Block(asize, true), Block(csize - asize, false), Block(asize, true));
    } else {
      SumSmall(Block(csize, true), Block(csize, true), Block(csize, true));
    }
  }

  /**
   * Carving free block `k` keeps the chain's invariants and total size, and
   * the allocated map gains exactly the carved block.
   */
  lemma PlacedChain(bs: seq<Block>, k: nat, asize: int)
    requires k < |bs| && !bs[k].alloc
    requires WellSized(bs) && NoAdjacentFree(bs)
    requires asize % DSIZE == 0 && DSIZE <= asize <= bs[k].size
    ensures var c := Carve(bs[k].size, asize);
      && WellSized(Replace(bs, k, k + 1, c))
      && NoAdjacentFree(Replace(bs, k, k + 1, c))
      && Sum(Replace(bs, k, k + 1, c)) == Sum(bs)
      && |Replace(bs, k, k + 1, c)| == |bs| + |c| - 1
      && k + 1 <= |Replace(bs, k, k + 1, c)|
      && Addr(Replace(bs, k, k + 1, c), k) == Addr(bs, k)
      && Addr(Replace(bs, k, k + 1, c), k + 1) == Addr(bs, k) + c[0].size
  {
    var c := Carve(bs[k].size, asize);
    var a, d := bs[..k], bs[k + 1..];
    var r := Replace(bs, k, k + 1, c);
    CarveSpec(bs[k].size, asize);
    assert bs[k..k + 1] == [bs[k]];
    SumSmall(bs[k], bs[k], bs[k]);
    ReplaceSum(bs, k, k + 1, c);
    ReplaceWellSized(bs, k, k + 1, c);
    NoAdjacentFreeSlice(bs, 0, k);
    NoAdjacentFreeSlice(bs, k + 1, |bs|);
    assert bs[0..k] == a && bs[k + 1..|bs|] == d;
    if d != [] {
      assert d[0] == bs[k + 1];
    }
    NoAdjacentFreeConcat(a, c);
    NoAdjacentFreeConcat(a + c, d);
    assert r[..k] == a;
    assert r[..k + 1] == a + [c[0]];
    SumAppend(a, [c[0]]);
    SumSmall(c[0], c[0], c[0]);
  }

  /** Carving free block `k` (at `q`) adds exactly the allocated block to the allocated map. */
  lemma PlacedAllocated(bs: seq<Block>, k: nat, asize: int, p: int)
    requires k < |bs| && !bs[k].alloc
    requires WellSized(bs)
    requires asize % DSIZE == 0 && DSIZE <= asize <= bs[k].size
    ensures p + Sum(bs[..k]) !in Allocated(bs, p)
    ensures Allocated(Replace(bs, k, k + 1, Carve(bs[k].size, asize)), p)
         == Allocated(bs, p)[p + Sum(bs[..k]) := Carve(bs[k].size, asize)[0].size]
  {
    var c := Carve(bs[k].size, asize);
    var q := p + Sum(bs[..k]);
    CarveSpec(bs[k].size, asize);
    assert bs[k..k + 1] == [bs[k]];
    SumSmall(bs[k], bs[k], bs[k]);
    AllocatedSplice(bs, k, k + 1, c, p);
    assert Allocated([bs[k]], q) == map[];
    if |c| == 2 {
      assert c[1..] == [c[1]];
      assert Allocated([c[1]], q + c[0].size) == map[];
    }
    assert Allocated(c, q) == map[q := c[0].size];
    IndexOfAddr(bs, p, k);
    if q in Allocated(bs, p) {
      AllocatedIndex(bs, p, q);
    }
  }

  /** The split case: the tags of the allocated block, then those of the free rest. */
  method PlaceSplit(mem: seq<Word>, bp: int, asize: int, csize: int, ghost bs: seq<Block>, ghost k: nat)
    returns (mem': seq<Word>, rover: int)
    requires LaidOut(mem, bs)
    requires k < |bs| && bp == Addr(bs, k) && csize == bs[k].size
    requires asize % DSIZE == 0 && DSIZE <= asize && csize - asize >= 2 * DSIZE
    ensures |mem'| == |mem|
    ensures LaidOut(mem', Replace(bs, k, k + 1, [Block(asize, true), Block(csize - asize, false)]))
    ensures rover == bp + asize
    ensures SameWords(mem, mem', 0, Hdrp(Addr(bs, k)) / WSIZE)
    ensures SameWords(mem, mem', Hdrp(Addr(bs, k + 1)) / WSIZE, |mem|)
  {
    SplitSizes(mem, bs, k, asize);
    var m2 := SetTags(mem, bp, asize, true);
    SetTagsFrame(mem, bp, asize, true, bp + asize);
    var next := NextBlkp(m2, bp);
    mem' := SetTags(m2, next, csize - asize, false);
    SetTagsFrame(m2, next, csize - asize, false, Addr(bs, k + 1));
    WriteTwoBlocks(mem, m2, mem', bs, k, bp, next, Addr(bs, k + 1), Block(asize, true), Block(csize - asize, false));
    rover := next;
  }

  /** The whole-block case: the header and footer are marked allocated. */
  method PlaceWhole(mem: seq<Word>, bp: int, csize: int, ghost bs: seq<Block>, ghost k: nat)
    returns (mem': seq<Word>, rover: int)
    requires LaidOut(mem, bs)
    requires k < |bs| && bp == Addr(bs, k) && csize == bs[k].size
    ensures |mem'| == |mem|
    ensures LaidOut(mem', Replace(bs, k, k + 1, [Block(csize, true)]))
    ensures rover == bp + csize
    ensures SameWords(mem, mem', 0, Hdrp(Addr(bs, k)) / WSIZE)
    ensures SameWords(mem, mem', Hdrp(Addr(bs, k + 1)) / WSIZE, |mem|)
  {
    SetOneBlock(mem, bs, k, true);
    BlockSpan(mem, bs, k);
    SetTagsFrame(mem, bp, csize, true, Addr(bs, k + 1));
    mem' := SetTags(mem, bp, csize, true);
    rover := NextBlkp(mem', bp);
  }

  /**
   * place(bp, asize): carves free block `bp` as Carve says, marks the
   * handed-out part allocated and points `rover` at the block after it.
   */
  method Place(h: Heap, bp: int, asize: int) returns (h': Heap)
    requires Valid(h) && IsBlock(h, bp) && !Blocks(h)[Index(h, bp)].alloc
    requires asize % DSIZE == 0 && 2 * DSIZE <= asize <= Blocks(h)[Index(h, bp)].size
    ensures Valid(h') && h'.heapListp == h.heapListp && |h'.mem| == |h.mem|
    ensures Blocks(h') == Replace(Blocks(h), Index(h, bp), Index(h, bp) + 1,
                                  Carve(Blocks(h)[Index(h, bp)].size, asize))
    ensures h'.rover == bp + Carve(Blocks(h)[Index(h, bp)].size, asize)[0].size
    ensures Index(h, bp) + 1 <= |Blocks(h')| && h'.rover == Addr(Blocks(h'), Index(h, bp) + 1)
    ensures bp !in Live(h)
    ensures Live(h') == Live(h)[bp := Carve(Blocks(h)[Index(h, bp)].size, asize)[0].size]
    ensures RoverIndex(h') == Index(h, bp) + 1
    ensures PayloadsKept(h, h')
  {
    ghost var bs, k := Blocks(h), Index(h, bp);
    var mem := h.mem;
    ShapedLayout(h);
    IsBlockAddr(h, bp);
    TagRead(mem, bs, k);
    var csize := GetSize(Get(mem, Hdrp(bp)));
    ghost var c := Carve(bs[k].size, asize);
    var rover: int;
    if csize - asize >= 2 * DSIZE {
      mem, rover := PlaceSplit(mem, bp, asize, csize, bs, k);
      assert c == [Block(asize, true), Block(csize - asize, false)];
    } else {
      mem, rover := PlaceWhole(mem, bp, csize, bs, k);
      assert c == [Block(csize, true)];
    }
    assert LaidOut(mem, Replace(bs, k, k + 1, c)) && rover == bp + c[0].size;
    h' := Heap(mem, h.heapListp, rover);
    Placed(h, bp, asize, h');
  }

  /** The tag writes of place stay inside the free block being carved. */
  lemma PlaceKept(h: Heap, h': Heap, k: nat)
    requires Shaped(h) && Shaped(h')
    requires k < |Blocks(h)| && !Blocks(h)[k].alloc
    requires SameWords(h.mem, h'.mem, 0, Hdrp(Addr(Blocks(h), k)) / WSIZE)
    requires SameWords(h.mem, h'.mem, Hdrp(Addr(Blocks(h), k + 1)) / WSIZE, |h.mem|)
    ensures PayloadsKept(h, h')
  {
    var bs := Blocks(h);
    SameWordsWithin(h.mem, h'.mem, Hdrp(Addr(bs, k + 1)) / WSIZE, |h.mem|, Hdrp(Addr(bs, k + 1)) / WSIZE, |h.mem| - 1);
    KeptAround(h, h', k, k + 1);
  }

  /** The heap after carving block `bp`, with `rover` just past the allocated part, is valid. */
  lemma Placed(h: Heap, bp: int, asize: int, h': Heap)
    requires Valid(h) && IsBlock(h, bp) && !Blocks(h)[Index(h, bp)].alloc
    requires asize % DSIZE == 0 && 2 * DSIZE <= asize <= Blocks(h)[Index(h, bp)].size
    requires LaidOut(h'.mem, Replace(Blocks(h), Index(h, bp), Index(h, bp) + 1,
                                     Carve(Blocks(h)[Index(h, bp)].size, asize)))
    requires |h'.mem| == |h.mem| && h'.heapListp == h.heapListp
    requires h'.rover == bp + Carve(Blocks(h)[Index(h, bp)].size, asize)[0].size
    requires SameWords(h.mem, h'.mem, 0, Hdrp(bp) / WSIZE)
    requires SameWords(h.mem, h'.mem, Hdrp(Addr(Blocks(h), Index(h, bp) + 1)) / WSIZE, |h.mem|)
    ensures Valid(h')
    ensures Blocks(h') == Replace(Blocks(h), Index(h, bp), Index(h, bp) + 1,
                                  Carve(Blocks(h)[Index(h, bp)].size, asize))
    ensures Index(h, bp) + 1 <= |Blocks(h')| && h'.rover == Addr(Blocks(h'), Index(h, bp) + 1)
    ensures RoverIndex(h') == Index(h, bp) + 1
    ensures bp !in Live(h)
    ensures Live(h') == Live(h)[bp := Carve(Blocks(h)[Index(h, bp)].size, asize)[0].size]
    ensures PayloadsKept(h, h')
  {
    var bs, k := Blocks(h), Index(h, bp);
    var c := Carve(bs[k].size, asize);
    var bs' := Replace(bs, k, k + 1, c);
    ShapedLayout(h);
    IsBlockAddr(h, bp);
    PlacedChain(bs, k, asize);
    PlacedAllocated(bs, k, asize, FIRST_BP);
    ReplaceMinSized(bs, k, k + 1, c);
    Rebuilt(h', bs', k + 1);
    PlaceKept(h, h', k);
  }
}
