/**
 * find_fit: the next-fit search.  The scan starts at `rover`, runs to the
 * epilogue, then wraps round from the first block up to `rover`; the first
 * free block large enough is returned, and NULL when there is none.
 *
 * The search is specified on the chain of blocks by FirstFit, the
 * first-fit scan of a range (the older first-fit loop, kept in the source
 * as a comment, is FirstFit over the whole chain), and NextFit, which
 * combines two such scans the way the two loops do.
 */
module NextFitSearch {
  import opened Tags
  import opened Options
  import opened BlockList
  import opened Layout
  import opened HeapState

  /** Block `b` can serve a request of `asize` bytes: it is free and large enough. */
  predicate Fits(b: Block, asize: int)
  {
    !b.alloc && asize <= b.size
  }

  /** The first block of `bs[lo..hi]` that fits, if any. */
  function FirstFit(bs: seq<Block>, lo: nat, hi: nat, asize: int): (r: Option<nat>)
    requires lo <= hi <= |bs|
    ensures r.Some? ==> lo <= r.value < hi && Fits(bs[r.value], asize)
    ensures r.Some? ==> forall j :: lo <= j < r.value ==> !Fits(bs[j], asize)
    ensures r.None? <==> forall j :: lo <= j < hi ==> !Fits(bs[j], asize)
    decreases hi - lo
  {
    if lo == hi then None
    else if Fits(bs[lo], asize) then Some(lo)
    else FirstFit(bs, lo + 1, hi, asize)
  }

  /** Next fit from block `start`: first fit from `start` to the end, else from the front up to `start`. */
  function NextFit(bs: seq<Block>, start: nat, asize: int): Option<nat>
    requires start <= |bs|
  {
    match FirstFit(bs, start, |bs|, asize)
    case Some(k) => Some(k)
    case None => FirstFit(bs, 0, start, asize)
  }

  /**
   * Next fit fails exactly when first fit over the whole chain does, and
   * what it finds fits: the first fitting block at or after `start`, or
   * failing that the first one before it.
   */
  lemma NextFitSpec(bs: seq<Block>, start: nat, asize: int)
    requires start <= |bs|
    ensures NextFit(bs, start, asize).None? <==> FirstFit(bs, 0, |bs|, asize).None?
    ensures NextFit(bs, start, asize).Some? ==> Fits(bs[NextFit(bs, start, asize).value], asize)
    ensures (exists j :: start <= j < |bs| && Fits(bs[j], asize)) ==>
              NextFit(bs, start, asize) == FirstFit(bs, start, |bs|, asize)
    ensures (forall j :: start <= j < |bs| ==> !Fits(bs[j], asize)) ==>
              NextFit(bs, start, asize) == FirstFit(bs, 0, start, asize)
  {
    if FirstFit(bs, 0, |bs|, asize).None? {
      assert forall j :: 0 <= j < |bs| ==> !Fits(bs[j], asize);
    }
  }

  /** Starting at the first block, next fit is first fit. */
  lemma NextFitFromFront(bs: seq<Block>, asize: int)
    ensures NextFit(bs, 0, asize) == FirstFit(bs, 0, |bs|, asize)
  {
  }

  /**
   * Next fit is not first fit, on a chain of a free 112-byte block, an
   * allocated 48-byte block and a free 3936-byte rest with `rover` on the
   * rest: a block size of 104 is carved from the rest, not from the free
   * block at the front that first fit would reuse.  Scenarios.NextFitAfterFree
   * reaches this chain from mm_init by calls to mm_malloc and mm_free.
   */
  lemma NextFitSkipsFreed()
    ensures var bs := [Block(112, false), Block(48, true), Block(3936, false)];
      && NextFit(bs, 2, 104) == Some(2)
      && FirstFit(bs, 0, |bs|, 104) == Some(0)
  {
  }

  /** The first fit in a range is the block that fits after a run of blocks that do not. */
  lemma FirstFitAt(bs: seq<Block>, lo: nat, hi: nat, k: nat, asize: int)
    requires lo <= k < hi <= |bs|
    requires forall j :: lo <= j < k ==> !Fits(bs[j], asize)
    requires Fits(bs[k], asize)
    ensures FirstFit(bs, lo, hi, asize) == Some(k)
  {
  }

  /** The payload address of a block found by position, or NULL. */
  function AddrOf(bs: seq<Block>, k: Option<nat>): Option<int>
    requires k.Some? ==> k.value <= |bs|
  {
    match k
    case None => None
    case Some(i) => Some(Addr(bs, i))
  }

  /**
   * find_fit(asize): the two loops, walking the chain with NEXT_BLKP from
   * `rover` to the epilogue (size 0), then from the first block until
   * `rover` is reached again.
   */
  method FindFit(h: Heap, asize: int) returns (r: Option<int>)
    requires Valid(h)
    ensures NextFit(Blocks(h), RoverIndex(h), asize).Some? ==> NextFit(Blocks(h), RoverIndex(h), asize).value <= |Blocks(h)|
    ensures r == AddrOf(Blocks(h), NextFit(Blocks(h), RoverIndex(h), asize))
    ensures r.None? <==> forall k :: 0 <= k < |Blocks(h)| ==> !Fits(Blocks(h)[k], asize)
    ensures r.Some? ==> IsBlock(h, r.value) && Fits(Blocks(h)[Index(h, r.value)], asize)
    ensures r.Some? ==> Index(h, r.value) == NextFit(Blocks(h), RoverIndex(h), asize).value
  {
    ghost var bs := Blocks(h);
    ghost var start := RoverIndex(h);
    ShapedLayout(h);
    NextFitSpec(bs, start, asize);
    r := ScanToEnd(h.mem, bs, start, h.rover, asize);
    if r.None? {
      r := ScanFront(h.mem, bs, start, h.heapListp, h.rover, asize);
    }
    if r.Some? {
      Found(h, bs, NextFit(bs, start, asize).value);
    }
  }

  /** The first loop: from block `start` (at `rover`) up to the epilogue. */
  method ScanToEnd(mem: seq<Word>, ghost bs: seq<Block>, ghost start: nat, rover: int, asize: int) returns (r: Option<int>)
    requires LaidOut(mem, bs)
    requires start <= |bs| && rover == Addr(bs, start)
    ensures r == AddrOf(bs, FirstFit(bs, start, |bs|, asize))
  {
    var bp := rover;
    ghost var k := start;
    TagRead(mem, bs, k);
    while GetSize(Get(mem, Hdrp(bp))) > 0
      invariant start <= k <= |bs| && bp == Addr(bs, k)
      invariant Readable(mem, Hdrp(bp))
      invariant GetSize(Get(mem, Hdrp(bp))) == if k < |bs| then bs[k].size else 0
      invariant forall j :: start <= j < k ==> !Fits(bs[j], asize)
      decreases |bs| - k
    {
      TagRead(mem, bs, k);
      if GetAlloc(Get(mem, Hdrp(bp))) == 0 && asize <= GetSize(Get(mem, Hdrp(bp))) {
        FirstFitAt(bs, start, |bs|, k, asize);
        return Some(bp);
      }
      bp := NextBlkp(mem, bp);
      k := k + 1;
      TagRead(mem, bs, k);
    }
    TagRead(mem, bs, k);
    return None;
  }

  /** The second loop: from the block after the prologue until `rover` (block `start`). */
  method ScanFront(mem: seq<Word>, ghost bs: seq<Block>, ghost start: nat, heapListp: int, rover: int, asize: int)
    returns (r: Option<int>)
    requires LaidOut(mem, bs) && heapListp == PROLOGUE_BP
    requires start <= |bs| && rover == Addr(bs, start)
    ensures r == AddrOf(bs, FirstFit(bs, 0, start, asize))
  {
    PrologueNext(mem, bs);
    var bp := NextBlkp(mem, heapListp);
    ghost var k := 0;
    while bp != rover
      invariant 0 <= k <= start && bp == Addr(bs, k)
      invariant forall j :: 0 <= j < k ==> !Fits(bs[j], asize)
      decreases start - k
    {
      TagRead(mem, bs, k);
      if GetAlloc(Get(mem, Hdrp(bp))) == 0 && asize <= GetSize(Get(mem, Hdrp(bp))) {
        FirstFitAt(bs, 0, start, k, asize);
        return Some(bp);
      }
      bp := NextBlkp(mem, bp);
      k := k + 1;
    }
    LayoutFacts(mem, bs);
    PrefixSumMonotone(bs, k, start);
    return None;
  }

  /** Block `k` of the chain, found by address. */
  lemma Found(h: Heap, bs: seq<Block>, k: nat)
    requires Shaped(h) && bs == Blocks(h)
    requires k < |bs|
    ensures IsBlock(h, Addr(bs, k)) && Index(h, Addr(bs, k)) == k
  {
    ShapedLayout(h);
    IndexOfAddr(bs, FIRST_BP, k);
  }
}
