/**
 * The allocator's state and its invariant.
 *
 * The C allocator keeps two globals next to the heap: `heap_listp`, the
 * prologue's payload address, and `rover`, where the next-fit search
 * starts.  Here they are fields of one explicit state value.
 */
module HeapState {
  import opened Tags
  import opened Options
  import opened MemLib
  import opened BlockList
  import opened Layout

  /** The heap words together with the globals heap_listp and rover. */
  datatype Heap = Heap(mem: seq<Word>, heapListp: int, rover: int)

  /** The region has the prologue, a chain of blocks and the epilogue, within MAX_HEAP. */
  ghost predicate Shaped(h: Heap)
  {
    && Prologue(h.mem)
    && h.heapListp == PROLOGUE_BP
    && WSIZE * |h.mem| <= MAX_HEAP
    && View(h.mem).Some?
  }

  /** The chain of blocks of a well-shaped heap. */
  ghost function Blocks(h: Heap): seq<Block>
    requires View(h.mem).Some?
  {
    View(h.mem).value
  }

  /** `rover` is the payload address of a block or of the epilogue. */
  ghost predicate RoverOk(h: Heap)
    requires Shaped(h)
  {
    IndexOf(Blocks(h), FIRST_BP, h.rover).Some?
  }

  /** The position of `rover` in the chain (`|Blocks(h)|` when it is at the epilogue). */
  ghost function RoverIndex(h: Heap): nat
    requires Shaped(h) && RoverOk(h)
  {
    IndexOf(Blocks(h), FIRST_BP, h.rover).value
  }

  /** The invariant every public operation preserves. */
  ghost predicate Valid(h: Heap)
  {
    && Shaped(h)
    && MinSized(Blocks(h))
    && NoAdjacentFree(Blocks(h))
    && RoverOk(h)
  }

  /** `bp` is the payload address of a block of the chain (not the epilogue). */
  ghost predicate IsBlock(h: Heap, bp: int)
  {
    && Shaped(h)
    && IndexOf(Blocks(h), FIRST_BP, bp).Some?
    && IndexOf(Blocks(h), FIRST_BP, bp).value < |Blocks(h)|
  }

  /** The position of block `bp` in the chain. */
  ghost function Index(h: Heap, bp: int): nat
    requires IsBlock(h, bp)
  {
    IndexOf(Blocks(h), FIRST_BP, bp).value
  }

  /** The allocated blocks, by payload address: the client's view of the heap. */
  ghost function Live(h: Heap): map<int, int>
    requires Shaped(h)
  {
    Allocated(Blocks(h), FIRST_BP)
  }

  /** A well-shaped heap is laid out as its chain says. */
  lemma ShapedLayout(h: Heap)
    requires Shaped(h)
    ensures LaidOut(h.mem, Blocks(h))
    ensures WellSized(Blocks(h))
    ensures WSIZE * |h.mem| == FIRST_BP + Sum(Blocks(h))
  {
    LayoutFacts(h.mem, Blocks(h));
  }

  /** A laid-out region within MAX_HEAP is well shaped, with that chain. */
  lemma LayoutShaped(h: Heap, bs: seq<Block>)
    requires LaidOut(h.mem, bs)
    requires h.heapListp == PROLOGUE_BP
    requires WSIZE * |h.mem| <= MAX_HEAP
    ensures Shaped(h)
    ensures Blocks(h) == bs
  {
    LayoutUnique(h.mem, bs);
  }

  /**
   * A laid-out region whose chain has blocks of at least the minimum size
   * and no two free neighbours, with `rover` at the start of block `r` (or
   * of the epilogue), is a valid heap.
   */
  lemma Rebuilt(h: Heap, bs: seq<Block>, r: nat)
    requires LaidOut(h.mem, bs) && MinSized(bs) && NoAdjacentFree(bs)
    requires h.heapListp == PROLOGUE_BP && WSIZE * |h.mem| <= MAX_HEAP
    requires r <= |bs| && h.rover == Addr(bs, r)
    ensures Valid(h) && Blocks(h) == bs && RoverIndex(h) == r
  {
    LayoutFacts(h.mem, bs);
    LayoutShaped(h, bs);
    IndexOfAddr(bs, FIRST_BP, r);
  }

  /**
   * Every block live both before and after a step keeps the words of its
   * payload (from its payload address up to its footer): the allocator's
   * tag writes never land inside a client's payload.
   */
  ghost predicate PayloadsKept(h: Heap, h': Heap)
    requires Shaped(h) && Shaped(h')
  {
    forall q :: PayloadKept(h, h', q)
  }

  /** The block at `q`, when live before and after, keeps its payload words. */
  ghost predicate PayloadKept(h: Heap, h': Heap, q: int)
    requires Shaped(h) && Shaped(h')
  {
    q in Live(h) && q in Live(h') ==>
      SameWords(h.mem, h'.mem, q / WSIZE, (q + Live(h)[q] - DSIZE) / WSIZE)
  }

  /**
   * A step that rewrites only the words of blocks `lo..hi`, each of them
   * free or no longer live afterwards, keeps every live payload.
   */
  lemma KeptAround(h: Heap, h': Heap, lo: nat, hi: nat)
    requires Shaped(h) && Shaped(h')
    requires lo <= hi <= |Blocks(h)|
    requires forall j :: lo <= j < hi && Blocks(h)[j].alloc ==> Addr(Blocks(h), j) !in Live(h')
    requires SameWords(h.mem, h'.mem, 0, Hdrp(Addr(Blocks(h), lo)) / WSIZE)
    requires SameWords(h.mem, h'.mem, Hdrp(Addr(Blocks(h), hi)) / WSIZE, |h.mem| - 1)
    ensures PayloadsKept(h, h')
  {
    var bs := Blocks(h);
    ShapedLayout(h);
    forall q
      ensures PayloadKept(h, h', q)
    {
      if q in Live(h) && q in Live(h') {
        AllocatedIndex(bs, FIRST_BP, q);
        var k := IndexOf(bs, FIRST_BP, q).value;
        assert q == Addr(bs, k);
        PayloadFrame(h.mem, h'.mem, bs, lo, hi, k);
      }
    }
  }

  /** Two steps that keep payloads keep them together, when the blocks live across both keep their sizes. */
  lemma KeptTrans(h: Heap, h1: Heap, h2: Heap)
    requires Shaped(h) && Shaped(h1) && Shaped(h2)
    requires PayloadsKept(h, h1) && PayloadsKept(h1, h2)
    requires forall q :: q in Live(h) && q in Live(h2) ==> q in Live(h1) && Live(h1)[q] == Live(h)[q]
    ensures PayloadsKept(h, h2)
  {
    forall q
      ensures PayloadKept(h, h2, q)
    {
      if q in Live(h) && q in Live(h2) {
        assert PayloadKept(h, h1, q) && PayloadKept(h1, h2, q);
        SameWordsTrans(h.mem, h1.mem, h2.mem, q / WSIZE, (q + Live(h)[q] - DSIZE) / WSIZE);
      }
    }
  }

  /** Block `bp`'s position, address and address alignment. */
  lemma IsBlockAddr(h: Heap, bp: int)
    requires IsBlock(h, bp)
    ensures bp == Addr(Blocks(h), Index(h, bp))
    ensures bp % DSIZE == 0 && FIRST_BP <= bp
  {
    ShapedLayout(h);
    HeaderRead(h.mem, Blocks(h), Index(h, bp));
  }

  /**
   * The heap invariant spelled out: block sizes are multiples of DSIZE and
   * at least the 16-byte minimum block, every header equals its footer, the blocks tile the region exactly from
   * the prologue to the epilogue, no two neighbours are free, and `rover`
   * is a block start, possibly the epilogue's.
   */
  lemma ValidInvariant(h: Heap)
    requires Valid(h)
    ensures forall k :: 0 <= k < |Blocks(h)| ==> Blocks(h)[k].size % DSIZE == 0 && 2 * DSIZE <= Blocks(h)[k].size
    ensures forall k :: 0 <= k < |Blocks(h)| ==>
              && Readable(h.mem, Hdrp(Addr(Blocks(h), k)))
              && Readable(h.mem, Ftrp(h.mem, Addr(Blocks(h), k)))
              && Get(h.mem, Hdrp(Addr(Blocks(h), k))) == Get(h.mem, Ftrp(h.mem, Addr(Blocks(h), k)))
              && GetSize(Get(h.mem, Hdrp(Addr(Blocks(h), k)))) == Blocks(h)[k].size
    ensures Readable(h.mem, Hdrp(Addr(Blocks(h), |Blocks(h)|)))
    ensures Get(h.mem, Hdrp(Addr(Blocks(h), |Blocks(h)|))) == Pack(0, 1)
    ensures Hdrp(Addr(Blocks(h), |Blocks(h)|)) == WSIZE * (|h.mem| - 1)
    ensures forall k :: 0 <= k < |Blocks(h)| - 1 ==> Blocks(h)[k].alloc || Blocks(h)[k + 1].alloc
    ensures exists k :: 0 <= k <= |Blocks(h)| && h.rover == Addr(Blocks(h), k)
  {
    var bs := Blocks(h);
    ShapedLayout(h);
    forall k | 0 <= k < |bs|
      ensures && Readable(h.mem, Hdrp(Addr(bs, k)))
              && Readable(h.mem, Ftrp(h.mem, Addr(bs, k)))
              && Get(h.mem, Hdrp(Addr(bs, k))) == Get(h.mem, Ftrp(h.mem, Addr(bs, k)))
              && GetSize(Get(h.mem, Hdrp(Addr(bs, k)))) == bs[k].size
    {
      FooterRead(h.mem, bs, k);
      HeaderRead(h.mem, bs, k);
    }
    HeaderRead(h.mem, bs, |bs|);
    assert bs[..|bs|] == bs;
    var r := IndexOf(bs, FIRST_BP, h.rover).value;
    assert h.rover == Addr(bs, r);
  }
}
