/**
 * Allocation (mm_init and mm_malloc in mm.c): setting up the empty heap,
 * and serving a request by next fit, growing the heap when nothing fits.
 */
module Allocation {
  import opened Tags
  import opened Options
  import opened MemLib
  import opened BlockList
  import opened Layout
  import opened HeapState
  import opened NextFitSearch
  import opened Placement
  import opened Extension

  /** One more than the largest `size_t` value of a 64-bit platform. */
  const SIZE_T_RANGE: int := 0x1_0000_0000_0000_0000

  /**
   * The block size for a request of `size` payload bytes: room for the
   * header and footer, rounded up to the alignment, and never below the
   * 16-byte minimum block.  It is the least such size.
   */
  function AdjustedSize(size: nat): (asize: int)
    ensures asize % DSIZE == 0
    ensures asize >= size + DSIZE && asize >= 2 * DSIZE
    ensures asize < Max(size + DSIZE, 2 * DSIZE) + DSIZE
  {
    if size <= DSIZE then 2 * DSIZE
    else DSIZE * ((size + DSIZE + (DSIZE - 1)) / DSIZE)
  }

  /**
   * The same computation in 64-bit `size_t` arithmetic, as mm_malloc
   * writes it: `size + DSIZE + (DSIZE - 1)` wraps around for the largest
   * requests.
   */
  function AdjustedSizeAsWritten(size: nat): (asize: int)
    requires size < SIZE_T_RANGE
    ensures 0 <= asize < SIZE_T_RANGE && asize % DSIZE == 0
  {
    if size <= DSIZE then 2 * DSIZE
    else DSIZE * (((size + DSIZE + (DSIZE - 1)) % SIZE_T_RANGE) / DSIZE)
  }

  /** Below the top 15 values of `size_t` the wrapped computation agrees with AdjustedSize. */
  lemma AdjustedSizeAgrees(size: nat)
    requires size + DSIZE + (DSIZE - 1) < SIZE_T_RANGE
    ensures AdjustedSizeAsWritten(size) == AdjustedSize(size)
  {
  }

  /**
   * The wrap-around: a request of SIZE_MAX - 7 bytes gets a block size of
   * 0, and one of SIZE_MAX bytes a block size of 8, both below the minimum
   * block and far below the block size the request needs.
   */
  lemma AdjustedSizeWraps()
    ensures AdjustedSizeAsWritten(SIZE_T_RANGE - DSIZE) == 0
    ensures AdjustedSizeAsWritten(SIZE_T_RANGE - 1) == DSIZE
    ensures AdjustedSizeAsWritten(SIZE_T_RANGE - DSIZE) < AdjustedSize(SIZE_T_RANGE - DSIZE)
    ensures AdjustedSizeAsWritten(SIZE_T_RANGE - 1) < AdjustedSize(SIZE_T_RANGE - 1)
  {
  }

  /** Growing by a multiple of DSIZE asks extend_heap for exactly that many bytes. */
  lemma ExtendSizeExact(m: int)
    requires m > 0 && m % DSIZE == 0
    ensures ExtendSize(m / WSIZE) == m
  {
  }

  /** No block of a valid heap is larger than the provider can ever hand out. */
  lemma NoHugeFit(h: Heap, asize: int)
    requires Valid(h) && asize > MAX_HEAP - FIRST_BP
    ensures forall k :: 0 <= k < |Blocks(h)| ==> !Fits(Blocks(h)[k], asize)
    ensures WSIZE * |h.mem| >= FIRST_BP
  {
    var bs := Blocks(h);
    ShapedLayout(h);
    forall k | 0 <= k < |bs|
      ensures !Fits(bs[k], asize)
    {
      RunSpan(h.mem, bs, k, k + 1);
      BlockSpan(h.mem, bs, k);
    }
    SumWellSized(bs);
  }

  /**
   * What mm_malloc(size) promises, `h` being the heap before the call, `h'`
   * the heap after it and `r` the pointer returned.  On NULL nothing
   * changes.  On success the new block is allocated, no other block changes
   * its state or its payload words, and it is at least the adjusted size
   * and less than a whole minimum block more.  When next fit finds block
   * `k`, that block is carved in place and `rover` goes to the block after
   * it; when nothing fits, the heap grows by the larger of the adjusted
   * size and CHUNKSIZE (or NULL is returned when the provider has no room
   * for that), and the last block of the grown chain is carved.
   */
  ghost predicate Malloced(h: Heap, size: nat, h': Heap, r: Option<int>)
    requires Valid(h) && Valid(h')
  {
    var bs, asize := Blocks(h), AdjustedSize(size);
    var fit := NextFit(bs, RoverIndex(h), asize);
    && h'.heapListp == h.heapListp
    && (size == 0 ==> r.None?)
    && (r.None? ==> h' == h)
    && (r.Some? ==> && r.value !in Live(h) && r.value in Live(h')
                    && r.value % DSIZE == 0
                    && Live(h') == Live(h)[r.value := Live(h')[r.value]]
                    && asize <= Live(h')[r.value] < asize + 2 * DSIZE
                    && h'.rover == r.value + Live(h')[r.value]
                    && PayloadsKept(h, h'))
    && (size > 0 && fit.Some? ==>
          && fit.value < |bs|
          && r == Some(Addr(bs, fit.value))
          && |h'.mem| == |h.mem|
          && Blocks(h') == Replace(bs, fit.value, fit.value + 1, Carve(bs[fit.value].size, asize))
          && RoverIndex(h') == fit.value + 1)
    && (size > 0 && fit.None? ==>
          var g := Grown(bs, Max(asize, CHUNKSIZE));
          && (r.None? <==> WSIZE * |h.mem| + Max(asize, CHUNKSIZE) > MAX_HEAP)
          && (r.Some? ==> && WSIZE * |h'.mem| == WSIZE * |h.mem| + Max(asize, CHUNKSIZE)
                          && |g| > 0
                          && Blocks(h') == Replace(g, |g| - 1, |g|, Carve(g[|g| - 1].size, asize))
                          && RoverIndex(h') == |g|))
    && (asize > MAX_HEAP - FIRST_BP ==> r.None?)
  }

  /**
   * mm_malloc(size): NULL (None) for a zero request.  Otherwise the request
   * is adjusted, the next-fit search picks the block, and it is carved by
   * place; when nothing fits, the heap grows by the larger of the adjusted
   * size and CHUNKSIZE, and the new free block is carved.  On NULL nothing
   * changes.  The result is a fresh allocated block of at least the
   * adjusted size, split only when the rest would be a whole block.
   */
  method MmMalloc(h: Heap, size: nat) returns (h': Heap, r: Option<int>)
    requires Valid(h)
    ensures Valid(h') && Malloced(h, size, h', r)
  {
    if size == 0 {
      return h, None;
    }
    var asize := AdjustedSize(size);
    var bp := FindFit(h, asize);
    if bp.Some? {
      h' := MallocFit(h, size, bp.value, Index(h, bp.value));
      return h', bp;
    }
    h', r := MallocGrow(h, size);
  }

  /** The first path of mm_malloc: next fit found block `k` at `bp`, and place carves it. */
  method MallocFit(h: Heap, size: nat, bp: int, ghost k: nat) returns (h': Heap)
    requires Valid(h) && size > 0
    requires NextFit(Blocks(h), RoverIndex(h), AdjustedSize(size)) == Some(k)
    requires IsBlock(h, bp) && Index(h, bp) == k
    ensures Valid(h') && Malloced(h, size, h', Some(bp))
  {
    var asize := AdjustedSize(size);
    NextFitSpec(Blocks(h), RoverIndex(h), asize);
    if asize > MAX_HEAP - FIRST_BP {
      NoHugeFit(h, asize);
    }
    IsBlockAddr(h, bp);
    h' := Serve(h, bp, asize);
  }

  /**
   * The second path of mm_malloc: nothing fits, so the heap grows by
   * MAX(asize, CHUNKSIZE) and the new last block is carved.
   */
  method MallocGrow(h: Heap, size: nat) returns (h': Heap, r: Option<int>)
    requires Valid(h) && size > 0
    requires NextFit(Blocks(h), RoverIndex(h), AdjustedSize(size)).None?
    ensures Valid(h') && Malloced(h, size, h', r)
  {
    var asize := AdjustedSize(size);
    var extendsize := Max(asize, CHUNKSIZE);
    ExtendSizeExact(extendsize);
    ShapedLayout(h);
    GrownLast(Blocks(h), extendsize);
    var h1, e := ExtendHeap(h, extendsize / WSIZE);
    if e.None? {
      return h1, None;
    }
    h' := Serve(h1, e.value, asize);
    KeptTrans(h, h1, h');
    r := e;
  }

  /** place on a fitting free block: it becomes an allocated block of the live map. */
  method Serve(h: Heap, bp: int, asize: int) returns (h': Heap)
    requires Valid(h) && IsBlock(h, bp) && Fits(Blocks(h)[Index(h, bp)], asize)
    requires asize % DSIZE == 0 && asize >= 2 * DSIZE
    ensures Valid(h') && h'.heapListp == h.heapListp && |h'.mem| == |h.mem|
    ensures bp !in Live(h) && bp in Live(h') && bp % DSIZE == 0
    ensures Live(h') == Live(h)[bp := Live(h')[bp]]
    ensures asize <= Live(h')[bp] < asize + 2 * DSIZE
    ensures h'.rover == bp + Live(h')[bp]
    ensures Blocks(h') == Replace(Blocks(h), Index(h, bp), Index(h, bp) + 1, Carve(Blocks(h)[Index(h, bp)].size, asize))
    ensures RoverIndex(h') == Index(h, bp) + 1
    ensures PayloadsKept(h, h')
  {
    ShapedLayout(h);
    IsBlockAddr(h, bp);
    CarveSpec(Blocks(h)[Index(h, bp)].size, asize);
    h' := Place(h, bp, asize);
  }

  /** The four words mm_init writes: padding, the prologue's two tags, the epilogue. */
  lemma InitLayout(mem: seq<Word>)
    requires mem == [0, Pack(DSIZE, 1), Pack(DSIZE, 1), Pack(0, 1)]
    ensures LaidOut(mem, [])
  {
  }

  /**
   * mm_init(): takes four words from the empty region for the padding, the
   * prologue and the epilogue, then grows the heap by CHUNKSIZE bytes.  From
   * an empty region both steps succeed: the heap is one free block of
   * CHUNKSIZE bytes with `rover` on it and nothing allocated.
   */
  method MmInit() returns (h: Heap)
    ensures Valid(h) && h.heapListp == PROLOGUE_BP
    ensures Blocks(h) == [Block(CHUNKSIZE, false)]
    ensures h.rover == FIRST_BP && Live(h) == map[]
    ensures WSIZE * |h.mem| == 2 * DSIZE + CHUNKSIZE
  {
    var s := Sbrk([], 4 * WSIZE);
    var mem, base := s.value.0, s.value.1;
    mem := Put(mem, base + 0 * WSIZE, 0);
    mem := Put(mem, base + 1 * WSIZE, Pack(DSIZE, 1));
    mem := Put(mem, base + 2 * WSIZE, Pack(DSIZE, 1));
    mem := Put(mem, base + 3 * WSIZE, Pack(0, 1));
    var heapListp := base + 2 * WSIZE;
    InitLayout(mem);
    var h0 := Heap(mem, heapListp, 0);
    LayoutShaped(h0, []);
    var h1, e := ExtendHeap(h0, CHUNKSIZE / WSIZE);
    ShapedLayout(h1);
    PrologueNext(h1.mem, Blocks(h1));
    h := Heap(h1.mem, h1.heapListp, NextBlkp(h1.mem, h1.heapListp));
    Rebuilt(h, Blocks(h1), 0);
  }
}
