/**
 * The heap as words, and how the chain of blocks is laid out in them.
 *
 * Addresses are byte offsets from the start of the managed region; word
 * `i` of `mem` holds bytes `4*i .. 4*i+3`.  A block with payload address
 * `bp` and size `s` has its header tag at `bp - 4` and its footer tag at
 * `bp + s - 8`.  The region starts with a padding word and the two tags of
 * the prologue (an allocated block of size 8), then the chain of blocks,
 * and ends with the epilogue header, a size-0 allocated tag in the last word.
 */
module Layout {
  import opened Tags
  import opened Options
  import opened BlockList

  /** Payload address of the prologue block (heap_listp after mm_init). */
  const PROLOGUE_BP: int := 2 * WSIZE

  /** Payload address of the first block after the prologue. */
  const FIRST_BP: int := 4 * WSIZE

  // ---------------------------------------------------------------------
  // Memory access and address arithmetic (GET, PUT, HDRP, FTRP, NEXT_BLKP,
  // PREV_BLKP)
  // ---------------------------------------------------------------------

  /** `p` is the address of a word inside the region. */
  predicate Readable(mem: seq<Word>, p: int)
  {
    0 <= p && p % WSIZE == 0 && p / WSIZE < |mem|
  }

  /** GET(p): the word at address `p`. */
  function Get(mem: seq<Word>, p: int): Word
    requires Readable(mem, p)
  {
    mem[p / WSIZE]
  }

  /** PUT(p, v): the region with the word at `p` replaced by `v`. */
  function Put(mem: seq<Word>, p: int, v: Word): (m: seq<Word>)
    requires Readable(mem, p)
    ensures |m| == |mem|
    ensures Get(m, p) == v
  {
    mem[p / WSIZE := v]
  }

  /** PUT(p, v) leaves the word at any other address `q` alone. */
  lemma PutOther(mem: seq<Word>, p: int, v: Word, q: int)
    requires Readable(mem, p) && Readable(mem, q) && q != p
    ensures Get(Put(mem, p, v), q) == Get(mem, q)
  {
  }

  /** PUT(p, v) leaves every word below `p` alone. */
  lemma PutBelow(mem: seq<Word>, p: int, v: Word)
    requires Readable(mem, p)
    ensures SameWords(mem, Put(mem, p, v), 0, p / WSIZE)
  {
  }

  /** HDRP(bp): address of a block's header. */
  function Hdrp(bp: int): int
  {
    bp - WSIZE
  }

  /** FTRP(bp): address of a block's footer, found from the size in its header. */
  function Ftrp(mem: seq<Word>, bp: int): int
    requires Readable(mem, Hdrp(bp))
  {
    bp + GetSize(Get(mem, Hdrp(bp))) - DSIZE
  }

  /** NEXT_BLKP(bp): payload address of the following block. */
  function NextBlkp(mem: seq<Word>, bp: int): int
    requires Readable(mem, Hdrp(bp))
  {
    bp + GetSize(Get(mem, Hdrp(bp)))
  }

  /** PREV_BLKP(bp): payload address of the preceding block, from its footer. */
  function PrevBlkp(mem: seq<Word>, bp: int): int
    requires Readable(mem, bp - DSIZE)
  {
    bp - GetSize(Get(mem, bp - DSIZE))
  }

  // ---------------------------------------------------------------------
  // The layout of blocks in memory
  // ---------------------------------------------------------------------

  /** Block `b` sits at payload address `p`: both its tags hold (size | alloc). */
  predicate BlockAt(mem: seq<Word>, p: int, b: Block)
  {
    && DSIZE <= b.size < 0x1_0000_0000
    && b.size % DSIZE == 0
    && DSIZE <= p
    && p % DSIZE == 0
    && Readable(mem, Hdrp(p))
    && Readable(mem, p + b.size - DSIZE)
    && Get(mem, Hdrp(p)) == Pack(b.size, Bit(b.alloc))
    && Get(mem, p + b.size - DSIZE) == Pack(b.size, Bit(b.alloc))
  }

  /** The blocks `bs` lie back to back in memory from payload address `p` on. */
  ghost predicate Tiles(mem: seq<Word>, p: int, bs: seq<Block>)
    decreases |bs|
  {
    bs == [] || (BlockAt(mem, p, bs[0]) && Tiles(mem, p + bs[0].size, bs[1..]))
  }

  /** The last word of the region is the epilogue header PACK(0, 1). */
  predicate Epilogue(mem: seq<Word>)
  {
    |mem| >= 1 && mem[|mem| - 1] == Pack(0, 1)
  }

  /** The prologue: an allocated block of size DSIZE whose header and footer are words 1 and 2. */
  predicate Prologue(mem: seq<Word>)
  {
    && |mem| >= 4
    && Get(mem, Hdrp(PROLOGUE_BP)) == Pack(DSIZE, 1)
    && Get(mem, PROLOGUE_BP) == Pack(DSIZE, 1)
  }

  /** Payload address of block `k` of the chain (of the epilogue when `k == |bs|`). */
  function Addr(bs: seq<Block>, k: nat): int
    requires k <= |bs|
  {
    FIRST_BP + Sum(bs[..k])
  }

  /** The whole region: prologue, the chain `bs`, and the epilogue right after it. */
  ghost predicate LaidOut(mem: seq<Word>, bs: seq<Block>)
  {
    && Prologue(mem)
    && Tiles(mem, FIRST_BP, bs)
    && WSIZE * |mem| == FIRST_BP + Sum(bs)
    && Epilogue(mem)
  }

  /**
   * The abstraction function: walks the chain from payload address `p` by
   * NEXT_BLKP until it reaches the epilogue, checking each block's tags, and
   * returns the blocks passed, or `None` if the words do not form a chain.
   */
  function Walk(mem: seq<Word>, p: int): (r: Option<seq<Block>>)
    ensures r.Some? ==> Tiles(mem, p, r.value) && WSIZE * |mem| == p + Sum(r.value) && Epilogue(mem)
    decreases WSIZE * |mem| + WSIZE - p
  {
    if p < DSIZE || p % DSIZE != 0 || !Readable(mem, Hdrp(p)) then None
    else
      var hd := Get(mem, Hdrp(p));
      var size := GetSize(hd);
      var alloc := GetAlloc(hd);
      if hd != Pack(size, alloc) then None
      else if size == 0 then
        if alloc == 1 && Hdrp(p) / WSIZE == |mem| - 1 then Some([]) else None
      else if !Readable(mem, p + size - DSIZE) || Get(mem, p + size - DSIZE) != hd then None
      else match Walk(mem, p + size)
        case None => None
        case Some(rest) =>
          var b := Block(size, alloc == 1);
          assert ([b] + rest)[1..] == rest;
          Some([b] + rest)
  }

  /** The block view of a region: the chain after the prologue. */
  function View(mem: seq<Word>): Option<seq<Block>>
  {
    Walk(mem, FIRST_BP)
  }

  // ---------------------------------------------------------------------
  // Lemmas about layouts
  // ---------------------------------------------------------------------

  /** A laid-out chain is the one the walk finds: the view determines the layout and back. */
  lemma {:induction false} WalkOfTiles(mem: seq<Word>, p: int, bs: seq<Block>)
    requires DSIZE <= p && p % DSIZE == 0
    requires Tiles(mem, p, bs) && WSIZE * |mem| == p + Sum(bs) && Epilogue(mem)
    ensures Walk(mem, p) == Some(bs)
    decreases |bs|
  {
    if bs == [] {
      WalkEnd(mem, p);
    } else {
      var b := bs[0];
      Aligned(p, b.size);
      assert Sum(bs) == b.size + Sum(bs[1..]);
      WalkOfTiles(mem, p + b.size, bs[1..]);
      WalkStep(mem, p, b, bs[1..]);
      assert [b] + bs[1..] == bs;
    }
  }

  /** The walk stops at the epilogue header in the last word. */
  lemma WalkEnd(mem: seq<Word>, p: int)
    requires DSIZE <= p && p % DSIZE == 0
    requires WSIZE * |mem| == p && Epilogue(mem)
    ensures Walk(mem, p) == Some([])
  {
    assert Readable(mem, Hdrp(p)) && Get(mem, Hdrp(p)) == Pack(0, 1);
    assert GetSize(Pack(0, 1)) == 0 && GetAlloc(Pack(0, 1)) == 1;
  }

  /** A block whose tags are in place is one step of the walk. */
  lemma WalkStep(mem: seq<Word>, p: int, b: Block, rest: seq<Block>)
    requires BlockAt(mem, p, b)
    requires Walk(mem, p + b.size) == Some(rest)
    ensures Walk(mem, p) == Some([b] + rest)
  {
    var hd := Get(mem, Hdrp(p));
    assert hd == Pack(b.size, Bit(b.alloc));
    assert GetSize(hd) == b.size && GetAlloc(hd) == Bit(b.alloc);
    assert hd == Pack(GetSize(hd), GetAlloc(hd));
    assert Block(GetSize(hd), GetAlloc(hd) == 1) == b;
  }

  /** A region has at most one layout. */
  lemma LayoutUnique(mem: seq<Word>, bs: seq<Block>)
    requires LaidOut(mem, bs)
    ensures View(mem) == Some(bs)
  {
    WalkOfTiles(mem, FIRST_BP, bs);
  }

  lemma {:induction false} TilesAppend(mem: seq<Word>, p: int, a: seq<Block>, b: seq<Block>)
    ensures Tiles(mem, p, a + b) <==> Tiles(mem, p, a) && Tiles(mem, p + Sum(a), b)
    decreases |a|
  {
    if a == [] {
      assert a + b == b;
    } else {
      assert (a + b)[1..] == a[1..] + b;
      assert (a + b)[0] == a[0];
      TilesAppend(mem, p + a[0].size, a[1..], b);
    }
  }

  lemma {:induction false} TilesWellSized(mem: seq<Word>, p: int, bs: seq<Block>)
    requires Tiles(mem, p, bs)
    ensures WellSized(bs)
    decreases |bs|
  {
    if bs != [] {
      TilesWellSized(mem, p + bs[0].size, bs[1..]);
      assert forall k :: 1 <= k < |bs| ==> bs[k] == bs[1..][k - 1];
    }
  }

  /** Block `k` of a laid-out run sits at its prefix-sum address. */
  lemma {:induction false} TilesAt(mem: seq<Word>, p: int, bs: seq<Block>, k: nat)
    requires Tiles(mem, p, bs)
    requires k < |bs|
    ensures BlockAt(mem, p + Sum(bs[..k]), bs[k])
    decreases k
  {
    if k > 0 {
      assert bs[..k][1..] == bs[1..][..k - 1];
      TilesAt(mem, p + bs[0].size, bs[1..], k - 1);
    }
  }

  /** `mem2` holds the same words as `mem` at every index of `lo..hi`, a range inside both. */
  ghost predicate SameWords(mem: seq<Word>, mem2: seq<Word>, lo: int, hi: int)
  {
    && 0 <= lo
    && hi <= |mem|
    && hi <= |mem2|
    && forall w :: lo <= w < hi ==> mem2[w] == mem[w]
  }

  lemma SameWordsTrans(m1: seq<Word>, m2: seq<Word>, m3: seq<Word>, lo: int, hi: int)
    requires SameWords(m1, m2, lo, hi) && SameWords(m2, m3, lo, hi)
    ensures SameWords(m1, m3, lo, hi)
  {
  }

  lemma SameWordsWithin(mem: seq<Word>, mem2: seq<Word>, lo: int, hi: int, lo2: int, hi2: int)
    requires SameWords(mem, mem2, lo, hi)
    requires lo <= lo2 && hi2 <= hi
    ensures SameWords(mem, mem2, lo2, hi2)
  {
  }

  /** Memory that agrees on the words a run covers holds the same run. */
  lemma {:induction false} TilesFrame(mem: seq<Word>, mem2: seq<Word>, p: int, bs: seq<Block>)
    requires Tiles(mem, p, bs)
    requires SameWords(mem, mem2, Hdrp(p) / WSIZE, Hdrp(p + Sum(bs)) / WSIZE)
    ensures Tiles(mem2, p, bs)
    decreases |bs|
  {
    if bs != [] {
      var s := bs[0].size;
      TilesWellSized(mem, p, bs);
      SumWellSized(bs[1..]);
      assert Sum(bs) == s + Sum(bs[1..]);
      assert Hdrp(p) / WSIZE <= Hdrp(p + s) / WSIZE;
      assert (p + s - DSIZE) / WSIZE < Hdrp(p + Sum(bs)) / WSIZE;
      TilesFrame(mem, mem2, p + s, bs[1..]);
    }
  }

  /** A laid-out run cut in two: both parts are laid out at their addresses. */
  lemma TilesCut(mem: seq<Word>, p: int, bs: seq<Block>, front: seq<Block>, back: seq<Block>, q: int)
    requires Tiles(mem, p, bs)
    requires bs == front + back
    requires q == p + Sum(front)
    ensures Tiles(mem, p, front)
    ensures Tiles(mem, q, back)
  {
    TilesAppend(mem, p, front, back);
  }

  /** A laid-out chain cut in three: the pieces are laid out at their addresses. */
  lemma SplitThree(mem: seq<Word>, bs: seq<Block>, lo: nat, hi: nat)
    requires LaidOut(mem, bs)
    requires lo <= hi <= |bs|
    ensures WellSized(bs)
    ensures Tiles(mem, FIRST_BP, bs[..lo])
    ensures Tiles(mem, Addr(bs, lo), bs[lo..hi])
    ensures Tiles(mem, Addr(bs, hi), bs[hi..])
    ensures Addr(bs, hi) == Addr(bs, lo) + Sum(bs[lo..hi])
    ensures FIRST_BP + Sum(bs) == Addr(bs, hi) + Sum(bs[hi..])
    ensures FIRST_BP <= Addr(bs, lo) <= Addr(bs, hi) <= FIRST_BP + Sum(bs)
  {
    TilesWellSized(mem, FIRST_BP, bs);
    assert bs == bs[..hi] + bs[hi..];
    TilesCut(mem, FIRST_BP, bs, bs[..hi], bs[hi..], Addr(bs, hi));
    PrefixSlices(bs, lo, hi);
    SumRun(bs, lo, hi);
    assert bs[..hi] == bs[..lo] + bs[lo..hi];
    TilesCut(mem, FIRST_BP, bs[..hi], bs[..lo], bs[lo..hi], Addr(bs, lo));
    SumSplit(bs, hi);
    PrefixSumMonotone(bs, 0, lo);
    PrefixSumMonotone(bs, lo, hi);
    PrefixSumMonotone(bs, hi, |bs|);
    assert bs[..0] == [] && bs[..|bs|] == bs;
  }

  /** Three runs laid out back to back form one run. */
  lemma JoinThree(mem: seq<Word>, a: seq<Block>, m: seq<Block>, c: seq<Block>, q1: int, q2: int)
    requires q1 == FIRST_BP + Sum(a) && q2 == q1 + Sum(m)
    requires Tiles(mem, FIRST_BP, a)
    requires Tiles(mem, q1, m)
    requires Tiles(mem, q2, c)
    ensures Tiles(mem, FIRST_BP, a + m + c)
    ensures Sum(a + m + c) == Sum(a) + Sum(m) + Sum(c)
  {
    SumAppend(a, m);
    SumAppend(a + m, c);
    TilesAppend(mem, FIRST_BP, a, m);
    TilesAppend(mem, FIRST_BP, a + m, c);
  }

  /**
   * Rewriting only the words of blocks `lo..hi` so that they hold a run
   * `mid` of the same total size yields the layout with `mid` spliced in.
   */
  lemma ReplaceSegment(mem: seq<Word>, mem2: seq<Word>, bs: seq<Block>, lo: nat, hi: nat, mid: seq<Block>)
    requires LaidOut(mem, bs)
    requires lo <= hi <= |bs|
    requires Sum(mid) == Sum(bs[lo..hi])
    requires |mem2| == |mem|
    requires SameWords(mem, mem2, 0, Hdrp(Addr(bs, lo)) / WSIZE)
    requires SameWords(mem, mem2, Hdrp(Addr(bs, hi)) / WSIZE, |mem|)
    requires Tiles(mem2, Addr(bs, lo), mid)
    ensures LaidOut(mem2, bs[..lo] + mid + bs[hi..])
    ensures Sum(bs[..lo] + mid + bs[hi..]) == Sum(bs)
  {
    SplitThree(mem, bs, lo, hi);
    LayoutFacts(mem, bs);
    ReplaceCore(mem, mem2, bs[..lo], mid, bs[hi..], Addr(bs, lo), Addr(bs, hi), FIRST_BP + Sum(bs));
  }

  /** ReplaceSegment with the three pieces and their addresses spelled out. */
  lemma ReplaceCore(mem: seq<Word>, mem2: seq<Word>, a: seq<Block>, mid: seq<Block>, c: seq<Block>,
                    qlo: int, qhi: int, e: int)
    requires qlo == FIRST_BP + Sum(a) && qhi == qlo + Sum(mid) && e == qhi + Sum(c)
    requires FIRST_BP <= qlo <= qhi <= e
    requires WSIZE * |mem| == e
    requires Prologue(mem) && Epilogue(mem)
    requires Tiles(mem, FIRST_BP, a) && Tiles(mem, qhi, c)
    requires |mem2| == |mem|
    requires SameWords(mem, mem2, 0, Hdrp(qlo) / WSIZE)
    requires SameWords(mem, mem2, Hdrp(qhi) / WSIZE, |mem|)
    requires Tiles(mem2, qlo, mid)
    ensures LaidOut(mem2, a + mid + c)
    ensures Sum(a + mid + c) == e - FIRST_BP
  {
    FramePrefix(mem, mem2, a, qlo);
    FrameSuffix(mem, mem2, c, qhi);
    JoinThree(mem2, a, mid, c, qlo, qhi);
  }

  /** The prologue and the blocks before `qlo` survive a change that leaves their words alone. */
  lemma FramePrefix(mem: seq<Word>, mem2: seq<Word>, a: seq<Block>, qlo: int)
    requires qlo == FIRST_BP + Sum(a)
    requires Prologue(mem) && Tiles(mem, FIRST_BP, a)
    requires |mem2| == |mem|
    requires SameWords(mem, mem2, 0, Hdrp(qlo) / WSIZE)
    ensures Prologue(mem2) && Tiles(mem2, FIRST_BP, a)
  {
    TilesWellSized(mem, FIRST_BP, a);
    SumWellSized(a);
    SameWordsWithin(mem, mem2, 0, Hdrp(qlo) / WSIZE, Hdrp(FIRST_BP) / WSIZE, Hdrp(qlo) / WSIZE);
    TilesFrame(mem, mem2, FIRST_BP, a);
    SameWordsWithin(mem, mem2, 0, Hdrp(qlo) / WSIZE, 0, Hdrp(FIRST_BP) / WSIZE);
    PrologueFrame(mem, mem2);
  }

  /** The blocks from `qhi` on and the epilogue survive a change that leaves their words alone. */
  lemma FrameSuffix(mem: seq<Word>, mem2: seq<Word>, c: seq<Block>, qhi: int)
    requires WSIZE * |mem| == qhi + Sum(c)
    requires Epilogue(mem) && Tiles(mem, qhi, c)
    requires |mem2| == |mem|
    requires SameWords(mem, mem2, Hdrp(qhi) / WSIZE, |mem|)
    ensures Epilogue(mem2) && Tiles(mem2, qhi, c)
  {
    SameWordsWithin(mem, mem2, Hdrp(qhi) / WSIZE, |mem|, Hdrp(qhi) / WSIZE, Hdrp(qhi + Sum(c)) / WSIZE);
    TilesFrame(mem, mem2, qhi, c);
    TilesWellSized(mem, qhi, c);
    SumWellSized(c);
    assert mem2[|mem| - 1] == mem[|mem| - 1];
  }

  /**
   * PUT of one tag to the header and one to the footer of the run
   * `lo..hi`, in either order, lays out block `b` in place of the run.
   */
  lemma WriteBlock(mem: seq<Word>, bs: seq<Block>, lo: nat, hi: nat, b: Block, first: int, second: int)
    requires LaidOut(mem, bs)
    requires lo < hi <= |bs|
    requires 0 <= b.size < 0x1_0000_0000
    requires b.size == Sum(bs[lo..hi])
    requires || (first == Hdrp(Addr(bs, lo)) && second == Addr(bs, hi) - DSIZE)
             || (first == Addr(bs, hi) - DSIZE && second == Hdrp(Addr(bs, lo)))
    ensures Readable(mem, first) && Readable(mem, second) && first != second
    ensures var tag := Pack(b.size, Bit(b.alloc));
      && |Put(Put(mem, first, tag), second, tag)| == |mem|
      && LaidOut(Put(Put(mem, first, tag), second, tag), Replace(bs, lo, hi, [b]))
    ensures var tag := Pack(b.size, Bit(b.alloc));
      && SameWords(mem, Put(Put(mem, first, tag), second, tag), 0, Hdrp(Addr(bs, lo)) / WSIZE)
      && SameWords(mem, Put(Put(mem, first, tag), second, tag), Hdrp(Addr(bs, hi)) / WSIZE, |mem|)
  {
    var p := Addr(bs, lo);
    HeaderRead(mem, bs, lo);
    RunSpan(mem, bs, lo, hi);
    RunSpan(mem, bs, hi, |bs|);
    EpilogueRead(mem, bs);
    LayoutFacts(mem, bs);
    WellSizedSlice(bs, lo, hi);
    SumWellSized(bs[lo..hi]);
    PutTags(mem, p, b, first, second);
    var tag := Pack(b.size, Bit(b.alloc));
    SumSmall(b, b, b);
    ReplaceSegment(mem, Put(Put(mem, first, tag), second, tag), bs, lo, hi, [b]);
  }

  /**
   * PUT of block `b`'s tag to its header and its footer, in either order,
   * lays the block out at `p` and leaves every word outside it alone.
   */
  lemma PutTags(mem: seq<Word>, p: int, b: Block, first: int, second: int)
    requires DSIZE <= b.size < 0x1_0000_0000 && b.size % DSIZE == 0
    requires DSIZE <= p && p % DSIZE == 0
    requires p + b.size <= WSIZE * |mem|
    requires || (first == Hdrp(p) && second == p + b.size - DSIZE)
             || (first == p + b.size - DSIZE && second == Hdrp(p))
    ensures Readable(mem, first) && Readable(mem, second) && first != second
    ensures var mem2 := Put(Put(mem, first, Pack(b.size, Bit(b.alloc))), second, Pack(b.size, Bit(b.alloc)));
      && |mem2| == |mem|
      && BlockAt(mem2, p, b)
      && Tiles(mem2, p, [b])
      && SameWords(mem, mem2, 0, Hdrp(p) / WSIZE)
      && SameWords(mem, mem2, Hdrp(p + b.size) / WSIZE, |mem|)
  {
    var tag := Pack(b.size, Bit(b.alloc));
    TagSlots(mem, p, b.size);
    var m1 := Put(mem, first, tag);
    var m2 := Put(m1, second, tag);
    PutOther(m1, second, tag, first);
    assert BlockAt(m2, p, b);
    assert [b][1..] == [];
    PutPairFrame(mem, first, second, tag, 0, Hdrp(p) / WSIZE);
    PutPairFrame(mem, first, second, tag, Hdrp(p + b.size) / WSIZE, |mem|);
  }

  /** Where the two tags of a block of `size` bytes at `p` sit among the words. */
  lemma TagSlots(mem: seq<Word>, p: int, size: int)
    requires DSIZE <= size && size % DSIZE == 0
    requires DSIZE <= p && p % DSIZE == 0
    requires p + size <= WSIZE * |mem|
    ensures Readable(mem, Hdrp(p)) && Readable(mem, p + size - DSIZE) && Hdrp(p) != p + size - DSIZE
    ensures 0 <= Hdrp(p) / WSIZE < (p + size - DSIZE) / WSIZE
    ensures (p + size - DSIZE) / WSIZE < Hdrp(p + size) / WSIZE <= |mem|
  {
  }

  /** Two PUTs leave alone every word of a range that holds neither target. */
  lemma PutPairFrame(mem: seq<Word>, a: int, b: int, v: Word, lo: int, hi: int)
    requires Readable(mem, a) && Readable(mem, b)
    requires 0 <= lo <= hi <= |mem|
    requires !(lo <= a / WSIZE < hi) && !(lo <= b / WSIZE < hi)
    ensures SameWords(mem, Put(Put(mem, a, v), b, v), lo, hi)
  {
  }

  /**
   * PUT(HDRP(bp), PACK(size, a)) followed by PUT(FTRP(bp), PACK(size, a)):
   * the footer is found through the header just written, so block
   * `Block(size, alloc)` ends up laid out at `bp`, and every word outside
   * it keeps its value.
   */
  function SetTags(mem: seq<Word>, bp: int, size: int, alloc: bool): (m: seq<Word>)
    requires DSIZE <= bp && bp % DSIZE == 0
    requires DSIZE <= size < 0x1_0000_0000 && size % DSIZE == 0
    requires bp + size <= WSIZE * |mem|
    ensures |m| == |mem|
    ensures BlockAt(m, bp, Block(size, alloc))
  {
    var tag := Pack(size, Bit(alloc));
    PutTags(mem, bp, Block(size, alloc), Hdrp(bp), bp + size - DSIZE);
    var m1 := Put(mem, Hdrp(bp), tag);
    Put(m1, Ftrp(m1, bp), tag)
  }

  /** SetTags leaves every word outside the block alone. */
  lemma SetTagsFrame(mem: seq<Word>, bp: int, size: int, alloc: bool, end: int)
    requires DSIZE <= bp && bp % DSIZE == 0
    requires DSIZE <= size < 0x1_0000_0000 && size % DSIZE == 0
    requires end == bp + size && end <= WSIZE * |mem|
    ensures Tiles(SetTags(mem, bp, size, alloc), bp, [Block(size, alloc)])
    ensures SameWords(mem, SetTags(mem, bp, size, alloc), 0, Hdrp(bp) / WSIZE)
    ensures SameWords(mem, SetTags(mem, bp, size, alloc), Hdrp(end) / WSIZE, |mem|)
  {
    PutTags(mem, bp, Block(size, alloc), Hdrp(bp), bp + size - DSIZE);
  }

  /** After SetTags, NEXT_BLKP(bp) reads the new header and steps over the block. */
  lemma SetTagsNext(mem: seq<Word>, bp: int, size: int, alloc: bool)
    requires DSIZE <= bp && bp % DSIZE == 0
    requires DSIZE <= size < 0x1_0000_0000 && size % DSIZE == 0
    requires bp + size <= WSIZE * |mem|
    ensures Readable(SetTags(mem, bp, size, alloc), Hdrp(bp))
    ensures NextBlkp(SetTags(mem, bp, size, alloc), bp) == bp + size
  {
  }

  /** SetTags over block `k` with its own size: only the allocation bit of block `k` changes. */
  lemma SetOneBlock(mem: seq<Word>, bs: seq<Block>, k: nat, alloc: bool)
    requires LaidOut(mem, bs)
    requires k < |bs|
    ensures DSIZE <= Addr(bs, k) && Addr(bs, k) % DSIZE == 0
    ensures DSIZE <= bs[k].size < 0x1_0000_0000 && bs[k].size % DSIZE == 0
    ensures Addr(bs, k) + bs[k].size <= WSIZE * |mem|
    ensures LaidOut(SetTags(mem, Addr(bs, k), bs[k].size, alloc), Replace(bs, k, k + 1, [Block(bs[k].size, alloc)]))
  {
    var p, b := Addr(bs, k), Block(bs[k].size, alloc);
    BlockSpan(mem, bs, k);
    HeaderRead(mem, bs, k);
    SetTagsFrame(mem, p, b.size, alloc, p + b.size);
    SumSmall(b, b, b);
    ReplaceSegment(mem, SetTags(mem, p, b.size, alloc), bs, k, k + 1, [b]);
  }

  /** The sizes and addresses involved in splitting block `k` at `asize` bytes. */
  lemma SplitSizes(mem: seq<Word>, bs: seq<Block>, k: nat, asize: int)
    requires LaidOut(mem, bs)
    requires k < |bs|
    requires DSIZE <= asize && asize % DSIZE == 0 && DSIZE <= bs[k].size - asize
    ensures DSIZE <= Addr(bs, k) && Addr(bs, k) % DSIZE == 0
    ensures bs[k].size < 0x1_0000_0000 && bs[k].size % DSIZE == 0
    ensures (bs[k].size - asize) % DSIZE == 0 && (Addr(bs, k) + asize) % DSIZE == 0
    ensures Addr(bs, k + 1) == Addr(bs, k) + bs[k].size <= WSIZE * |mem|
  {
    BlockSpan(mem, bs, k);
    HeaderRead(mem, bs, k);
    Aligned(bs[k].size, asize);
    Aligned(Addr(bs, k), asize);
  }

  /**
   * The tags of two blocks written one after the other over block `k`:
   * `m2` has block `b1` at `p` and agrees with `mem` outside it, `m4` has
   * `b2` right after it and agrees with `m2` outside that.  The two blocks
   * then take block `k`'s place in the chain.
   */
  lemma WriteTwoBlocks(mem: seq<Word>, m2: seq<Word>, m4: seq<Word>, bs: seq<Block>, k: nat,
                       p: int, p2: int, p3: int, b1: Block, b2: Block)
    requires LaidOut(mem, bs)
    requires k < |bs| && p == Addr(bs, k) && p2 == p + b1.size && p3 == Addr(bs, k + 1)
    requires b1.size + b2.size == bs[k].size
    requires |m2| == |mem| && |m4| == |mem|
    requires Tiles(m2, p, [b1])
    requires SameWords(mem, m2, 0, Hdrp(p) / WSIZE) && SameWords(mem, m2, Hdrp(p2) / WSIZE, |mem|)
    requires Tiles(m4, p2, [b2])
    requires SameWords(m2, m4, 0, Hdrp(p2) / WSIZE) && SameWords(m2, m4, Hdrp(p3) / WSIZE, |m2|)
    ensures LaidOut(m4, Replace(bs, k, k + 1, [b1, b2]))
    ensures SameWords(mem, m4, 0, Hdrp(p) / WSIZE) && SameWords(mem, m4, Hdrp(p3) / WSIZE, |mem|)
  {
    BlockSpan(mem, bs, k);
    SumSmall(b1, b2, b2);
    JoinTwo(mem, m2, m4, p, p2, p3, b1, b2);
    ReplaceSegment(mem, m4, bs, k, k + 1, [b1, b2]);
  }

  /** Two blocks written one after the other lie back to back, and the rest of memory is as it was. */
  lemma JoinTwo(mem: seq<Word>, m2: seq<Word>, m4: seq<Word>, p: int, p2: int, p3: int, b1: Block, b2: Block)
    requires p2 == p + b1.size && p3 == p2 + b2.size
    requires |m2| == |mem| && |m4| == |mem|
    requires Tiles(m2, p, [b1])
    requires SameWords(mem, m2, 0, Hdrp(p) / WSIZE) && SameWords(mem, m2, Hdrp(p2) / WSIZE, |mem|)
    requires Tiles(m4, p2, [b2])
    requires SameWords(m2, m4, 0, Hdrp(p2) / WSIZE) && SameWords(m2, m4, Hdrp(p3) / WSIZE, |m2|)
    ensures Tiles(m4, p, [b1, b2])
    ensures SameWords(mem, m4, 0, Hdrp(p) / WSIZE)
    ensures SameWords(mem, m4, Hdrp(p3) / WSIZE, |mem|)
  {
    SumSmall(b1, b2, b2);
    TilesWellSized(m2, p, [b1]);
    TilesWellSized(m4, p2, [b2]);
    SameWordsWithin(m2, m4, 0, Hdrp(p2) / WSIZE, Hdrp(p) / WSIZE, Hdrp(p2) / WSIZE);
    TilesFrame(m2, m4, p, [b1]);
    TilesPair(m4, p, p2, b1, b2);
    SameWordsWithin(m2, m4, 0, Hdrp(p2) / WSIZE, 0, Hdrp(p) / WSIZE);
    SameWordsTrans(mem, m2, m4, 0, Hdrp(p) / WSIZE);
    SameWordsWithin(mem, m2, Hdrp(p2) / WSIZE, |mem|, Hdrp(p3) / WSIZE, |mem|);
    SameWordsTrans(mem, m2, m4, Hdrp(p3) / WSIZE, |mem|);
  }

  /** Two blocks laid out back to back form a run of two. */
  lemma TilesPair(mem: seq<Word>, p: int, p2: int, b1: Block, b2: Block)
    requires p2 == p + b1.size
    requires Tiles(mem, p, [b1]) && Tiles(mem, p2, [b2])
    ensures Tiles(mem, p, [b1, b2])
  {
    assert [b1, b2][1..] == [b2];
  }

  /** Where block `k` lies: aligned, inside the region, and ending where block `k + 1` starts. */
  lemma BlockSpan(mem: seq<Word>, bs: seq<Block>, k: nat)
    requires LaidOut(mem, bs)
    requires k < |bs|
    ensures DSIZE <= Addr(bs, k) && Addr(bs, k) % DSIZE == 0
    ensures Addr(bs, k + 1) == Addr(bs, k) + bs[k].size <= WSIZE * |mem|
    ensures Sum(bs[k..k + 1]) == bs[k].size
  {
    HeaderRead(mem, bs, k);
    FooterRead(mem, bs, k);
    RunSpan(mem, bs, k + 1, |bs|);
    EpilogueRead(mem, bs);
    assert bs[k..k + 1] == [bs[k]];
    SumSmall(bs[k], bs[k], bs[k]);
  }

  /**
   * The payload words of block `k`, from its payload address up to its
   * footer, are untouched by a change confined to the words of blocks
   * `lo..hi` when block `k` lies outside that run.
   */
  lemma PayloadFrame(mem: seq<Word>, mem2: seq<Word>, bs: seq<Block>, lo: nat, hi: nat, k: nat)
    requires LaidOut(mem, bs)
    requires lo <= hi <= |bs| && k < |bs| && (k < lo || hi <= k)
    requires SameWords(mem, mem2, 0, Hdrp(Addr(bs, lo)) / WSIZE)
    requires SameWords(mem, mem2, Hdrp(Addr(bs, hi)) / WSIZE, |mem| - 1)
    ensures SameWords(mem, mem2, Addr(bs, k) / WSIZE, (Addr(bs, k) + bs[k].size - DSIZE) / WSIZE)
  {
    BlockSpan(mem, bs, k);
    LayoutFacts(mem, bs);
    if k < lo {
      PrefixSumMonotone(bs, k + 1, lo);
      SameWordsWithin(mem, mem2, 0, Hdrp(Addr(bs, lo)) / WSIZE,
                      Addr(bs, k) / WSIZE, (Addr(bs, k) + bs[k].size - DSIZE) / WSIZE);
    } else {
      PrefixSumMonotone(bs, hi, k);
      PrefixSumMonotone(bs, k + 1, |bs|);
      assert bs[..|bs|] == bs;
      SameWordsWithin(mem, mem2, Hdrp(Addr(bs, hi)) / WSIZE, |mem| - 1,
                      Addr(bs, k) / WSIZE, (Addr(bs, k) + bs[k].size - DSIZE) / WSIZE);
    }
  }

  /** The prologue survives any change that leaves its words alone. */
  lemma PrologueFrame(mem: seq<Word>, mem2: seq<Word>)
    requires Prologue(mem)
    requires |mem2| == |mem|
    requires SameWords(mem, mem2, 0, Hdrp(FIRST_BP) / WSIZE)
    ensures Prologue(mem2)
  {
  }

  /** The chain of a laid-out region is well sized and ends where the region ends. */
  lemma LayoutFacts(mem: seq<Word>, bs: seq<Block>)
    requires LaidOut(mem, bs)
    ensures WellSized(bs)
    ensures WSIZE * |mem| == FIRST_BP + Sum(bs)
  {
    TilesWellSized(mem, FIRST_BP, bs);
    SumWellSized(bs);
  }

  /** A run of blocks spans the bytes between the addresses of its ends, inside the region. */
  lemma RunSpan(mem: seq<Word>, bs: seq<Block>, lo: nat, hi: nat)
    requires LaidOut(mem, bs)
    requires lo <= hi <= |bs|
    ensures Addr(bs, hi) == Addr(bs, lo) + Sum(bs[lo..hi])
    ensures 0 <= Sum(bs[lo..hi]) <= WSIZE * |mem| - FIRST_BP
  {
    SplitThree(mem, bs, lo, hi);
    LayoutFacts(mem, bs);
    WellSizedSlice(bs, lo, hi);
    SumWellSized(bs[lo..hi]);
  }

  /** Reading the header of block `k`, or of the epilogue when `k == |bs|`. */
  lemma HeaderRead(mem: seq<Word>, bs: seq<Block>, k: nat)
    requires LaidOut(mem, bs)
    requires k <= |bs|
    ensures Addr(bs, k) % DSIZE == 0 && FIRST_BP <= Addr(bs, k)
    ensures Readable(mem, Hdrp(Addr(bs, k)))
    ensures k < |bs| ==> BlockAt(mem, Addr(bs, k), bs[k])
    ensures k < |bs| ==> Get(mem, Hdrp(Addr(bs, k))) == Pack(bs[k].size, Bit(bs[k].alloc))
    ensures k == |bs| ==> Get(mem, Hdrp(Addr(bs, k))) == Pack(0, 1)
  {
    if k < |bs| {
      TilesAt(mem, FIRST_BP, bs, k);
      TilesWellSized(mem, FIRST_BP, bs);
      PrefixSumMonotone(bs, 0, k);
    } else {
      EpilogueRead(mem, bs);
    }
  }

  /** The epilogue header sits right after the last block, in the region's last word. */
  lemma EpilogueRead(mem: seq<Word>, bs: seq<Block>)
    requires LaidOut(mem, bs)
    ensures Addr(bs, |bs|) == WSIZE * |mem|
    ensures Addr(bs, |bs|) % DSIZE == 0 && FIRST_BP <= Addr(bs, |bs|)
    ensures Readable(mem, Hdrp(Addr(bs, |bs|)))
    ensures Hdrp(Addr(bs, |bs|)) / WSIZE == |mem| - 1
    ensures Get(mem, Hdrp(Addr(bs, |bs|))) == Pack(0, 1)
  {
    LayoutFacts(mem, bs);
    SumWellSized(bs);
    assert bs[..|bs|] == bs;
  }

  /** Reading the footer of block `k`, and stepping to the next block. */
  lemma FooterRead(mem: seq<Word>, bs: seq<Block>, k: nat)
    requires LaidOut(mem, bs)
    requires k < |bs|
    ensures Addr(bs, k + 1) == Addr(bs, k) + bs[k].size
    ensures Readable(mem, Hdrp(Addr(bs, k)))
    ensures NextBlkp(mem, Addr(bs, k)) == Addr(bs, k + 1)
    ensures Ftrp(mem, Addr(bs, k)) == Addr(bs, k + 1) - DSIZE
    ensures Readable(mem, Addr(bs, k + 1) - DSIZE)
    ensures Get(mem, Addr(bs, k + 1) - DSIZE) == Pack(bs[k].size, Bit(bs[k].alloc))
  {
    HeaderRead(mem, bs, k);
    TilesAt(mem, FIRST_BP, bs, k);
    SumStep(bs, k);
  }

  /** Stepping back from block `k` (or the epilogue) with PREV_BLKP. */
  lemma PrevRead(mem: seq<Word>, bs: seq<Block>, k: nat)
    requires LaidOut(mem, bs)
    requires k <= |bs|
    ensures Readable(mem, Addr(bs, k) - DSIZE)
    ensures k > 0 ==> PrevBlkp(mem, Addr(bs, k)) == Addr(bs, k - 1)
    ensures k == 0 ==> PrevBlkp(mem, Addr(bs, k)) == PROLOGUE_BP
  {
    HeaderRead(mem, bs, k);
    if k > 0 {
      FooterRead(mem, bs, k - 1);
    } else {
      assert bs[..0] == [];
    }
  }

  /** The allocation bit coalesce reads for the block before block `k`. */
  lemma PrevAllocRead(mem: seq<Word>, bs: seq<Block>, k: nat)
    requires LaidOut(mem, bs)
    requires k <= |bs|
    ensures Readable(mem, Addr(bs, k) - DSIZE)
    ensures Readable(mem, Hdrp(PrevBlkp(mem, Addr(bs, k))))
    ensures Readable(mem, Ftrp(mem, PrevBlkp(mem, Addr(bs, k))))
    ensures GetAlloc(Get(mem, Ftrp(mem, PrevBlkp(mem, Addr(bs, k)))))
         == if k > 0 then Bit(bs[k - 1].alloc) else 1
  {
    PrevRead(mem, bs, k);
    if k > 0 {
      FooterRead(mem, bs, k - 1);
    }
  }

  /** The allocation bit coalesce reads for the block after block `k`. */
  lemma NextAllocRead(mem: seq<Word>, bs: seq<Block>, k: nat)
    requires LaidOut(mem, bs)
    requires k < |bs|
    ensures Readable(mem, Hdrp(Addr(bs, k)))
    ensures NextBlkp(mem, Addr(bs, k)) == Addr(bs, k + 1)
    ensures Readable(mem, Hdrp(Addr(bs, k + 1)))
    ensures GetAlloc(Get(mem, Hdrp(Addr(bs, k + 1))))
         == if k + 1 < |bs| then Bit(bs[k + 1].alloc) else 1
    ensures k + 1 < |bs| ==> GetSize(Get(mem, Hdrp(Addr(bs, k + 1)))) == bs[k + 1].size
  {
    FooterRead(mem, bs, k);
    HeaderRead(mem, bs, k + 1);
  }

  /**
   * What walking the chain reads at block `k`: the size and allocation bit
   * in its header (size 0 and allocated at the epilogue), and where
   * NEXT_BLKP leads.
   */
  lemma TagRead(mem: seq<Word>, bs: seq<Block>, k: nat)
    requires LaidOut(mem, bs)
    requires k <= |bs|
    ensures Readable(mem, Hdrp(Addr(bs, k)))
    ensures GetSize(Get(mem, Hdrp(Addr(bs, k)))) == if k < |bs| then bs[k].size else 0
    ensures GetAlloc(Get(mem, Hdrp(Addr(bs, k)))) == if k < |bs| then Bit(bs[k].alloc) else 1
    ensures k < |bs| ==> DSIZE <= bs[k].size && NextBlkp(mem, Addr(bs, k)) == Addr(bs, k + 1)
  {
    HeaderRead(mem, bs, k);
    if k < |bs| {
      FooterRead(mem, bs, k);
    }
  }

  /** NEXT_BLKP of the prologue is the first block of the chain. */
  lemma PrologueNext(mem: seq<Word>, bs: seq<Block>)
    requires LaidOut(mem, bs)
    ensures Readable(mem, Hdrp(PROLOGUE_BP))
    ensures NextBlkp(mem, PROLOGUE_BP) == Addr(bs, 0) == FIRST_BP
  {
    assert bs[..0] == [];
  }
}
