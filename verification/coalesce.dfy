/**
 * Immediate coalescing (coalesce in mm.c): a block that has just become free
 * is merged with a free neighbour on either side, in one of four cases.
 */
module Coalescing {
  import opened Tags
  import opened Options
  import opened MemLib
  import opened BlockList
  import opened Layout
  import opened HeapState

  /** The block before block `i` is free (the prologue never is). */
  predicate PrevFree(bs: seq<Block>, i: nat)
    requires i < |bs|
  {
    i > 0 && !bs[i - 1].alloc
  }

  /** The block after block `i` is free (the epilogue never is). */
  predicate NextFree(bs: seq<Block>, i: nat)
    requires i < |bs|
  {
    i + 1 < |bs| && !bs[i + 1].alloc
  }

  /** First block of the merged run. */
  function MergeLo(bs: seq<Block>, i: nat): nat
    requires i < |bs|
  {
    if PrevFree(bs, i) then i - 1 else i
  }

  /** One past the last block of the merged run. */
  function MergeHi(bs: seq<Block>, i: nat): nat
    requires i < |bs|
  {
    if NextFree(bs, i) then i + 2 else i + 1
  }

  /** The chain after coalescing free block `i`: its free neighbours and it become one free block. */
  function Merged(bs: seq<Block>, i: nat): seq<Block>
    requires i < |bs|
  {
    var lo, hi := MergeLo(bs, i), MergeHi(bs, i);
    Replace(bs, lo, hi, [Block(Sum(bs[lo..hi]), false)])
  }

  /**
   * What coalescing does to the chain, case by case: the merged block has
   * the combined size of block `i` and its free neighbours, the blocks
   * before and after it are untouched, the chain covers the same bytes, no
   * two neighbours are free any more, and no allocated block is affected.
   */
  lemma MergedSpec(bs: seq<Block>, i: nat, p: int)
    requires i < |bs| && !bs[i].alloc
    requires WellSized(bs)
    requires NoAdjacentFreeExcept(bs, i)
    ensures var m, lo, hi := Merged(bs, i), MergeLo(bs, i), MergeHi(bs, i);
      && lo < |m|
      && m[lo] == Block(bs[i].size
                        + (if PrevFree(bs, i) then bs[i - 1].size else 0)
                        + (if NextFree(bs, i) then bs[i + 1].size else 0), false)
      && |m| == |bs| - (if PrevFree(bs, i) then 1 else 0) - (if NextFree(bs, i) then 1 else 0)
      && m[..lo] == bs[..lo]
      && m[lo + 1..] == bs[hi..]
    ensures Sum(Merged(bs, i)) == Sum(bs)
    ensures WellSized(Merged(bs, i))
    ensures NoAdjacentFree(Merged(bs, i))
    ensures Allocated(Merged(bs, i), p) == Allocated(bs, p)
  {
    MergedShape(bs, i);
    MergedCovers(bs, i);
    MergedNoAdjacentFree(bs, i);
    MergedAllocated(bs, i, p);
  }

  /** The merged run itself: the free blocks `lo..hi`, which include block `i`. */
  lemma MergedRun(bs: seq<Block>, i: nat)
    requires i < |bs| && !bs[i].alloc
    ensures var lo, hi := MergeLo(bs, i), MergeHi(bs, i);
      && forall k :: 0 <= k < |bs[lo..hi]| ==> !bs[lo..hi][k].alloc
    ensures var lo, hi := MergeLo(bs, i), MergeHi(bs, i);
      Sum(bs[lo..hi]) == bs[i].size
                         + (if PrevFree(bs, i) then bs[i - 1].size else 0)
                         + (if NextFree(bs, i) then bs[i + 1].size else 0)
  {
    var lo, hi := MergeLo(bs, i), MergeHi(bs, i);
    var run := bs[lo..hi];
    if PrevFree(bs, i) && NextFree(bs, i) {
      assert run == [bs[i - 1], bs[i], bs[i + 1]];
      SumSmall(bs[i - 1], bs[i], bs[i + 1]);
    } else if PrevFree(bs, i) {
      assert run == [bs[i - 1], bs[i]];
      SumSmall(bs[i - 1], bs[i], bs[i]);
    } else if NextFree(bs, i) {
      assert run == [bs[i], bs[i + 1]];
      SumSmall(bs[i], bs[i + 1], bs[i]);
    } else {
      assert run == [bs[i]];
      SumSmall(bs[i], bs[i], bs[i]);
    }
  }

  lemma MergedShape(bs: seq<Block>, i: nat)
    requires i < |bs| && !bs[i].alloc
    ensures var m, lo, hi := Merged(bs, i), MergeLo(bs, i), MergeHi(bs, i);
      && lo < |m|
      && m[lo] == Block(bs[i].size
                        + (if PrevFree(bs, i) then bs[i - 1].size else 0)
                        + (if NextFree(bs, i) then bs[i + 1].size else 0), false)
      && |m| == |bs| - (if PrevFree(bs, i) then 1 else 0) - (if NextFree(bs, i) then 1 else 0)
      && m[..lo] == bs[..lo]
      && m[lo + 1..] == bs[hi..]
  {
    var lo, hi := MergeLo(bs, i), MergeHi(bs, i);
    var a, c := bs[..lo], bs[hi..];
    var f := Block(Sum(bs[lo..hi]), false);
    MergedRun(bs, i);
    assert |a| == lo;
    assert (a + [f] + c)[lo] == f;
    assert (a + [f] + c)[..lo] == a;
    assert (a + [f] + c)[lo + 1..] == c;
  }

  lemma MergedCovers(bs: seq<Block>, i: nat)
    requires i < |bs| && !bs[i].alloc
    requires WellSized(bs)
    ensures Sum(Merged(bs, i)) == Sum(bs)
    ensures WellSized(Merged(bs, i))
  {
    var lo, hi := MergeLo(bs, i), MergeHi(bs, i);
    var f := Block(Sum(bs[lo..hi]), false);
    ReplaceSum(bs, lo, hi, [f]);
    SumSmall(f, f, f);
    WellSizedSlice(bs, lo, hi);
    SumWellSized(bs[lo..hi]);
    ReplaceWellSized(bs, lo, hi, [f]);
  }

  lemma MergedNoAdjacentFree(bs: seq<Block>, i: nat)
    requires i < |bs| && !bs[i].alloc
    requires NoAdjacentFreeExcept(bs, i)
    ensures NoAdjacentFree(Merged(bs, i))
  {
    var lo, hi := MergeLo(bs, i), MergeHi(bs, i);
    var a, c := bs[..lo], bs[hi..];
    var f := Block(Sum(bs[lo..hi]), false);
    MergedSides(bs, i);
    assert a != [] ==> a[|a| - 1] == bs[lo - 1];
    assert c != [] ==> c[0] == bs[hi];
    NoAdjacentFreeConcat(a, [f]);
    NoAdjacentFreeConcat(a + [f], c);
  }

  /** The blocks before and after the merged run keep the invariant, and the run's neighbours are allocated. */
  lemma MergedSides(bs: seq<Block>, i: nat)
    requires i < |bs| && !bs[i].alloc
    requires NoAdjacentFreeExcept(bs, i)
    ensures NoAdjacentFree(bs[..MergeLo(bs, i)]) && NoAdjacentFree(bs[MergeHi(bs, i)..])
    ensures MergeLo(bs, i) > 0 ==> bs[MergeLo(bs, i) - 1].alloc
    ensures MergeHi(bs, i) < |bs| ==> bs[MergeHi(bs, i)].alloc
  {
    var lo, hi := MergeLo(bs, i), MergeHi(bs, i);
    assert NoAdjacentFree(bs[..lo]) by {
      NoAdjacentFreeSlice(bs[..i], 0, lo);
      assert bs[..i][0..lo] == bs[..lo];
    }
    assert NoAdjacentFree(bs[hi..]) by {
      NoAdjacentFreeSlice(bs[i + 1..], hi - (i + 1), |bs| - (i + 1));
      assert bs[i + 1..][hi - (i + 1)..|bs| - (i + 1)] == bs[hi..];
    }
    if lo > 0 && lo == i - 1 {
      assert bs[..i][lo - 1] == bs[lo - 1] && bs[..i][lo] == bs[lo];
    }
    if hi < |bs| && hi == i + 2 {
      assert bs[i + 1..][0] == bs[i + 1] && bs[i + 1..][1] == bs[hi];
    }
  }

  lemma MergedAllocated(bs: seq<Block>, i: nat, p: int)
    requires i < |bs| && !bs[i].alloc
    requires WellSized(bs)
    ensures Allocated(Merged(bs, i), p) == Allocated(bs, p)
  {
    var lo, hi := MergeLo(bs, i), MergeHi(bs, i);
    var f := Block(Sum(bs[lo..hi]), false);
    MergedRun(bs, i);
    SumWellSized(bs[lo..hi]);
    AllocatedSplice(bs, lo, hi, [f], p);
    AllocatedNone(bs[lo..hi], p + Sum(bs[..lo]));
    assert Allocated([f], p + Sum(bs[..lo])) == map[];
  }

  /** A run of free blocks contributes nothing to the allocated map. */
  lemma {:induction false} AllocatedNone(bs: seq<Block>, p: int)
    requires forall k :: 0 <= k < |bs| ==> !bs[k].alloc
    ensures Allocated(bs, p) == map[]
    decreases |bs|
  {
    if bs != [] {
      AllocatedNone(bs[1..], p + bs[0].size);
    }
  }

  /** The merged chain, with the run and the merged size named. */
  lemma MergedIs(bs: seq<Block>, i: nat, lo: nat, hi: nat, size: int)
    requires i < |bs|
    requires lo == MergeLo(bs, i) && hi == MergeHi(bs, i)
    requires size == Sum(bs[lo..hi])
    ensures Merged(bs, i) == Replace(bs, lo, hi, [Block(size, false)])
  {
  }

  /** With both neighbours allocated (case 1) the chain is unchanged. */
  lemma MergedNothing(bs: seq<Block>, i: nat)
    requires i < |bs| && !bs[i].alloc
    requires !PrevFree(bs, i) && !NextFree(bs, i)
    ensures Merged(bs, i) == bs
  {
    MergedShape(bs, i);
    var m := Merged(bs, i);
    assert m == m[..i] + [m[i]] + m[i + 1..];
    assert bs == bs[..i] + [bs[i]] + bs[i + 1..];
  }

  /** The merged block starts where the first block of the merged run started. */
  lemma MergedAddr(bs: seq<Block>, i: nat)
    requires i < |bs| && !bs[i].alloc
    requires WellSized(bs)
    ensures MergeLo(bs, i) < |Merged(bs, i)|
    ensures Addr(Merged(bs, i), MergeLo(bs, i)) == Addr(bs, MergeLo(bs, i))
    ensures IndexOf(Merged(bs, i), FIRST_BP, Addr(bs, MergeLo(bs, i))) == Some(MergeLo(bs, i))
  {
    MergedShape(bs, i);
    MergedCovers(bs, i);
    IndexOfAddr(Merged(bs, i), FIRST_BP, MergeLo(bs, i));
  }

  /** What case 2 reads, in terms of the chain. */
  lemma NextReads(mem: seq<Word>, bp: int, bs: seq<Block>, i: nat)
    requires LaidOut(mem, bs) && WSIZE * |mem| <= MAX_HEAP
    requires i < |bs| && bp == Addr(bs, i) && !bs[i].alloc
    requires !PrevFree(bs, i) && NextFree(bs, i)
    ensures && Readable(mem, Hdrp(bp))
            && Readable(mem, Hdrp(NextBlkp(mem, bp)))
            && GetSize(Get(mem, Hdrp(bp))) + GetSize(Get(mem, Hdrp(NextBlkp(mem, bp)))) == Sum(bs[i..i + 2])
            && Sum(bs[i..i + 2]) % DSIZE == 0 && 0 <= Sum(bs[i..i + 2]) < MAX_HEAP
            && Addr(bs, i + 2) == bp + Sum(bs[i..i + 2]) && Readable(mem, Addr(bs, i + 2) - DSIZE)
  {
    MergedRun(bs, i);
    RunSpan(mem, bs, i, i + 2);
    FooterRead(mem, bs, i);
    FooterRead(mem, bs, i + 1);
    HeaderRead(mem, bs, i + 1);
    LayoutFacts(mem, bs);
    WellSizedSlice(bs, i, i + 2);
    SumWellSized(bs[i..i + 2]);
  }

  /** What case 3 reads, in terms of the chain. */
  lemma PrevReads(mem: seq<Word>, bp: int, bs: seq<Block>, i: nat)
    requires LaidOut(mem, bs) && WSIZE * |mem| <= MAX_HEAP
    requires i < |bs| && bp == Addr(bs, i) && !bs[i].alloc
    requires PrevFree(bs, i) && !NextFree(bs, i)
    ensures && Readable(mem, Hdrp(bp))
            && Readable(mem, bp - DSIZE)
            && PrevBlkp(mem, bp) == Addr(bs, i - 1)
            && Readable(mem, Hdrp(Addr(bs, i - 1)))
            && GetSize(Get(mem, Hdrp(bp))) + GetSize(Get(mem, Hdrp(Addr(bs, i - 1)))) == Sum(bs[i - 1..i + 1])
            && Readable(mem, Ftrp(mem, bp))
            && Ftrp(mem, bp) == Addr(bs, i - 1) + Sum(bs[i - 1..i + 1]) - DSIZE
            && Sum(bs[i - 1..i + 1]) % DSIZE == 0 && 0 <= Sum(bs[i - 1..i + 1]) < MAX_HEAP
            && Addr(bs, i + 1) == Addr(bs, i - 1) + Sum(bs[i - 1..i + 1])
            && bp - DSIZE != Ftrp(mem, bp)
  {
    MergedRun(bs, i);
    RunSpan(mem, bs, i - 1, i + 1);
    PrevRead(mem, bs, i);
    HeaderRead(mem, bs, i - 1);
    FooterRead(mem, bs, i);
    LayoutFacts(mem, bs);
    WellSizedSlice(bs, i - 1, i + 1);
    SumWellSized(bs[i - 1..i + 1]);
  }

  /** What case 4 reads, in terms of the chain. */
  lemma BothReads(mem: seq<Word>, bp: int, bs: seq<Block>, i: nat)
    requires LaidOut(mem, bs) && WSIZE * |mem| <= MAX_HEAP
    requires i < |bs| && bp == Addr(bs, i) && !bs[i].alloc
    requires PrevFree(bs, i) && NextFree(bs, i)
    ensures && Readable(mem, Hdrp(bp))
            && Readable(mem, bp - DSIZE)
            && PrevBlkp(mem, bp) == Addr(bs, i - 1)
            && Readable(mem, Hdrp(Addr(bs, i - 1)))
            && NextBlkp(mem, bp) == Addr(bs, i + 1)
            && Readable(mem, Hdrp(Addr(bs, i + 1)))
            && Ftrp(mem, Addr(bs, i + 1)) == Addr(bs, i + 2) - DSIZE
            && Readable(mem, Addr(bs, i + 2) - DSIZE)
            && GetSize(Get(mem, Hdrp(bp)))
               + (GetSize(Get(mem, Hdrp(Addr(bs, i - 1)))) + GetSize(Get(mem, Addr(bs, i + 2) - DSIZE))) == Sum(bs[i - 1..i + 2])
            && Sum(bs[i - 1..i + 2]) % DSIZE == 0 && 0 <= Sum(bs[i - 1..i + 2]) < MAX_HEAP
            && Addr(bs, i + 2) == Addr(bs, i - 1) + Sum(bs[i - 1..i + 2])
            && Hdrp(Addr(bs, i - 1)) < Hdrp(bp) < Hdrp(Addr(bs, i + 1)) < Addr(bs, i + 2) - DSIZE
            && bp - DSIZE < Addr(bs, i + 2) - DSIZE
  {
    LayoutFacts(mem, bs);
    PrevSide(mem, bs, i);
    NextSide(mem, bs, i);
    MergedRun(bs, i);
    RunSpan(mem, bs, i - 1, i + 2);
    WellSizedSlice(bs, i - 1, i + 2);
    SumWellSized(bs[i - 1..i + 2]);
  }

  /**
   * What case 3 reads after each write, for the block at `bp` after block
   * `prev`: neither `bp`'s new footer at `f` nor the previous block's new
   * header moves the previous block's footer.
   */
  lemma PrevRereads(mem: seq<Word>, bp: int, prev: int, f: int, v: Word)
    requires Readable(mem, bp - DSIZE) && Readable(mem, Hdrp(prev)) && Readable(mem, f)
    requires PrevBlkp(mem, bp) == prev && f != bp - DSIZE && Hdrp(prev) != bp - DSIZE
    ensures var m1 := Put(mem, f, v);
      && Readable(m1, bp - DSIZE) && PrevBlkp(m1, bp) == prev && Readable(m1, Hdrp(prev))
      && var m2 := Put(m1, Hdrp(prev), v);
         Readable(m2, bp - DSIZE) && PrevBlkp(m2, bp) == prev
  {
    var m1 := Put(mem, f, v);
    PutOther(mem, f, v, bp - DSIZE);
    PutOther(m1, Hdrp(prev), v, bp - DSIZE);
  }

  /**
   * What case 4 reads after its first write, for the block at `bp` between
   * blocks `prev` and `next`, the latter ending at `last`: the previous
   * block's new header leaves `bp`'s header, the next block's header and
   * the previous block's footer as they were, and the next block's new
   * footer leaves the previous block's footer.
   */
  lemma BothRereads(mem: seq<Word>, bp: int, prev: int, next: int, last: int, v: Word)
    requires Readable(mem, Hdrp(bp)) && Readable(mem, bp - DSIZE) && Readable(mem, Hdrp(prev))
    requires Readable(mem, Hdrp(next)) && Readable(mem, last - DSIZE)
    requires NextBlkp(mem, bp) == next && Ftrp(mem, next) == last - DSIZE && PrevBlkp(mem, bp) == prev
    requires Hdrp(prev) < Hdrp(bp) < Hdrp(next) < last - DSIZE && bp - DSIZE < last - DSIZE
    requires Hdrp(prev) != bp - DSIZE
    ensures var m1 := Put(mem, Hdrp(prev), v);
      && Readable(m1, Hdrp(bp)) && NextBlkp(m1, bp) == next
      && Readable(m1, Hdrp(next)) && Ftrp(m1, next) == last - DSIZE
      && Readable(m1, last - DSIZE)
      && var m2 := Put(m1, last - DSIZE, v);
         Readable(m2, bp - DSIZE) && PrevBlkp(m2, bp) == prev
  {
    var m1 := Put(mem, Hdrp(prev), v);
    PutOther(mem, Hdrp(prev), v, Hdrp(bp));
    PutOther(mem, Hdrp(prev), v, Hdrp(next));
    PutOther(mem, Hdrp(prev), v, bp - DSIZE);
    PutOther(m1, last - DSIZE, v, bp - DSIZE);
  }

  /** Block `i`'s header and its previous block, found through PREV_BLKP. */
  lemma PrevSide(mem: seq<Word>, bs: seq<Block>, i: nat)
    requires LaidOut(mem, bs)
    requires 0 < i < |bs|
    ensures Readable(mem, Hdrp(Addr(bs, i))) && GetSize(Get(mem, Hdrp(Addr(bs, i)))) == bs[i].size
    ensures Readable(mem, Addr(bs, i) - DSIZE) && PrevBlkp(mem, Addr(bs, i)) == Addr(bs, i - 1)
    ensures Readable(mem, Hdrp(Addr(bs, i - 1))) && GetSize(Get(mem, Hdrp(Addr(bs, i - 1)))) == bs[i - 1].size
    ensures Addr(bs, i) == Addr(bs, i - 1) + bs[i - 1].size
  {
    PrevRead(mem, bs, i);
    HeaderRead(mem, bs, i);
    HeaderRead(mem, bs, i - 1);
    FooterRead(mem, bs, i - 1);
  }

  /** The block after block `i`, found through NEXT_BLKP, and its footer. */
  lemma NextSide(mem: seq<Word>, bs: seq<Block>, i: nat)
    requires LaidOut(mem, bs)
    requires i + 1 < |bs|
    ensures Readable(mem, Hdrp(Addr(bs, i))) && NextBlkp(mem, Addr(bs, i)) == Addr(bs, i + 1)
    ensures Readable(mem, Hdrp(Addr(bs, i + 1))) && Ftrp(mem, Addr(bs, i + 1)) == Addr(bs, i + 2) - DSIZE
    ensures Readable(mem, Addr(bs, i + 2) - DSIZE) && GetSize(Get(mem, Addr(bs, i + 2) - DSIZE)) == bs[i + 1].size
    ensures Addr(bs, i + 2) == Addr(bs, i + 1) + bs[i + 1].size
    ensures Addr(bs, i + 1) == Addr(bs, i) + bs[i].size
  {
    FooterRead(mem, bs, i);
    FooterRead(mem, bs, i + 1);
  }

  /** Case 2 (next block free): the header of `bp` and the next block's footer get the sum. */
  method AbsorbNext(mem: seq<Word>, bp: int, ghost bs: seq<Block>, ghost i: nat) returns (mem': seq<Word>)
    requires LaidOut(mem, bs) && WSIZE * |mem| <= MAX_HEAP
    requires i < |bs| && bp == Addr(bs, i) && !bs[i].alloc
    requires !PrevFree(bs, i) && NextFree(bs, i)
    ensures LaidOut(mem', Merged(bs, i)) && |mem'| == |mem|
    ensures SameWords(mem, mem', 0, Hdrp(Addr(bs, i)) / WSIZE)
    ensures SameWords(mem, mem', Hdrp(Addr(bs, i + 2)) / WSIZE, |mem|)
  {
    NextReads(mem, bp, bs, i);
    var size: int := GetSize(Get(mem, Hdrp(bp)));
    size := size + GetSize(Get(mem, Hdrp(NextBlkp(mem, bp))));
    assert size == Sum(bs[i..i + 2]);
    var m1 := Put(mem, Hdrp(bp), Pack(size, 0));
    mem' := Put(m1, Ftrp(m1, bp), Pack(size, 0));
    MergedIs(bs, i, i, i + 2, size);
    WriteBlock(mem, bs, i, i + 2, Block(size, false), Hdrp(bp), Ftrp(m1, bp));
  }

  /** Case 3 (previous block free): the footer of `bp` and the previous block's header get the sum. */
  method AbsorbPrev(mem: seq<Word>, bp: int, ghost bs: seq<Block>, ghost i: nat) returns (mem': seq<Word>, r: int)
    requires LaidOut(mem, bs) && WSIZE * |mem| <= MAX_HEAP
    requires i < |bs| && bp == Addr(bs, i) && !bs[i].alloc
    requires PrevFree(bs, i) && !NextFree(bs, i)
    ensures LaidOut(mem', Merged(bs, i)) && |mem'| == |mem|
    ensures r == Addr(bs, i - 1)
    ensures SameWords(mem, mem', 0, Hdrp(Addr(bs, i - 1)) / WSIZE)
    ensures SameWords(mem, mem', Hdrp(Addr(bs, i + 1)) / WSIZE, |mem|)
  {
    PrevReads(mem, bp, bs, i);
    var size: int := GetSize(Get(mem, Hdrp(bp)));
    size := size + GetSize(Get(mem, Hdrp(PrevBlkp(mem, bp))));
    assert size == Sum(bs[i - 1..i + 1]);
    var m1 := Put(mem, Ftrp(mem, bp), Pack(size, 0));
    PrevRereads(mem, bp, Addr(bs, i - 1), Ftrp(mem, bp), Pack(size, 0));
    mem' := Put(m1, Hdrp(PrevBlkp(m1, bp)), Pack(size, 0));
    r := PrevBlkp(mem', bp);
    MergedIs(bs, i, i - 1, i + 1, size);
    WriteBlock(mem, bs, i - 1, i + 1, Block(size, false), Ftrp(mem, bp), Hdrp(PrevBlkp(m1, bp)));
  }

  /** Case 4 (both free): the previous block's header and the next block's footer get the sum. */
  method AbsorbBoth(mem: seq<Word>, bp: int, ghost bs: seq<Block>, ghost i: nat) returns (mem': seq<Word>, r: int)
    requires LaidOut(mem, bs) && WSIZE * |mem| <= MAX_HEAP
    requires i < |bs| && bp == Addr(bs, i) && !bs[i].alloc
    requires PrevFree(bs, i) && NextFree(bs, i)
    ensures LaidOut(mem', Merged(bs, i)) && |mem'| == |mem|
    ensures r == Addr(bs, i - 1)
    ensures SameWords(mem, mem', 0, Hdrp(Addr(bs, i - 1)) / WSIZE)
    ensures SameWords(mem, mem', Hdrp(Addr(bs, i + 2)) / WSIZE, |mem|)
  {
    BothReads(mem, bp, bs, i);
    var size: int := GetSize(Get(mem, Hdrp(bp)));
    size := size + (GetSize(Get(mem, Hdrp(PrevBlkp(mem, bp))))
                    + GetSize(Get(mem, Ftrp(mem, NextBlkp(mem, bp)))));
    assert size == Sum(bs[i - 1..i + 2]);
    var m1 := Put(mem, Hdrp(PrevBlkp(mem, bp)), Pack(size, 0));
    BothRereads(mem, bp, Addr(bs, i - 1), Addr(bs, i + 1), Addr(bs, i + 2), Pack(size, 0));
    mem' := Put(m1, Ftrp(m1, NextBlkp(m1, bp)), Pack(size, 0));
    r := PrevBlkp(mem', bp);
    MergedIs(bs, i, i - 1, i + 2, size);
    WriteBlock(mem, bs, i - 1, i + 2, Block(size, false), Hdrp(PrevBlkp(mem, bp)), Ftrp(m1, NextBlkp(m1, bp)));
  }

  /**
   * coalesce(bp): reads the allocation bits of both neighbours from the
   * previous block's footer and the next block's header, then writes the
   * merged block's header and footer in the order of the four cases.  It
   * returns the merged block, and points `rover` at it unless nothing was
   * merged.
   */
  method Coalesce(h: Heap, bp: int) returns (h': Heap, r: int)
    requires Shaped(h) && RoverOk(h) && MinSized(Blocks(h))
    requires IsBlock(h, bp) && !Blocks(h)[Index(h, bp)].alloc
    requires NoAdjacentFreeExcept(Blocks(h), Index(h, bp))
    ensures Valid(h')
    ensures h'.heapListp == h.heapListp && |h'.mem| == |h.mem|
    ensures Blocks(h') == Merged(Blocks(h), Index(h, bp))
    ensures r == Addr(Blocks(h), MergeLo(Blocks(h), Index(h, bp)))
    ensures IsBlock(h', r) && Index(h', r) == MergeLo(Blocks(h), Index(h, bp))
    ensures !PrevFree(Blocks(h), Index(h, bp)) && !NextFree(Blocks(h), Index(h, bp)) ==> h' == h
    ensures PrevFree(Blocks(h), Index(h, bp)) || NextFree(Blocks(h), Index(h, bp)) ==> h'.rover == r
    ensures Live(h') == Live(h)
    ensures PayloadsKept(h, h')
  {
    ghost var bs := Blocks(h);
    ghost var i := Index(h, bp);
    var mem := h.mem;
    ShapedLayout(h);
    IsBlockAddr(h, bp);
    PrevAllocRead(mem, bs, i);
    NextAllocRead(mem, bs, i);
    var prevAlloc := GetAlloc(Get(mem, Ftrp(mem, PrevBlkp(mem, bp))));
    var nextAlloc := GetAlloc(Get(mem, Hdrp(NextBlkp(mem, bp))));
    assert prevAlloc == 0 <==> PrevFree(bs, i);
    assert nextAlloc == 0 <==> NextFree(bs, i);
    if prevAlloc == 1 && nextAlloc == 1 {
      Unmerged(h, bp);
      return h, bp;
    }
    h', r := Absorb(h, bp, prevAlloc, nextAlloc);
  }

  /** With both neighbours allocated (case 1) the heap is left as it is, and it is valid. */
  lemma Unmerged(h: Heap, bp: int)
    requires Shaped(h) && RoverOk(h) && MinSized(Blocks(h))
    requires IsBlock(h, bp) && !Blocks(h)[Index(h, bp)].alloc
    requires NoAdjacentFreeExcept(Blocks(h), Index(h, bp))
    requires !PrevFree(Blocks(h), Index(h, bp)) && !NextFree(Blocks(h), Index(h, bp))
    ensures Valid(h)
    ensures Merged(Blocks(h), Index(h, bp)) == Blocks(h) && MergeLo(Blocks(h), Index(h, bp)) == Index(h, bp)
    ensures PayloadsKept(h, h)
  {
    var bs, i := Blocks(h), Index(h, bp);
    ShapedLayout(h);
    MergedNothing(bs, i);
    MergedSpec(bs, i, FIRST_BP);
    KeptAround(h, h, 0, 0);
  }

  /**
   * Cases 2 to 4 of coalesce(bp), told apart by the allocation bits read
   * from the neighbours: the merged block is written and `rover` is pointed
   * at it.
   */
  method Absorb(h: Heap, bp: int, prevAlloc: int, nextAlloc: int) returns (h': Heap, r: int)
    requires Shaped(h) && MinSized(Blocks(h))
    requires IsBlock(h, bp) && !Blocks(h)[Index(h, bp)].alloc
    requires NoAdjacentFreeExcept(Blocks(h), Index(h, bp))
    requires prevAlloc == 0 <==> PrevFree(Blocks(h), Index(h, bp))
    requires nextAlloc == 0 <==> NextFree(Blocks(h), Index(h, bp))
    requires prevAlloc == 0 || nextAlloc == 0
    ensures Valid(h')
    ensures h'.heapListp == h.heapListp && |h'.mem| == |h.mem|
    ensures Blocks(h') == Merged(Blocks(h), Index(h, bp))
    ensures r == Addr(Blocks(h), MergeLo(Blocks(h), Index(h, bp))) && h'.rover == r
    ensures IsBlock(h', r) && Index(h', r) == MergeLo(Blocks(h), Index(h, bp))
    ensures Live(h') == Live(h)
    ensures PayloadsKept(h, h')
  {
    ghost var bs := Blocks(h);
    ghost var i := Index(h, bp);
    var mem := h.mem;
    ShapedLayout(h);
    IsBlockAddr(h, bp);
    if prevAlloc != 0 {
      mem := AbsorbNext(mem, bp, bs, i);
      r := bp;
    } else if nextAlloc != 0 {
      mem, r := AbsorbPrev(mem, bp, bs, i);
    } else {
      mem, r := AbsorbBoth(mem, bp, bs, i);
    }
    h' := Heap(mem, h.heapListp, r);
    Coalesced(h, bp, h');
  }

  /** The heap after a merge (cases 2 to 4), with `rover` at the merged block, is valid. */
  lemma Coalesced(h: Heap, bp: int, h': Heap)
    requires Shaped(h) && MinSized(Blocks(h))
    requires IsBlock(h, bp) && !Blocks(h)[Index(h, bp)].alloc
    requires NoAdjacentFreeExcept(Blocks(h), Index(h, bp))
    requires LaidOut(h'.mem, Merged(Blocks(h), Index(h, bp))) && |h'.mem| == |h.mem|
    requires h'.heapListp == h.heapListp
    requires h'.rover == Addr(Blocks(h), MergeLo(Blocks(h), Index(h, bp)))
    requires SameWords(h.mem, h'.mem, 0, Hdrp(Addr(Blocks(h), MergeLo(Blocks(h), Index(h, bp)))) / WSIZE)
    requires SameWords(h.mem, h'.mem, Hdrp(Addr(Blocks(h), MergeHi(Blocks(h), Index(h, bp)))) / WSIZE, |h.mem|)
    ensures Valid(h')
    ensures Blocks(h') == Merged(Blocks(h), Index(h, bp))
    ensures IsBlock(h', h'.rover) && Index(h', h'.rover) == MergeLo(Blocks(h), Index(h, bp))
    ensures Live(h') == Live(h)
    ensures PayloadsKept(h, h')
  {
    var bs, i := Blocks(h), Index(h, bp);
    ShapedLayout(h);
    MergedSpec(bs, i, FIRST_BP);
    MergedAddr(bs, i);
    MergedMinSized(bs, i);
    LayoutShaped(h', Merged(bs, i));
    MergeKept(h, h', i);
  }

  /** The merged block is no smaller than block `i`, so merging keeps every block at least the minimum size. */
  lemma MergedMinSized(bs: seq<Block>, i: nat)
    requires i < |bs| && !bs[i].alloc
    requires WellSized(bs) && MinSized(bs)
    ensures MinSized(Merged(bs, i))
  {
    var lo, hi := MergeLo(bs, i), MergeHi(bs, i);
    MergedRun(bs, i);
    assert Sum(bs[lo..hi]) >= bs[i].size;
    ReplaceMinSized(bs, lo, hi, [Block(Sum(bs[lo..hi]), false)]);
  }

  /** Every block of the merged run is free: block `i` and the free neighbours it absorbs. */
  lemma RunFree(bs: seq<Block>, i: nat)
    requires i < |bs| && !bs[i].alloc
    ensures MergeHi(bs, i) <= |bs|
    ensures forall j :: MergeLo(bs, i) <= j < MergeHi(bs, i) ==> !bs[j].alloc
  {
    forall j | MergeLo(bs, i) <= j < MergeHi(bs, i)
      ensures !bs[j].alloc
    {
      if j < i {
        assert PrevFree(bs, i);
      } else if j > i {
        assert NextFree(bs, i);
      }
    }
  }

  /** The tag writes of a merge stay inside the merged run, which holds no allocated block. */
  lemma MergeKept(h: Heap, h': Heap, i: nat)
    requires Shaped(h) && Shaped(h')
    requires i < |Blocks(h)| && !Blocks(h)[i].alloc
    requires SameWords(h.mem, h'.mem, 0, Hdrp(Addr(Blocks(h), MergeLo(Blocks(h), i))) / WSIZE)
    requires SameWords(h.mem, h'.mem, Hdrp(Addr(Blocks(h), MergeHi(Blocks(h), i))) / WSIZE, |h.mem|)
    ensures PayloadsKept(h, h')
  {
    var bs := Blocks(h);
    var lo, hi := MergeLo(bs, i), MergeHi(bs, i);
    RunFree(bs, i);
    SameWordsWithin(h.mem, h'.mem, Hdrp(Addr(bs, hi)) / WSIZE, |h.mem|, Hdrp(Addr(bs, hi)) / WSIZE, |h.mem| - 1);
    KeptAround(h, h', lo, hi);
  }
}
