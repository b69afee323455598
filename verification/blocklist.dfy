/**
 * The abstract view of the heap: the chain of blocks between the prologue
 * and the epilogue, each with its total size and allocation state.
 *
 * A block's payload address is the start address of the chain plus the
 * sizes of the blocks before it; the epilogue sits at the address after the
 * last block.  The functions here are the vocabulary the allocator's
 * contracts are written in: block addresses, the "no two adjacent free
 * blocks" rule, and the map of allocated blocks a client can see.
 */
module BlockList {
  import opened Tags
  import opened Options

  /** One block of the chain: total size in bytes (tags included) and its state. */
  datatype Block = Block(size: int, alloc: bool)

  /** Total bytes covered by a run of consecutive blocks. */
  function Sum(bs: seq<Block>): int
    decreases |bs|
  {
    if bs == [] then 0 else bs[0].size + Sum(bs[1..])
  }

  lemma {:induction false} SumAppend(a: seq<Block>, b: seq<Block>)
    ensures Sum(a + b) == Sum(a) + Sum(b)
    decreases |a|
  {
    if a == [] {
      assert a + b == b;
    } else {
      assert (a + b)[1..] == a[1..] + b;
      SumAppend(a[1..], b);
    }
  }

  /** Extending a prefix by one block adds that block's size. */
  lemma SumStep(bs: seq<Block>, k: nat)
    requires k < |bs|
    ensures Sum(bs[..k + 1]) == Sum(bs[..k]) + bs[k].size
  {
    assert bs[..k + 1] == bs[..k] + [bs[k]];
    SumAppend(bs[..k], [bs[k]]);
  }

  /** The chain with blocks `lo..hi` replaced by the run `mid`. */
  function Replace(bs: seq<Block>, lo: nat, hi: nat, mid: seq<Block>): seq<Block>
    requires lo <= hi <= |bs|
  {
    bs[..lo] + mid + bs[hi..]
  }


  /** Slicing a prefix. */
  lemma PrefixSlices(bs: seq<Block>, lo: nat, hi: nat)
    requires lo <= hi <= |bs|
    ensures bs[..hi][..lo] == bs[..lo]
    ensures bs[..hi][lo..] == bs[lo..hi]
  {
  }

  /** A prefix sum plus the matching suffix sum is the whole sum. */
  lemma SumSplit(bs: seq<Block>, k: nat)
    requires k <= |bs|
    ensures Sum(bs) == Sum(bs[..k]) + Sum(bs[k..])
  {
    assert bs == bs[..k] + bs[k..];
    SumAppend(bs[..k], bs[k..]);
  }

  /** The sum of a middle run is the difference of two prefix sums. */
  lemma SumRun(bs: seq<Block>, lo: nat, hi: nat)
    requires lo <= hi <= |bs|
    ensures Sum(bs[..hi]) == Sum(bs[..lo]) + Sum(bs[lo..hi])
  {
    PrefixSlices(bs, lo, hi);
    SumSplit(bs[..hi], lo);
  }

  /** Every block is at least one double word long and double-word aligned in size. */
  ghost predicate WellSized(bs: seq<Block>)
  {
    forall k :: 0 <= k < |bs| ==> DSIZE <= bs[k].size && bs[k].size % DSIZE == 0
  }

  lemma WellSizedConcat(a: seq<Block>, b: seq<Block>)
    ensures WellSized(a + b) <==> WellSized(a) && WellSized(b)
  {
    if WellSized(a) && WellSized(b) {
      forall k | 0 <= k < |a + b|
        ensures DSIZE <= (a + b)[k].size && (a + b)[k].size % DSIZE == 0
      {
        if k >= |a| {
          assert (a + b)[k] == b[k - |a|];
        }
      }
    }
    if WellSized(a + b) {
      forall k | 0 <= k < |a|
        ensures DSIZE <= a[k].size && a[k].size % DSIZE == 0
      {
        assert (a + b)[k] == a[k];
      }
      forall k | 0 <= k < |b|
        ensures DSIZE <= b[k].size && b[k].size % DSIZE == 0
      {
        assert (a + b)[|a| + k] == b[k];
      }
    }
  }

  lemma WellSizedSlice(bs: seq<Block>, lo: nat, hi: nat)
    requires WellSized(bs)
    requires lo <= hi <= |bs|
    ensures WellSized(bs[lo..hi])
  {
    forall k | 0 <= k < hi - lo
      ensures DSIZE <= bs[lo..hi][k].size && bs[lo..hi][k].size % DSIZE == 0
    {
      assert bs[lo..hi][k] == bs[lo + k];
    }
  }

  lemma SumSmall(x: Block, y: Block, z: Block)
    ensures Sum([x]) == x.size
    ensures Sum([x, y]) == x.size + y.size
    ensures Sum([x, y, z]) == x.size + y.size + z.size
  {
    assert [x][1..] == [];
    assert [x, y][1..] == [y];
    assert [x, y, z][1..] == [y, z];
    assert Sum([y]) == y.size by { assert [y][1..] == []; }
    assert Sum([z]) == z.size by { assert [z][1..] == []; }
    assert Sum([y, z]) == y.size + z.size by { assert [y, z][1..] == [z]; }
  }

  /** Replacing a run changes the covered bytes by the difference of the runs' sums. */
  lemma ReplaceSum(bs: seq<Block>, lo: nat, hi: nat, mid: seq<Block>)
    requires lo <= hi <= |bs|
    ensures Sum(Replace(bs, lo, hi, mid)) == Sum(bs) - Sum(bs[lo..hi]) + Sum(mid)
  {
    var a, run, c := bs[..lo], bs[lo..hi], bs[hi..];
    assert bs == a + run + c;
    SumAppend(a, run);
    SumAppend(a + run, c);
    SumAppend(a, mid);
    SumAppend(a + mid, c);
  }

  /**
   * Every block is at least the minimum block of 16 bytes: a header, a
   * footer and a double word of payload.
   */
  ghost predicate MinSized(bs: seq<Block>)
  {
    forall k :: 0 <= k < |bs| ==> 2 * DSIZE <= bs[k].size
  }

  /** Replacing a run by blocks of at least the minimum size keeps every block at least that size. */
  lemma ReplaceMinSized(bs: seq<Block>, lo: nat, hi: nat, mid: seq<Block>)
    requires lo <= hi <= |bs|
    requires MinSized(bs) && MinSized(mid)
    ensures MinSized(Replace(bs, lo, hi, mid))
  {
    var r := Replace(bs, lo, hi, mid);
    forall k | 0 <= k < |r|
      ensures 2 * DSIZE <= r[k].size
    {
      if k < lo {
        assert r[k] == bs[k];
      } else if k < lo + |mid| {
        assert r[k] == mid[k - lo];
      } else {
        assert r[k] == bs[k - lo - |mid| + hi];
      }
    }
  }

  /** Replacing a run of a well-sized chain by a well-sized run keeps it well sized. */
  lemma ReplaceWellSized(bs: seq<Block>, lo: nat, hi: nat, mid: seq<Block>)
    requires lo <= hi <= |bs|
    requires WellSized(bs) && WellSized(mid)
    ensures WellSized(Replace(bs, lo, hi, mid))
  {
    WellSizedSlice(bs, 0, lo);
    WellSizedSlice(bs, hi, |bs|);
    assert bs[0..lo] == bs[..lo] && bs[hi..|bs|] == bs[hi..];
    WellSizedConcat(bs[..lo], mid);
    WellSizedConcat(bs[..lo] + mid, bs[hi..]);
  }

  lemma {:induction false} SumWellSized(bs: seq<Block>)
    requires WellSized(bs)
    ensures Sum(bs) % DSIZE == 0
    ensures Sum(bs) >= DSIZE * |bs|
    decreases |bs|
  {
    if bs != [] {
      SumWellSized(bs[1..]);
    }
  }

  /** Prefix sums grow strictly with the number of blocks taken. */
  lemma PrefixSumMonotone(bs: seq<Block>, j: nat, k: nat)
    requires WellSized(bs)
    requires j <= k <= |bs|
    ensures Sum(bs[..k]) - Sum(bs[..j]) >= DSIZE * (k - j)
  {
    assert bs[..k] == bs[..j] + bs[j..k];
    SumAppend(bs[..j], bs[j..k]);
    SumWellSized(bs[j..k]);
  }

  /** The coalescing invariant: no two neighbouring blocks are both free. */
  predicate NoAdjacentFree(bs: seq<Block>)
  {
    forall k :: 0 <= k < |bs| - 1 ==> bs[k].alloc || bs[k + 1].alloc
  }

  /**
   * The coalescing invariant everywhere except around block `i`: the pairs
   * (i-1, i) and (i, i+1) may both be free.
   */
  predicate NoAdjacentFreeExcept(bs: seq<Block>, i: nat)
    requires i < |bs|
  {
    NoAdjacentFree(bs[..i]) && NoAdjacentFree(bs[i + 1..])
  }

  /** The coalescing invariant of a concatenation is that of its parts plus the seam. */
  lemma NoAdjacentFreeConcat(a: seq<Block>, b: seq<Block>)
    ensures NoAdjacentFree(a + b) <==>
      && NoAdjacentFree(a)
      && NoAdjacentFree(b)
      && (a == [] || b == [] || a[|a| - 1].alloc || b[0].alloc)
  {
    var ab := a + b;
    if NoAdjacentFree(ab) {
      forall k | 0 <= k < |a| - 1
        ensures a[k].alloc || a[k + 1].alloc
      {
        assert ab[k] == a[k] && ab[k + 1] == a[k + 1];
      }
      forall k | 0 <= k < |b| - 1
        ensures b[k].alloc || b[k + 1].alloc
      {
        assert ab[|a| + k] == b[k] && ab[|a| + k + 1] == b[k + 1];
      }
      if a != [] && b != [] {
        assert ab[|a| - 1] == a[|a| - 1] && ab[|a|] == b[0];
      }
    }
  }

  /** A run of blocks inside a run satisfying the invariant satisfies it too. */
  lemma NoAdjacentFreeSlice(bs: seq<Block>, lo: nat, hi: nat)
    requires lo <= hi <= |bs|
    requires NoAdjacentFree(bs)
    ensures NoAdjacentFree(bs[lo..hi])
  {
    var s := bs[lo..hi];
    forall k | 0 <= k < |s| - 1
      ensures s[k].alloc || s[k + 1].alloc
    {
      assert s[k] == bs[lo + k] && s[k + 1] == bs[lo + k + 1];
    }
  }

  /**
   * The position of address `q` in the chain of blocks starting at `p`:
   * `Some(k)` when `q` is the payload address of block `k`, or of the
   * epilogue when `k == |bs|`, and `None` when `q` is no block start.
   */
  function IndexOf(bs: seq<Block>, p: int, q: int): (r: Option<nat>)
    ensures r.Some? ==> r.value <= |bs| && q == p + Sum(bs[..r.value])
    decreases |bs|
  {
    if q == p then Some(0)
    else if bs == [] then None
    else match IndexOf(bs[1..], p + bs[0].size, q)
      case None => None
      case Some(k) =>
        assert bs[..k + 1][1..] == bs[1..][..k];
        Some(k + 1)
  }

  /** Every block start, the epilogue's included, is found by `IndexOf`. */
  lemma {:induction false} IndexOfAddr(bs: seq<Block>, p: int, k: nat)
    requires WellSized(bs)
    requires k <= |bs|
    ensures IndexOf(bs, p, p + Sum(bs[..k])) == Some(k)
    decreases k
  {
    if k > 0 {
      var q := p + Sum(bs[..k]);
      assert bs[..k][1..] == bs[1..][..k - 1];
      PrefixSumMonotone(bs, 0, k);
      assert q != p;
      IndexOfAddr(bs[1..], p + bs[0].size, k - 1);
    }
  }

  /**
   * The allocated blocks of a chain starting at `p`, as a map from payload
   * address to block size: what a client can hold pointers to.
   */
  function Allocated(bs: seq<Block>, p: int): map<int, int>
    decreases |bs|
  {
    if bs == [] then map[]
    else
      var rest := Allocated(bs[1..], p + bs[0].size);
      if bs[0].alloc then rest[p := bs[0].size] else rest
  }

  lemma {:induction false} AllocatedConcat(a: seq<Block>, b: seq<Block>, p: int)
    ensures Allocated(a + b, p) == Allocated(b, p + Sum(a)) + Allocated(a, p)
    decreases |a|
  {
    if a == [] {
      assert a + b == b;
    } else {
      assert (a + b)[1..] == a[1..] + b;
      AllocatedConcat(a[1..], b, p + a[0].size);
    }
  }

  /** Allocated addresses lie inside the run of blocks. */
  lemma {:induction false} AllocatedRange(bs: seq<Block>, p: int)
    requires WellSized(bs)
    ensures KeysIn(Allocated(bs, p), p, p + Sum(bs))
    decreases |bs|
  {
    if bs != [] {
      AllocatedRange(bs[1..], p + bs[0].size);
      SumWellSized(bs[1..]);
    }
  }

  /** An allocated address is the start of an allocated block of the recorded size. */
  lemma {:induction false} AllocatedIndex(bs: seq<Block>, p: int, q: int)
    requires WellSized(bs)
    requires q in Allocated(bs, p)
    ensures IndexOf(bs, p, q).Some?
    ensures IndexOf(bs, p, q).value < |bs|
    ensures bs[IndexOf(bs, p, q).value] == Block(Allocated(bs, p)[q], true)
    decreases |bs|
  {
    AllocatedRange(bs[1..], p + bs[0].size);
    if q != p {
      AllocatedIndex(bs[1..], p + bs[0].size, q);
    }
  }

  /** Conversely, every allocated block appears in the map under its address. */
  lemma {:induction false} AllocatedHas(bs: seq<Block>, p: int, k: nat)
    requires WellSized(bs)
    requires k < |bs| && bs[k].alloc
    ensures p + Sum(bs[..k]) in Allocated(bs, p)
    ensures Allocated(bs, p)[p + Sum(bs[..k])] == bs[k].size
    decreases k
  {
    if k > 0 {
      assert bs[..k][1..] == bs[1..][..k - 1];
      AllocatedHas(bs[1..], p + bs[0].size, k - 1);
      PrefixSumMonotone(bs, 0, k);
    }
  }

  /**
   * Replacing the blocks `lo..hi` of a chain by a run `mid` of the same
   * total size changes the allocated map only inside the replaced range.
   */
  lemma AllocatedSplice(bs: seq<Block>, lo: nat, hi: nat, mid: seq<Block>, p: int)
    requires lo <= hi <= |bs|
    requires WellSized(bs) && WellSized(mid)
    requires Sum(mid) == Sum(bs[lo..hi])
    ensures Allocated(bs[..lo] + mid + bs[hi..], p)
      == (Allocated(bs, p) - Allocated(bs[lo..hi], p + Sum(bs[..lo])).Keys)
         + Allocated(mid, p + Sum(bs[..lo]))
  {
    var a, m, c := bs[..lo], bs[lo..hi], bs[hi..];
    var q := p + Sum(a);
    var q2 := q + Sum(m);
    var q3 := q + Sum(mid);
    AllocatedThree(bs, lo, hi, p);
    AllocatedJoin(a, mid, c, p);
    AllocatedRanges(bs, lo, hi, mid, p);
    MapSplice(Allocated(a, p), Allocated(m, q), Allocated(c, q2), Allocated(mid, q), p, q, q2, p + Sum(bs));
  }

  /** Where the allocated addresses of the pieces of a splice lie. */
  lemma AllocatedRanges(bs: seq<Block>, lo: nat, hi: nat, mid: seq<Block>, p: int)
    requires lo <= hi <= |bs|
    requires WellSized(bs) && WellSized(mid)
    requires Sum(mid) == Sum(bs[lo..hi])
    ensures KeysIn(Allocated(bs[..lo], p), p, p + Sum(bs[..lo]))
    ensures KeysIn(Allocated(bs[lo..hi], p + Sum(bs[..lo])), p + Sum(bs[..lo]), p + Sum(bs[..lo]) + Sum(bs[lo..hi]))
    ensures KeysIn(Allocated(mid, p + Sum(bs[..lo])), p + Sum(bs[..lo]), p + Sum(bs[..lo]) + Sum(bs[lo..hi]))
    ensures KeysIn(Allocated(bs[hi..], p + Sum(bs[..lo]) + Sum(bs[lo..hi])), p + Sum(bs[..lo]) + Sum(bs[lo..hi]), p + Sum(bs))
  {
    WellSizedSlice(bs, 0, lo);
    WellSizedSlice(bs, lo, hi);
    WellSizedSlice(bs, hi, |bs|);
    assert bs[0..lo] == bs[..lo] && bs[hi..|bs|] == bs[hi..];
    AllocatedRange(bs[..lo], p);
    AllocatedRange(bs[lo..hi], p + Sum(bs[..lo]));
    AllocatedRange(mid, p + Sum(bs[..lo]));
    AllocatedRange(bs[hi..], p + Sum(bs[..lo]) + Sum(bs[lo..hi]));
    SumThree(bs, lo, hi);
  }

  /** The sum of a chain is the sum of its three pieces. */
  lemma SumThree(bs: seq<Block>, lo: nat, hi: nat)
    requires lo <= hi <= |bs|
    ensures Sum(bs) == Sum(bs[..lo]) + Sum(bs[lo..hi]) + Sum(bs[hi..])
  {
    assert bs == bs[..lo] + bs[lo..hi] + bs[hi..];
    SumAppend(bs[..lo], bs[lo..hi]);
    SumAppend(bs[..lo] + bs[lo..hi], bs[hi..]);
  }

  /** Every key of `m` lies in `lo..hi`. */
  ghost predicate KeysIn(m: map<int, int>, lo: int, hi: int)
  {
    forall k :: k in m ==> lo <= k < hi
  }

  /** A chain's allocated map is the union of those of its three pieces. */
  lemma AllocatedThree(bs: seq<Block>, lo: nat, hi: nat, p: int)
    requires lo <= hi <= |bs|
    ensures Allocated(bs, p)
      == Allocated(bs[hi..], p + Sum(bs[..lo]) + Sum(bs[lo..hi]))
         + Allocated(bs[lo..hi], p + Sum(bs[..lo]))
         + Allocated(bs[..lo], p)
  {
    var a, m, c := bs[..lo], bs[lo..hi], bs[hi..];
    assert bs == a + m + c;
    AllocatedJoin(a, m, c, p);
  }

  /** The allocated map of three runs laid back to back. */
  lemma AllocatedJoin(a: seq<Block>, m: seq<Block>, c: seq<Block>, p: int)
    ensures Allocated(a + m + c, p)
      == Allocated(c, p + Sum(a) + Sum(m)) + Allocated(m, p + Sum(a)) + Allocated(a, p)
  {
    AllocatedConcat(a + m, c, p);
    AllocatedConcat(a, m, p);
    SumAppend(a, m);
  }

  /** Swapping the middle one of three maps whose keys lie in consecutive ranges. */
  lemma MapSplice(a: map<int, int>, m: map<int, int>, c: map<int, int>, m2: map<int, int>,
                   p: int, q: int, q2: int, e: int)
    requires KeysIn(a, p, q) && KeysIn(m, q, q2) && KeysIn(m2, q, q2) && KeysIn(c, q2, e)
    ensures c + m2 + a == ((c + m + a) - m.Keys) + m2
  {
    var lhs, rhs := c + m2 + a, ((c + m + a) - m.Keys) + m2;
    forall k
      ensures k in lhs <==> k in rhs
    {
    }
    assert lhs.Keys == rhs.Keys;
    forall k | k in lhs
      ensures lhs[k] == rhs[k]
    {
    }
  }
}
