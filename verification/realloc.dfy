/**
 * Reallocation (mm_realloc in mm.c): a new block is allocated, the smaller
 * of the old payload and the request is copied over, and the old block is
 * freed.
 *
 * The allocator never looks inside a payload, and no tag it writes lands in
 * the payload of a block that stays allocated (HeapState.PayloadsKept), so
 * payloads are kept apart from the heap words: a map from each live address
 * to its payload bytes, where `None` stands for a byte nobody has written
 * yet.
 */
module Reallocation {
  import opened Tags
  import opened Options
  import opened MemLib
  import opened BlockList
  import opened Layout
  import opened HeapState
  import opened Coalescing
  import opened Release
  import opened Allocation

  /** One byte of payload. */
  type Byte = x: int | 0 <= x < 0x100

  /** The bytes of one payload. */
  type Payload = seq<Option<Byte>>

  /** `data` holds one payload per allocated block, as long as the block minus its two tags. */
  ghost predicate Holds(h: Heap, data: map<int, Payload>)
    requires Shaped(h)
  {
    && data.Keys == Live(h).Keys
    && forall p :: p in data ==> |data[p]| == Live(h)[p] - DSIZE
  }

  /** A payload nobody has written. */
  function Unwritten(n: nat): (d: Payload)
    ensures |d| == n && forall i :: 0 <= i < n ==> d[i].None?
  {
    seq(n, _ => None)
  }

  /** GET_SIZE(HDRP(p)) - DSIZE: the payload bytes of the allocated block at `p`. */
  method PayloadSize(h: Heap, p: int) returns (n: int)
    requires Valid(h) && p in Live(h)
    ensures n == Live(h)[p] - DSIZE && n >= 0
  {
    LiveBlock(h, p);
    ShapedLayout(h);
    IsBlockAddr(h, p);
    HeaderRead(h.mem, Blocks(h), Index(h, p));
    BlockSpan(h.mem, Blocks(h), Index(h, p));
    n := GetSize(Get(h.mem, Hdrp(p))) - DSIZE;
  }

  /** mm_malloc together with its payload: the new block's bytes are unwritten. */
  method MallocData(h: Heap, data: map<int, Payload>, size: nat)
    returns (h': Heap, data': map<int, Payload>, r: Option<int>)
    requires Valid(h) && Holds(h, data)
    ensures Valid(h') && Holds(h', data')
    ensures Malloced(h, size, h', r)
    ensures r.None? ==> data' == data
    ensures r.Some? ==> data' == data[r.value := Unwritten(Live(h')[r.value] - DSIZE)]
  {
    h', r := MmMalloc(h, size);
    if r.None? {
      return h', data, r;
    }
    data' := AddPayload(h, h', data, r.value);
  }

  /** The payload map gains an unwritten payload for the block mm_malloc returned. */
  method AddPayload(h: Heap, h': Heap, data: map<int, Payload>, q: int) returns (data': map<int, Payload>)
    requires Valid(h) && Valid(h') && Holds(h, data)
    requires q !in Live(h) && q in Live(h') && Live(h') == Live(h)[q := Live(h')[q]]
    ensures Holds(h', data') && data' == data[q := Unwritten(Live(h')[q] - DSIZE)]
  {
    var n := PayloadSize(h', q);
    data' := data[q := Unwritten(n)];
  }

  /**
   * mm_realloc(ptr, size): with a NULL `ptr` it is mm_malloc(size), and
   * with size 0 it is mm_free(ptr) returning NULL.  Otherwise a new block
   * is allocated; if that fails, NULL is returned and `ptr` stays allocated
   * with its bytes.  If it succeeds, the first min(size, old payload size)
   * bytes are copied to the new block, the rest of it is unwritten, and the
   * old block is freed.  Every other block keeps its bytes throughout.
   */
  method MmRealloc(h: Heap, data: map<int, Payload>, ptr: Option<int>, size: nat)
    returns (h': Heap, data': map<int, Payload>, r: Option<int>, ghost mid: Heap)
    requires Valid(h) && Holds(h, data)
    requires ptr.Some? ==> ptr.value in Live(h)
    ensures Valid(h') && Holds(h', data') && PayloadsKept(h, h')
    ensures ptr.None? ==> Malloced(h, size, h', r)
    ensures ptr.Some? && size > 0 ==> Valid(mid) && Malloced(h, size, mid, r)
    ensures ptr.Some? && size > 0 && r.Some? ==> Released(mid, ptr.value, h')
    ensures ptr.None? && r.None? ==> data' == data
    ensures ptr.None? && r.Some? ==> data' == data[r.value := Unwritten(Live(h')[r.value] - DSIZE)]
    ensures ptr.Some? && size == 0 ==>
              && r.None? && Released(h, ptr.value, h') && data' == data - {ptr.value}
    ensures ptr.Some? && size > 0 && r.None? ==> h' == h && data' == data
    ensures ptr.Some? && size > 0 && r.Some? ==>
              var p, q := ptr.value, r.value;
              var n := if size < Live(h)[p] - DSIZE then size else Live(h)[p] - DSIZE;
              && q != p && q !in Live(h) && p !in Live(h') && q in Live(h')
              && Live(h') == (Live(h) - {p})[q := Live(h')[q]]
              && Live(h')[q] >= AdjustedSize(size)
              && n <= |data[p]| && n <= |data'[q]|
              && data'[q][..n] == data[p][..n]
              && (forall i :: n <= i < |data'[q]| ==> data'[q][i].None?)
              && data' == (data - {p})[q := data'[q]]
  {
    mid := h;
    if ptr.None? {
      h', data', r := MallocData(h, data, size);
      MallocKept(h, size, h', r);
    } else if size == 0 {
      h', data' := FreeData(h, data, ptr.value);
      r := None;
    } else {
      h', data', r, mid := Move(h, data, ptr.value, size);
    }
  }

  /** mm_free together with its payload: the payload goes with the block. */
  method FreeData(h: Heap, data: map<int, Payload>, p: int) returns (h': Heap, data': map<int, Payload>)
    requires Valid(h) && Holds(h, data) && p in Live(h)
    ensures Valid(h') && Holds(h', data') && Released(h, p, h')
    ensures data' == data - {p}
  {
    h' := MmFree(h, Some(p));
    data' := data - {p};
  }

  /** The main path of mm_realloc: allocate, copy, free the old block. */
  method Move(h: Heap, data: map<int, Payload>, p: int, size: nat)
    returns (h': Heap, data': map<int, Payload>, r: Option<int>, ghost mid: Heap)
    requires Valid(h) && Holds(h, data) && p in Live(h) && size > 0
    ensures Valid(h') && Holds(h', data') && PayloadsKept(h, h')
    ensures Valid(mid) && Malloced(h, size, mid, r)
    ensures r.Some? ==> Released(mid, p, h')
    ensures r.None? ==> h' == h && data' == data
    ensures r.Some? ==>
              var q := r.value;
              var n := if size < Live(h)[p] - DSIZE then size else Live(h)[p] - DSIZE;
              && q != p && q !in Live(h) && p !in Live(h') && q in Live(h')
              && Live(h') == (Live(h) - {p})[q := Live(h')[q]]
              && Live(h')[q] >= AdjustedSize(size)
              && n <= |data[p]| && n <= |data'[q]|
              && data'[q][..n] == data[p][..n]
              && (forall i :: n <= i < |data'[q]| ==> data'[q][i].None?)
              && data' == (data - {p})[q := data'[q]]
  {
    var h1, newptr := MmMalloc(h, size);
    mid := h1;
    if newptr.None? {
      KeptAround(h, h, 0, 0);
      return h, data, None, h1;
    }
    h', data' := CopyFree(h, h1, data, p, newptr.value, size);
    r := newptr;
  }

  /**
   * The rest of the main path, once mm_malloc has returned `q`: the copy
   * into `q` and the free of `p`.
   */
  method CopyFree(h: Heap, h1: Heap, data: map<int, Payload>, p: int, q: int, size: nat)
    returns (h': Heap, data': map<int, Payload>)
    requires Valid(h) && Valid(h1) && Holds(h, data) && p in Live(h)
    requires q !in Live(h) && q in Live(h1) && Live(h1) == Live(h)[q := Live(h1)[q]]
    requires Live(h1)[q] >= AdjustedSize(size) && PayloadsKept(h, h1)
    ensures Valid(h') && Holds(h', data') && PayloadsKept(h, h')
    ensures Released(h1, p, h')
    ensures var n := if size < Live(h)[p] - DSIZE then size else Live(h)[p] - DSIZE;
              && q != p && q !in Live(h) && p !in Live(h') && q in Live(h')
              && Live(h') == (Live(h) - {p})[q := Live(h')[q]]
              && Live(h')[q] >= AdjustedSize(size)
              && n <= |data[p]| && n <= |data'[q]|
              && data'[q][..n] == data[p][..n]
              && (forall i :: n <= i < |data'[q]| ==> data'[q][i].None?)
              && data' == (data - {p})[q := data'[q]]
  {
    var oldsize := PayloadSize(h1, p);
    var copySize := if size < oldsize then size else oldsize;
    var newsize := PayloadSize(h1, q);
    var moved := data[p][..copySize] + Unwritten(newsize - copySize);
    h' := MmFree(h1, Some(p));
    data' := (data - {p})[q := moved];
    MapMove(Live(h), Live(h1), Live(h'), p, q, Live(h1)[q]);
    MapMove(data, data[q := moved], data', p, q, moved);
    MovedPayloads(Live(h), Live(h'), data, data', p, q, Live(h1)[q], moved);
    KeptTrans(h, h1, h');
  }

  /** On every path mm_malloc leaves the payloads of the blocks that stay allocated alone. */
  lemma MallocKept(h: Heap, size: nat, h': Heap, r: Option<int>)
    requires Valid(h) && Valid(h') && Malloced(h, size, h', r)
    ensures PayloadsKept(h, h')
  {
    if r.None? {
      KeptAround(h, h, 0, 0);
    }
  }

  /** The payload map after the move matches the allocated blocks after it. */
  lemma MovedPayloads(live: map<int, int>, live': map<int, int>, data: map<int, Payload>, data': map<int, Payload>,
                      p: int, q: int, s: int, moved: Payload)
    requires data.Keys == live.Keys && forall k :: k in data ==> |data[k]| == live[k] - DSIZE
    requires p in live && q !in live && live' == (live - {p})[q := s]
    requires |moved| == s - DSIZE && data' == (data - {p})[q := moved]
    ensures data'.Keys == live'.Keys && forall k :: k in data' ==> |data'[k]| == live'[k] - DSIZE
  {
  }

  /** Adding `q` and then removing `p` is removing `p` and then adding `q`. */
  lemma MapMove<V>(a: map<int, V>, b: map<int, V>, c: map<int, V>, p: int, q: int, v: V)
    requires p in a && q !in a && b == a[q := v] && c == b - {p}
    ensures p != q && q in c && c[q] == v && c == (a - {p})[q := v]
    ensures forall k :: k in c && k != q ==> k in a && c[k] == a[k]
  {
  }
}
