/**
 * The raw memory provider the allocator sits on (memlib's `mem_sbrk`).
 *
 * The managed region is a sequence of words starting at byte offset 0; it
 * only ever grows at its high end.  A request is refused when it is negative
 * or would take the region past MAX_HEAP bytes.
 */
module MemLib {
  import opened Tags
  import opened Options

  /** Most bytes the provider will ever hand out (20 MiB). */
  const MAX_HEAP: int := 20 * 0x10_0000

  /** `n` fresh words; their contents are not read before being written. */
  function Fresh(n: nat): (ws: seq<Word>)
    ensures |ws| == n
  {
    seq(n, _ => 0)
  }

  /**
   * mem_sbrk(incr): grows the region by `incr` bytes and returns the old
   * break, i.e. the byte offset at which the new space starts.
   */
  function Sbrk(mem: seq<Word>, incr: int): (r: Option<(seq<Word>, int)>)
    requires incr % WSIZE == 0
    ensures r.None? <==> incr < 0 || WSIZE * |mem| + incr > MAX_HEAP
    ensures r.Some? ==> r.value.1 == WSIZE * |mem|
    ensures r.Some? ==> WSIZE * |r.value.0| == WSIZE * |mem| + incr
    ensures r.Some? ==> r.value.0[..|mem|] == mem
  {
    if incr < 0 || WSIZE * |mem| + incr > MAX_HEAP then None
    else Some((mem + Fresh(incr / WSIZE), WSIZE * |mem|))
  }
}
