/**
 * The boundary-tag codec of the implicit free-list allocator.
 *
 * A tag is one 32-bit word holding a block's total size in bytes (always a
 * multiple of the 8-byte alignment unit) with the allocation flag in bit 0.
 * The C macros work on `unsigned int` words with bit masks; on the naturals
 * below 2^32 those masks have an exact arithmetic meaning, which is what the
 * functions here compute.
 */
module Tags {

  /** Bytes in one word: the width of a header or footer tag. */
  const WSIZE: int := 4

  /** Bytes in a double word: the alignment unit of every block. */
  const DSIZE: int := 8

  /** Default number of bytes by which the heap grows. */
  const CHUNKSIZE: int := 4096

  /** The contents of one heap word, an unsigned 32-bit integer. */
  type Word = x: int | 0 <= x < 0x1_0000_0000

  /** The larger of two integers. */
  function Max(x: int, y: int): (m: int)
    ensures m >= x && m >= y
    ensures m == x || m == y
  {
    if x > y then x else y
  }

  /** The tag value of an allocation flag. */
  function Bit(alloc: bool): (a: int)
    ensures a == 0 || a == 1
    ensures a == 1 <==> alloc
  {
    if alloc then 1 else 0
  }

  /**
   * PACK(size, a) = size | a.  For a one-bit `a`, or-ing it in adds it
   * unless the low bit of `size` is already set.  Every block size is a
   * multiple of DSIZE, and for those the two decoders give back exactly
   * what was packed.
   */
  function Pack(size: Word, a: int): (w: Word)
    requires a == 0 || a == 1
    ensures size % DSIZE == 0 ==> GetSize(w) == size && GetAlloc(w) == a
  {
    if size % 2 == 1 then size else size + a
  }

  /**
   * GET_SIZE: the tag with its low three bits cleared (w & ~0x7), that is
   * the largest multiple of DSIZE not above `w`.
   */
  function GetSize(w: Word): (s: Word)
    ensures s % DSIZE == 0
    ensures s <= w < s + DSIZE
  {
    w - w % DSIZE
  }

  /** GET_ALLOC: bit 0 of the tag (w & 0x1). */
  function GetAlloc(w: Word): (a: int)
    ensures a == 0 || a == 1
    ensures (w - a) % 2 == 0
  {
    w % 2
  }

  /** Sums and differences of multiples of DSIZE are multiples of DSIZE. */
  lemma Aligned(x: int, y: int)
    requires x % DSIZE == 0 && y % DSIZE == 0
    ensures (x + y) % DSIZE == 0 && (x - y) % DSIZE == 0
  {
  }
}
