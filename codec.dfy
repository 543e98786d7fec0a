/**
 * The boundary-tag codec shared by both allocator files: the size constants,
 * PACK / GET_SIZE / GET_ALLOC as the bitwise operations the macros perform on
 * a 32-bit unsigned word, the address macros HDRP / FTRP / NEXT_BLKP /
 * PREV_BLKP, and mm_malloc's adjusted-size computation.
 */
module Codec {
  import opened MemLib

  const WSIZE: int := 4
  const DSIZE: int := 8
  const CHUNKSIZE: int := 4096
  /** ~0x7 converted to a 32-bit unsigned int. */
  const SIZE_MASK: nat := 0xFFFF_FFF8

  function Pow2(k: nat): (r: nat)
    ensures r >= 1
  {
    if k == 0 then 1 else 2 * Pow2(k - 1)
  }

  lemma {:induction false} Pow2Add(a: nat, b: nat)
    ensures Pow2(a + b) == Pow2(a) * Pow2(b)
  {
    if a > 0 {
      Pow2Add(a - 1, b);
    }
  }

  lemma Pow2Values()
    ensures Pow2(29) == 0x2000_0000 && Pow2(32) == WORD_LIMIT
  {
    assert Pow2(4) == 16;
    Pow2Add(4, 4);
    Pow2Add(8, 8);
    Pow2Add(16, 16);
    Pow2Add(16, 8);
    Pow2Add(24, 4);
    Pow2Add(28, 1);
  }

  /** Bitwise AND of two naturals, least significant bit first. */
  function BitAnd(a: nat, b: nat): (r: nat)
    decreases a
  {
    if a == 0 || b == 0 then 0
    else 2 * BitAnd(a / 2, b / 2) + (if a % 2 == 1 && b % 2 == 1 then 1 else 0)
  }

  /** Bitwise OR of two naturals, least significant bit first. */
  function BitOr(a: nat, b: nat): (r: nat)
    decreases a + b
  {
    if a == 0 then b
    else if b == 0 then a
    else 2 * BitOr(a / 2, b / 2) + (if a % 2 == 1 || b % 2 == 1 then 1 else 0)
  }

  /** AND with k low one-bits keeps a k-bit number intact. */
  lemma {:induction false} BitAndLowOnes(x: nat, k: nat)
    requires x < Pow2(k)
    ensures BitAnd(x, Pow2(k) - 1) == x
  {
    if x != 0 {
      BitAndLowOnes(x / 2, k - 1);
    }
  }

  /** AND with an even mask shifts the problem one bit down. */
  lemma BitAndEvenMask(a: nat, b: nat)
    requires b % 2 == 0
    ensures BitAnd(a, b) == 2 * BitAnd(a / 2, b / 2)
  {
  }

  /** Masking a 32-bit word with ~0x7 clears exactly its three low bits. */
  lemma SizeMaskClearsLowBits(w: nat)
    requires w < WORD_LIMIT
    ensures BitAnd(w, SIZE_MASK) == w - w % 8
  {
    var w1, w2, w3 := w / 2, w / 2 / 2, w / 2 / 2 / 2;
    assert w == 2 * w1 + w % 2 && w1 == 2 * w2 + w1 % 2 && w2 == 2 * w3 + w2 % 2;
    assert w3 == w / 8 by {
      assert w == 8 * w3 + (4 * (w2 % 2) + 2 * (w1 % 2) + w % 2);
    }
    BitAndEvenMask(w, SIZE_MASK);
    BitAndEvenMask(w1, SIZE_MASK / 2);
    BitAndEvenMask(w2, SIZE_MASK / 2 / 2);
    Pow2Values();
    assert SIZE_MASK / 2 / 2 / 2 == Pow2(29) - 1;
    BitAndLowOnes(w3, 29);
  }

  /**
   * PACK(size, alloc): size | alloc, for an allocated bit of 0 or 1 (the
   * only values either file passes). MacrosAreBitwise proves it is the
   * bitwise OR.
   */
  function Pack(size: u32, alloc: u32): (w: u32)
    requires alloc <= 1
    ensures size as int % 2 == 0 ==> w as int == size as int + alloc as int
  {
    if alloc == 1 && size as int % 2 == 0 then size + 1 else size
  }

  /** GET_SIZE: the word with its three low bits cleared. */
  function GetSize(w: u32): (s: u32)
  {
    (w as int - w as int % 8) as u32
  }

  /** GET_ALLOC: the word's low bit. */
  function GetAlloc(w: u32): (a: u32)
  {
    (w as int % 2) as u32
  }

  /** The three macros are the bitwise operations they are written as. */
  lemma MacrosAreBitwise(size: u32, alloc: u32, w: u32)
    requires alloc <= 1
    ensures Pack(size, alloc) as nat == BitOr(size as nat, alloc as nat)
    ensures GetSize(w) as nat == BitAnd(w as nat, SIZE_MASK)
    ensures GetAlloc(w) as nat == BitAnd(w as nat, 1)
  {
    SizeMaskClearsLowBits(w as nat);
    assert BitAnd(w as nat / 2, 0) == 0;
    if alloc == 1 && size != 0 {
      assert BitOr(size as nat / 2, 0) == size as nat / 2;
    }
  }

  /** The codec round trip: an aligned size and a 0/1 allocated bit are read back unchanged. */
  lemma PackRoundTrip(size: u32, alloc: u32)
    requires size % 8 == 0 && alloc <= 1
    ensures GetSize(Pack(size, alloc)) == size
    ensures GetAlloc(Pack(size, alloc)) == alloc
  {
    Mod2(size as int, 0);
    Mod8(size as int, alloc as int);
    Mod2(size as int, alloc as int);
  }

  /** Adding less than 8 to a multiple of 8 leaves that remainder. */
  lemma Mod8(x: int, a: int)
    requires x % 8 == 0 && 0 <= a < 8
    ensures (x + a) % 8 == a
  {
  }

  /** A multiple of 8 plus a bit is odd exactly when the bit is set. */
  lemma Mod2(x: int, a: int)
    requires x % 8 == 0 && 0 <= a < 2
    ensures (x + a) % 2 == a
  {
    var q := x / 8;
    assert x + a == 2 * (4 * q) + a;
    assert (x + a) / 2 == 4 * q;
  }

  /** HDRP: the header sits in the word before the payload. */
  function Hdrp(bp: int): (r: int) {
    bp - WSIZE
  }

  /** FTRP: the footer is the last word of the block, found from the header's size. */
  function Ftrp(m: Mem, bp: int): (r: int) {
    bp + GetSize(m.Get(Hdrp(bp))) as int - DSIZE
  }

  /** NEXT_BLKP: step forward by this block's header size. */
  function NextBlkp(m: Mem, bp: int): (r: int) {
    bp + GetSize(m.Get(Hdrp(bp))) as int
  }

  /** PREV_BLKP: step back by the size in the previous block's footer. */
  function PrevBlkp(m: Mem, bp: int): (r: int) {
    bp - GetSize(m.Get(bp - DSIZE)) as int
  }

  /**
   * mm_malloc's adjusted block size (identical in both files): room for the
   * request plus header and footer, rounded up to a multiple of 8, at least
   * the 16-byte minimum block. Sizes are unbounded here; see
   * AdjustedSize32 for the computation in a 32-bit size_t.
   */
  function AdjustedSize(size: nat): (asize: nat)
    ensures asize % DSIZE == 0 && asize >= 2 * DSIZE && asize >= size + DSIZE
    ensures asize == 2 * DSIZE || asize < size + 2 * DSIZE
  {
    if size <= DSIZE then 2 * DSIZE else DSIZE * ((size + DSIZE + (DSIZE - 1)) / DSIZE)
  }

  /** The same computation as written, in a 32-bit size_t: size + 15 wraps around. */
  function AdjustedSize32(size: u32): (asize: int)
    ensures size as int + DSIZE + (DSIZE - 1) < WORD_LIMIT ==> asize == AdjustedSize(size as nat)
  {
    if size as int <= DSIZE then 2 * DSIZE
    else DSIZE * (((size as int + DSIZE + (DSIZE - 1)) % WORD_LIMIT) / DSIZE)
  }

  /** A request of 2^32 - 15 bytes is adjusted to a 0-byte block, far below what it needs. */
  lemma AdjustedSize32Wraps()
    ensures AdjustedSize32(0xFFFF_FFF1) == 0
    ensures AdjustedSize(0xFFFF_FFF1) == 0x1_0000_0000
  {
  }
}
