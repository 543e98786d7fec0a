/**
 * The memory the allocator manages: memlib's growable heap region, seen as
 * 4-byte words between the heap start and the break.
 *
 * Addresses are absolute byte addresses. The heap starts at `lo`, which is
 * positive and 8-byte aligned, so the null pointer (0) never falls inside it.
 * The break never passes 2^32, so every heap address fits in one word, as the
 * allocator's free-list links require (a 32-bit build).
 *
 * A load or store outside the heap, or one that is not word aligned, is
 * undefined behaviour in C (in practice a crash). The model records it in a
 * sticky `fault` flag and leaves memory as it was.
 */
module MemLib {

  newtype u32 = x: int | 0 <= x < 0x1_0000_0000

  const WORD_LIMIT: int := 0x1_0000_0000
  const NULL: int := 0

  /** The heap contents: cells maps the address of every word below the break to its value. */
  datatype Mem = Mem(lo: int, brk: int, cells: map<int, u32>) {

    /** The current break: one past the last heap byte. */
    function Brk(): (r: int) {
      brk
    }

    /** p is the address of a whole, aligned word below the break. */
    predicate Word(p: int) {
      lo <= p && p + 4 <= brk && (p - lo) % 4 == 0
    }

    /** The cells are exactly the words between lo and the break. */
    ghost predicate Wf() {
      && lo <= brk && (brk - lo) % 4 == 0
      && forall p {:trigger Word(p)} :: Word(p) <==> p in cells
    }

    /** p names a word of the heap. */
    predicate InRange(p: int) {
      p in cells
    }

    function At(p: int): (r: u32)
      requires InRange(p)
    {
      cells[p]
    }

    /** The heap after writing v at p; every other word keeps its value. */
    function Set(p: int, v: u32): (m: Mem)
      requires InRange(p)
      ensures m.lo == lo && m.Brk() == Brk() && m.cells.Keys == cells.Keys
      ensures m.At(p) == v
      ensures forall q :: q != p ==> m.Get(q) == Get(q)
      ensures Wf() ==> m.Wf()
    {
      var m := Mem(lo, brk, cells[p := v]);
      assert Wf() ==> m.Wf() by {
        if Wf() {
          forall q
            ensures m.Word(q) <==> q in m.cells
          {
            assert Word(q) <==> q in cells;
          }
        }
      }
      m
    }

    /** A store as C performs it: outside the heap nothing is written (the fault is recorded by the caller). */
    function Put(p: int, v: u32): (r: Mem) {
      if InRange(p) then Set(p, v) else this
    }

    /** A load as C performs it: outside the heap the value read is arbitrary; the model reads 0. */
    function Get(p: int): (r: u32) {
      if InRange(p) then At(p) else 0
    }

    /** The part of the word at p + d that lies within the n bytes starting at p. */
    function Prefix(p: int, d: int, n: int): (r: int) {
      Low(Get(p + d), n - d)
    }

    /** memcpy(dst, src, n) on word-aligned addresses: the n bytes at src, as they were, now also at dst. */
    function Copied(dst: int, src: int, n: int): (m: Mem)
      ensures m.lo == lo && m.Brk() == Brk() && m.cells.Keys == cells.Keys
      ensures forall q :: !(dst <= q < dst + n) ==> m.Get(q) == Get(q)
      ensures forall d {:trigger m.Prefix(dst, d, n)} :: 0 <= d < n && InRange(dst + d) ==>
        m.Prefix(dst, d, n) == Prefix(src, d, n)
      ensures Wf() ==> m.Wf()
    {
      var m := Mem(lo, brk, map q | q in cells :: CopyWord(q, dst, src, n));
      assert m.cells.Keys == cells.Keys;
      assert forall q :: !(dst <= q < dst + n) ==> m.Get(q) == Get(q) by {
        forall q | !(dst <= q < dst + n) && q in cells
          ensures m.cells[q] == cells[q]
        {
          assert m.cells[q] == CopyWord(q, dst, src, n);
        }
      }
      assert forall d :: 0 <= d < n && InRange(dst + d) ==> m.Prefix(dst, d, n) == Prefix(src, d, n) by {
        forall d | 0 <= d < n && InRange(dst + d)
          ensures m.Prefix(dst, d, n) == Prefix(src, d, n)
        {
          assert m.cells[dst + d] == Mix(Get(dst + d), Get(src + d), n - d);
        }
      }
      assert Wf() ==> m.Wf() by {
        if Wf() {
          forall q
            ensures m.Word(q) <==> q in m.cells
          {
            assert Word(q) <==> q in cells;
          }
        }
      }
      m
    }

    /** The word at q after the copy. */
    function CopyWord(q: int, dst: int, src: int, n: int): (r: u32) {
      var d := q - dst;
      if 0 <= d < n then Mix(Get(q), Get(src + d), n - d) else Get(q)
    }

    /** The heap after the break moved up by n zero-filled words. */
    function Grow(n: nat): (m: Mem)
      ensures m.lo == lo && m.Brk() == Brk() + 4 * n
      ensures forall q :: InRange(q) ==> m.InRange(q) && m.At(q) == At(q)
      ensures Wf() ==> m.Wf()
      ensures forall q :: m.InRange(q) && !InRange(q) ==> m.At(q) == 0
    {
      var added := map q | brk <= q < brk + 4 * n && WordAligned(lo, q) :: 0 as u32;
      var m := Mem(lo, brk + 4 * n, added + cells);
      assert Wf() ==> m.Wf() by {
        if Wf() {
          forall q
            ensures m.Word(q) <==> q in m.cells
          {
            assert Word(q) <==> q in cells;
          }
        }
      }
      m
    }
  }

  /** 256^r: one more than the largest r-byte value. */
  function ByteScale(r: nat): (s: nat)
    ensures s >= 1
  {
    if r == 0 then 1 else 256 * ByteScale(r - 1)
  }

  /** The low r bytes of w, which come first in memory on a little-endian machine (all of w when r >= 4). */
  function Low(w: u32, r: int): (res: int) {
    if r >= 4 then w as int else if r <= 0 then 0 else w as int % ByteScale(r)
  }

  /** w with its low r bytes taken from v: what a byte copy of r bytes leaves in a word. */
  function Mix(w: u32, v: u32, r: int): (x: u32)
    ensures Low(x, r) == Low(v, r)
  {
    if r >= 4 then v
    else if r <= 0 then w
    else
      assert ByteScale(1) == 256 && ByteScale(2) == 65536 && ByteScale(3) == 16777216;
      MixBelow(w, v, ByteScale(r))
  }

  /** w with its residue modulo s replaced by v's; s divides 2^32. */
  function MixBelow(w: u32, v: u32, s: nat): (x: u32)
    requires s == 256 || s == 65536 || s == 16777216
    ensures x as int % s == v as int % s
  {
    var a, b := w as int / s, v as int % s;
    Recombine(a, b, s);
    (a * s + b) as u32
  }

  /** A quotient and a remainder modulo s put back together. */
  lemma Recombine(a: int, b: int, s: int)
    requires s == 256 || s == 65536 || s == 16777216
    requires 0 <= a < WORD_LIMIT / s && 0 <= b < s
    ensures 0 <= a * s + b < WORD_LIMIT && (a * s + b) % s == b
  {
  }

  /** q is a whole number of words past lo. */
  predicate WordAligned(lo: int, q: int) {
    (q - lo) % 4 == 0
  }

  /** Facts about one word address, drawn from the well-formedness of the heap. */
  lemma WordIn(m: Mem, p: int)
    requires m.Wf()
    ensures m.InRange(p) <==> m.lo <= p && p + 4 <= m.Brk() && (p - m.lo) % 4 == 0
  {
    assert m.Word(p) <==> p in m.cells;
  }

  /** memlib's state: the heap region, its maximum address and whether undefined behaviour has happened. */
  class Memory {
    const maxAddr: int
    var mem: Mem
    var fault: bool

    ghost predicate Valid()
      reads this
    {
      0 < mem.lo && mem.lo % 8 == 0 && mem.Wf() && mem.Brk() <= maxAddr <= WORD_LIMIT
    }

    /** mem_init: an empty heap starting at lo that may grow up to maxAddr. */
    constructor (lo: int, maxAddr: int)
      requires 0 < lo && lo % 8 == 0 && lo <= maxAddr <= WORD_LIMIT
      ensures Valid() && mem == Mem(lo, lo, map[]) && this.maxAddr == maxAddr && !fault
    {
      this.maxAddr := maxAddr;
      mem := Mem(lo, lo, map[]);
      fault := false;
      new;
      forall p
        ensures mem.Word(p) <==> p in mem.cells
      {
      }
    }

    /**
     * mem_sbrk: move the break up by incr bytes and return the old break, or
     * return -1 and change nothing when that would pass maxAddr. The model is
     * word-granular, so incr is a whole number of words (every caller asks
     * for a multiple of 8 bytes).
     */
    method Sbrk(incr: int) returns (p: int)
      requires Valid() && incr % 4 == 0
      modifies this
      ensures Valid() && fault == old(fault)
      ensures if incr < 0 || old(mem.Brk()) + incr > maxAddr
              then p == -1 && mem == old(mem)
              else p == old(mem.Brk()) && mem == old(mem).Grow(incr / 4)
    {
      if incr < 0 || mem.Brk() + incr > maxAddr {
        p := -1;
      } else {
        p := mem.Brk();
        mem := mem.Grow(incr / 4);
      }
    }

    /** A 4-byte load (GET); outside the heap it faults. */
    method Load(p: int) returns (w: u32)
      modifies this
      ensures mem == old(mem)
      ensures w == mem.Get(p)
      ensures fault == (old(fault) || !mem.InRange(p))
    {
      w := mem.Get(p);
      fault := fault || !mem.InRange(p);
    }

    /** A 4-byte store (PUT); outside the heap it faults and writes nothing. */
    method Store(p: int, v: u32)
      modifies this
      ensures mem == old(mem).Put(p, v)
      ensures fault == (old(fault) || !old(mem).InRange(p))
    {
      fault := fault || !mem.InRange(p);
      mem := mem.Put(p, v);
    }

    /**
     * memcpy(dst, src, n) between two non-overlapping ranges of the heap,
     * both starting on a word boundary.
     */
    method Copy(dst: int, src: int, n: int)
      requires mem.Wf() && 0 <= n
      requires WordAligned(mem.lo, dst) && WordAligned(mem.lo, src)
      requires mem.lo <= dst && dst + n + 3 <= mem.Brk() && mem.lo <= src && src + n + 3 <= mem.Brk()
      requires dst + n <= src || src + n <= dst
      modifies this
      ensures mem == old(mem).Copied(dst, src, n) && fault == old(fault)
    {
      mem := mem.Copied(dst, src, n);
    }
  }
}
