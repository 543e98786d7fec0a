/**
 * The shape of the heap both allocator files maintain, stated over the word
 * memory: the prologue and epilogue sentinels, the blocks tiling the space
 * between them with matching header and footer tags, and the doubly linked
 * free list threaded through the free blocks' first two payload words.
 *
 * The blocks are described by a ghost list of Blk values in address order;
 * the free list by the ghost sequence of its members from the head. The
 * pure functions CoalesceSpec, PlaceSpec and their list counterparts say what
 * coalesce and place do to these two sequences, and the lemmas here prove that
 * they keep the invariants the allocator relies on.
 */
module HeapShape {
  import opened MemLib
  import opened Codec

  /** Header, footer and the two list links: 2 * DSIZE. */
  const MIN_BLOCK: int := 16

  /** A block: its payload address bp, its total size in bytes (header and footer included), its allocated bit. */
  datatype Blk = Blk(bp: int, size: int, alloc: bool)

  function AllocBit(alloc: bool): (r: u32) {
    if alloc then 1 else 0
  }

  /** p lies in the bytes of b: from its header up to the next block's header. */
  ghost predicate Within(b: Blk, p: int) {
    b.bp - WSIZE <= p < b.bp + b.size - WSIZE
  }

  // ---------------------------------------------------------------------
  // Tiling

  /** The blocks lie back to back from start to end, each a multiple of 8 and at least 16 bytes. */
  ghost predicate Tiles(bs: seq<Blk>, start: int, end: int) {
    && start % 8 == 0
    && (|bs| == 0 ==> start == end)
    && (|bs| > 0 ==> bs[0].bp == start && bs[|bs| - 1].bp + bs[|bs| - 1].size == end)
    && (forall i :: 0 <= i < |bs| ==> MIN_BLOCK <= bs[i].size && bs[i].size % 8 == 0)
    && (forall i :: 0 <= i < |bs| - 1 ==> bs[i].bp + bs[i].size == bs[i + 1].bp)
  }

  lemma {:induction false} Ordered(bs: seq<Blk>, start: int, end: int, i: int, j: int)
    requires Tiles(bs, start, end) && 0 <= i < j < |bs|
    ensures bs[i].bp + bs[i].size <= bs[j].bp
    decreases j - i
  {
    if i + 1 < j {
      Ordered(bs, start, end, i, j - 1);
    }
  }

  lemma {:induction false} Aligned(bs: seq<Blk>, start: int, end: int, i: int)
    requires Tiles(bs, start, end) && 0 <= i < |bs|
    ensures bs[i].bp % 8 == 0
  {
    if i > 0 {
      Aligned(bs, start, end, i - 1);
    }
  }

  /** Every block lies between start and end and its payload is 8-byte aligned. */
  lemma Bounds(bs: seq<Blk>, start: int, end: int, i: int)
    requires Tiles(bs, start, end) && 0 <= i < |bs|
    ensures start <= bs[i].bp && bs[i].bp + bs[i].size <= end && bs[i].bp % 8 == 0
  {
    if i > 0 {
      Ordered(bs, start, end, 0, i);
    }
    if i < |bs| - 1 {
      Ordered(bs, start, end, i, |bs| - 1);
    }
    Aligned(bs, start, end, i);
  }

  /** Distinct blocks occupy disjoint bytes. */
  lemma Disjoint(bs: seq<Blk>, start: int, end: int, i: int, j: int, p: int)
    requires Tiles(bs, start, end) && 0 <= i < |bs| && 0 <= j < |bs| && i != j
    requires Within(bs[i], p)
    ensures !Within(bs[j], p)
  {
    if i < j {
      Ordered(bs, start, end, i, j);
    } else {
      Ordered(bs, start, end, j, i);
    }
  }

  /** Two blocks with the same payload address are the same block. */
  lemma UniqueBp(bs: seq<Blk>, start: int, end: int, i: int, j: int)
    requires Tiles(bs, start, end) && 0 <= i < |bs| && 0 <= j < |bs|
    requires bs[i].bp == bs[j].bp
    ensures i == j
  {
    if i != j {
      Disjoint(bs, start, end, i, j, bs[i].bp);
    }
  }

  // ---------------------------------------------------------------------
  // Tags and sentinels

  /** Header and footer both hold PACK(size, alloc). */
  ghost predicate TagOk(m: Mem, b: Blk) {
    && m.InRange(b.bp - WSIZE) && m.InRange(b.bp + b.size - DSIZE)
    && 0 <= b.size < WORD_LIMIT
    && m.Get(b.bp - WSIZE) == Pack(b.size as u32, AllocBit(b.alloc))
    && m.Get(b.bp + b.size - DSIZE) == m.Get(b.bp - WSIZE)
  }

  ghost predicate TagsMatch(m: Mem, bs: seq<Blk>) {
    forall i :: 0 <= i < |bs| ==> TagOk(m, bs[i])
  }

  /** The prologue's payload address; it also ends the free list. */
  function Prologue(m: Mem): (r: int) {
    m.lo + DSIZE
  }

  /** Where the first regular block starts: after padding, prologue and the first header. */
  function FirstBp(m: Mem): (r: int) {
    m.lo + 6 * WSIZE
  }

  /** The 16-byte allocated prologue (header at lo + 4, footer at lo + 16) and the epilogue header 0|1 before the break. */
  ghost predicate Sentinels(m: Mem) {
    && 0 < m.lo && m.lo % 8 == 0 && m.Wf() && m.Brk() <= WORD_LIMIT
    && FirstBp(m) <= m.Brk()
    && m.InRange(m.lo + DSIZE) && m.InRange(m.lo + 3 * WSIZE)
    && m.Get(m.lo + WSIZE) == Pack(16, 1)
    && m.Get(m.lo + 4 * WSIZE) == Pack(16, 1)
    && m.Get(m.Brk() - WSIZE) == Pack(0, 1)
  }

  /** The block structure: sentinels, and the blocks tiling the space between them with matching tags. */
  ghost predicate Heap(m: Mem, bs: seq<Blk>) {
    Sentinels(m) && Tiles(bs, FirstBp(m), m.Brk()) && TagsMatch(m, bs)
  }

  /** p is neither a header nor a footer of any block. */
  ghost predicate NotTag(bs: seq<Blk>, p: int) {
    forall i :: 0 <= i < |bs| ==> p != bs[i].bp - WSIZE && p != bs[i].bp + bs[i].size - DSIZE
  }

  /** p is not a sentinel tag. */
  ghost predicate NotSentinel(m: Mem, p: int) {
    p != m.lo + WSIZE && p != m.lo + 4 * WSIZE && p != m.Brk() - WSIZE
  }

  /** A word strictly inside block j (past its header, before its footer) is no tag of any block. */
  lemma InteriorNotTag(m: Mem, bs: seq<Blk>, j: int, p: int)
    requires Heap(m, bs) && 0 <= j < |bs|
    requires bs[j].bp <= p < bs[j].bp + bs[j].size - DSIZE
    ensures NotTag(bs, p) && NotSentinel(m, p)
  {
    Bounds(bs, FirstBp(m), m.Brk(), j);
    forall i | 0 <= i < |bs|
      ensures p != bs[i].bp - WSIZE && p != bs[i].bp + bs[i].size - DSIZE
    {
      if i != j {
        Disjoint(bs, FirstBp(m), m.Brk(), j, i, p);
      }
    }
  }

  /** The prologue's two payload words are no tag of any block. */
  lemma PrologueNotTag(m: Mem, bs: seq<Blk>, p: int)
    requires Heap(m, bs)
    requires p == m.lo + DSIZE || p == m.lo + 3 * WSIZE
    ensures NotTag(bs, p) && NotSentinel(m, p)
  {
    forall i | 0 <= i < |bs|
      ensures p != bs[i].bp - WSIZE && p != bs[i].bp + bs[i].size - DSIZE
    {
      Bounds(bs, FirstBp(m), m.Brk(), i);
    }
  }

  /** A store that hits no tag keeps the block structure. */
  lemma StoreKeepsHeap(m: Mem, bs: seq<Blk>, p: int, v: u32)
    requires Heap(m, bs) && m.InRange(p) && NotTag(bs, p) && NotSentinel(m, p)
    ensures Heap(m.Set(p, v), bs)
  {
    var m' := m.Set(p, v);
    forall i | 0 <= i < |bs|
      ensures TagOk(m', bs[i])
    {
      assert TagOk(m, bs[i]);
    }
  }

  // ---------------------------------------------------------------------
  // Memory that changed only in some places

  /** m2 equals m1 at every word outside [a, b). */
  ghost predicate AgreeOutside(m1: Mem, m2: Mem, a: int, b: int) {
    && m2.lo == m1.lo && m2.Brk() == m1.Brk()
    && m2.cells.Keys == m1.cells.Keys
    && forall q :: !(a <= q < b) ==> m2.Get(q) == m1.Get(q)
  }

  /** Word q lies in an allocated block of bs. */
  ghost predicate InLive(bs: seq<Blk>, q: int) {
    exists j :: 0 <= j < |bs| && bs[j].alloc && Within(bs[j], q)
  }

  /** Every allocated block of bs is still a block of cs. */
  ghost predicate AllocIn(bs: seq<Blk>, cs: seq<Blk>) {
    forall t :: 0 <= t < |bs| && bs[t].alloc ==> bs[t] in cs
  }

  /** No allocated block of bs has payload address p. */
  ghost predicate NoAllocAt(bs: seq<Blk>, p: int) {
    forall t :: 0 <= t < |bs| && bs[t].alloc ==> bs[t].bp != p
  }

  /** Every allocated block of bs other than bs[k] is still a block of cs. */
  ghost predicate AllocKept(bs: seq<Blk>, k: int, cs: seq<Blk>) {
    forall t :: 0 <= t < |bs| && t != k && bs[t].alloc ==> bs[t] in cs
  }

  /** No word of an allocated block of bs differs between m1 and m2. */
  ghost predicate LiveKept(m1: Mem, m2: Mem, bs: seq<Blk>) {
    && m2.lo == m1.lo && m1.Brk() <= m2.Brk()
    && forall q {:trigger InLive(bs, q)} :: InLive(bs, q) && m1.InRange(q) ==> m2.InRange(q) && m2.Get(q) == m1.Get(q)
  }

  /** p lies in no allocated block. */
  ghost predicate NotLive(bs: seq<Blk>, p: int) {
    !InLive(bs, p)
  }

  lemma LiveKeptRefl(m: Mem, bs: seq<Blk>)
    ensures LiveKept(m, m, bs)
  {
  }

  lemma LiveKeptTrans(m1: Mem, m2: Mem, m3: Mem, bs: seq<Blk>)
    requires LiveKept(m1, m2, bs) && LiveKept(m2, m3, bs)
    ensures LiveKept(m1, m3, bs)
  {
  }

  lemma StoreKeepsLive(m: Mem, bs: seq<Blk>, p: int, v: u32)
    requires m.InRange(p) && NotLive(bs, p)
    ensures LiveKept(m, m.Set(p, v), bs)
  {
  }

  /** A word of a free block lies in no allocated block. */
  lemma FreeNotLive(m: Mem, bs: seq<Blk>, j: int, p: int)
    requires Heap(m, bs) && 0 <= j < |bs| && !bs[j].alloc && Within(bs[j], p)
    ensures NotLive(bs, p)
  {
    forall i | 0 <= i < |bs| && bs[i].alloc
      ensures !Within(bs[i], p)
    {
      Disjoint(bs, FirstBp(m), m.Brk(), j, i, p);
    }
  }

  /** The prologue and everything from the epilogue header on lie in no block. */
  lemma OutsideNotLive(m: Mem, bs: seq<Blk>, p: int)
    requires Heap(m, bs)
    requires p < FirstBp(m) - WSIZE || m.Brk() - WSIZE <= p
    ensures NotLive(bs, p)
  {
    forall i | 0 <= i < |bs| && bs[i].alloc
      ensures !Within(bs[i], p)
    {
      Bounds(bs, FirstBp(m), m.Brk(), i);
    }
  }

  // ---------------------------------------------------------------------
  // The free list

  /** Where a free block keeps its two list links, as byte offsets from bp. */
  datatype Layout = Layout(predOff: int, succOff: int) {
    predicate Ok() {
      (predOff == 0 && succOff == WSIZE) || (predOff == WSIZE && succOff == 0)
    }
  }

  /** x has aligned link words in the heap holding next (successor) and prev (predecessor). */
  ghost predicate LinkedAs(m: Mem, L: Layout, x: int, next: int, prev: int) {
    && L.Ok()
    && x % 8 == 0 && m.InRange(x) && m.InRange(x + WSIZE)
    && m.Get(x + L.succOff) as int == next
    && m.Get(x + L.predOff) as int == prev
  }

  /** The member after fl[i], or pro after the last one. */
  function Next(fl: seq<int>, i: int, pro: int): (r: int)
    requires 0 <= i < |fl|
  {
    if i + 1 < |fl| then fl[i + 1] else pro
  }

  /** The member before fl[i], or NULL before the first one. */
  function Prev(fl: seq<int>, i: int): (r: int)
    requires 0 <= i < |fl|
  {
    if i == 0 then NULL else fl[i - 1]
  }

  /** Member i of fl is linked to its neighbours. */
  ghost predicate LinkOk(m: Mem, L: Layout, pro: int, fl: seq<int>, i: int)
    requires 0 <= i < |fl|
  {
    LinkedAs(m, L, fl[i], Next(fl, i, pro), Prev(fl, i))
  }

  /**
   * fl, read from head, is a doubly linked list: each member's successor link
   * holds the next member (the last one's holds pro, the prologue), each
   * member's predecessor link holds the previous member (the first one's
   * holds NULL), and no block appears twice. The terminator pro is the
   * prologue, whose own predecessor link is written but never read.
   */
  ghost predicate Links(m: Mem, L: Layout, pro: int, head: int, fl: seq<int>) {
    && L.Ok()
    && pro % 8 == 0 && m.InRange(pro) && m.InRange(pro + WSIZE) && pro !in fl
    && head == (if fl == [] then pro else fl[0])
    && (forall i :: 0 <= i < |fl| ==> LinkOk(m, L, pro, fl, i))
    && Distinct(fl)
  }

  /** The link words of two different aligned blocks are four different words. */
  lemma Apart(a: int, b: int)
    requires a % 8 == 0 && b % 8 == 0 && a != b
    ensures a != b + WSIZE && a + WSIZE != b && a + WSIZE != b + WSIZE
  {
  }

  /** No member appears twice. Stated through Differ so that it is used only where a proof asks for it. */
  ghost predicate Distinct(fl: seq<int>) {
    forall i, j :: 0 <= i < j < |fl| ==> Differ(fl, i, j)
  }

  ghost predicate Differ(fl: seq<int>, i: int, j: int)
    requires 0 <= i < |fl| && 0 <= j < |fl|
  {
    fl[i] != fl[j]
  }

  /** Every list member is the payload address of a free block. */
  ghost predicate Listed(bs: seq<Blk>, fl: seq<int>) {
    forall x :: x in fl ==> IsFreeBp(bs, x)
  }

  /** x is the payload address of a free block of bs. */
  ghost predicate IsFreeBp(bs: seq<Blk>, x: int) {
    exists j :: 0 <= j < |bs| && bs[j].bp == x && !bs[j].alloc
  }

  /** Every free block except bs[k] is on the list (k = -1: every free block). */
  ghost predicate ExactExcept(bs: seq<Blk>, fl: seq<int>, k: int) {
    forall i :: 0 <= i < |bs| && i != k && !bs[i].alloc ==> bs[i].bp in fl
  }

  /** No two neighbouring blocks are both free, except next to bs[k] (k = -1: none). */
  ghost predicate CoalescedExcept(bs: seq<Blk>, k: int) {
    forall i :: 0 <= i < |bs| - 1 && i != k && i + 1 != k ==> bs[i].alloc || bs[i + 1].alloc
  }

  /** p is none of the list members' link words. */
  ghost predicate NotSlot(fl: seq<int>, p: int) {
    forall i :: 0 <= i < |fl| ==> p != fl[i] && p != fl[i] + WSIZE
  }

  /** The whole structure: blocks, list, and every list member a free block. */
  ghost predicate Shape(m: Mem, L: Layout, head: int, bs: seq<Blk>, fl: seq<int>) {
    Heap(m, bs) && Links(m, L, Prologue(m), head, fl) && Listed(bs, fl)
  }

  /** A word of a block that is not on the list is none of the list's link words. */
  lemma UnlistedNotSlot(m: Mem, bs: seq<Blk>, fl: seq<int>, j: int, p: int)
    requires Heap(m, bs) && Listed(bs, fl) && 0 <= j < |bs| && bs[j].bp !in fl
    requires Within(bs[j], p)
    ensures NotSlot(fl, p)
  {
    forall i | 0 <= i < |fl|
      ensures p != fl[i] && p != fl[i] + WSIZE
    {
      assert fl[i] in fl && IsFreeBp(bs, fl[i]);
      var t :| 0 <= t < |bs| && bs[t].bp == fl[i] && !bs[t].alloc;
      if t != j {
        Disjoint(bs, FirstBp(m), m.Brk(), j, t, p);
      }
    }
  }

  /** The prologue's payload words and the epilogue header are none of the list's link words. */
  lemma OutsideNotSlot(m: Mem, bs: seq<Blk>, fl: seq<int>, p: int)
    requires Heap(m, bs) && Listed(bs, fl)
    requires p < FirstBp(m) - WSIZE || m.Brk() - WSIZE <= p
    ensures NotSlot(fl, p)
  {
    forall i | 0 <= i < |fl|
      ensures p != fl[i] && p != fl[i] + WSIZE
    {
      assert fl[i] in fl && IsFreeBp(bs, fl[i]);
      var t :| 0 <= t < |bs| && bs[t].bp == fl[i] && !bs[t].alloc;
      Bounds(bs, FirstBp(m), m.Brk(), t);
    }
  }

  /** m2 differs from m1 at most at the words in ws. */
  ghost predicate Changed(m1: Mem, m2: Mem, ws: set<int>) {
    && m2.lo == m1.lo && m2.Brk() == m1.Brk() && m2.cells.Keys == m1.cells.Keys
    && forall q :: q !in ws ==> m2.Get(q) == m1.Get(q)
  }

  /** A block whose link words did not change is still linked the same way. */
  lemma LinkKept(m: Mem, m': Mem, L: Layout, x: int, next: int, prev: int, ws: set<int>)
    requires LinkedAs(m, L, x, next, prev) && Changed(m, m', ws)
    requires x !in ws && x + WSIZE !in ws
    ensures LinkedAs(m', L, x, next, prev)
  {
  }

  /** A store at no link word keeps the list. */
  lemma StoreKeepsLinks(m: Mem, L: Layout, pro: int, head: int, fl: seq<int>, p: int, v: u32)
    requires Links(m, L, pro, head, fl) && m.InRange(p) && NotSlot(fl, p)
    ensures Links(m.Set(p, v), L, pro, head, fl)
  {
    forall i | 0 <= i < |fl|
      ensures LinkOk(m.Set(p, v), L, pro, fl, i)
    {
      assert LinkOk(m, L, pro, fl, i);
      LinkKept(m, m.Set(p, v), L, fl[i], Next(fl, i, pro), Prev(fl, i), {p});
    }
  }

  /** The neighbours of the members of [x] + fl. */
  lemma ConsNeighbours(x: int, fl: seq<int>, pro: int, i: int)
    requires 0 <= i < |fl|
    ensures ([x] + fl)[i + 1] == fl[i]
    ensures Next([x] + fl, i + 1, pro) == Next(fl, i, pro)
    ensures Prev([x] + fl, i + 1) == if i == 0 then x else Prev(fl, i)
    ensures Next([x] + fl, 0, pro) == fl[0] && Prev([x] + fl, 0) == NULL
  {
  }

  /** Linking x in front of the list (insert_in_head in both files). */
  lemma LinksInsert(m: Mem, m': Mem, L: Layout, pro: int, head: int, fl: seq<int>, x: int,
                    a1: int, a2: int, a3: int, pro': int)
    requires Links(m, L, pro, head, fl)
    requires x % 8 == 0 && m.InRange(x) && m.InRange(x + WSIZE) && x !in fl && x != pro
    requires a1 == x + L.succOff && a2 == x + L.predOff && a3 == head + L.predOff && pro' == pro
    requires Changed(m, m', {a1, a2, a3})
    requires m'.Get(a1) as int == head && m'.Get(a2) as int == NULL && m'.Get(a3) as int == x
    ensures Links(m', L, pro', x, [x] + fl)
  {
    var ws := {a1, a2, a3};
    var nl := [x] + fl;
    forall i | 0 <= i < |nl|
      ensures LinkOk(m', L, pro, nl, i)
    {
      if i > 0 {
        var y := fl[i - 1];
        assert LinkOk(m, L, pro, fl, i - 1);
        ConsNeighbours(x, fl, pro, i - 1);
        assert y != x;
        Apart(x, y);
        if i - 1 > 0 {
          assert Differ(fl, 0, i - 1);
          assert LinkOk(m, L, pro, fl, 0);
          Apart(fl[0], y);
          LinkKept(m, m', L, y, Next(fl, i - 1, pro), Prev(fl, i - 1), ws);
        } else {
          assert m'.Get(y + L.succOff) == m.Get(y + L.succOff);
        }
      }
    }
    DistinctCons(x, fl);
  }

  /** Unlinking the head: its successor becomes the head and gets a NULL predecessor. */
  lemma LinksRemoveHead(m: Mem, m': Mem, L: Layout, pro: int, fl: seq<int>, a: int, pro': int, h: int)
    requires fl != [] && Links(m, L, pro, fl[0], fl)
    requires var s := if |fl| > 1 then fl[1] else pro;
      a == s + L.predOff && Changed(m, m', {a}) && m'.Get(a) as int == NULL && pro' == pro && h == s
    ensures Links(m', L, pro', h, fl[1..])
  {
    var s := if |fl| > 1 then fl[1] else pro;
    var nl := fl[1..];
    forall i | 0 <= i < |nl|
      ensures LinkOk(m', L, pro, nl, i)
    {
      var y := fl[i + 1];
      assert LinkOk(m, L, pro, fl, i + 1);
      assert nl[i] == y && Next(nl, i, pro) == Next(fl, i + 1, pro);
      assert i > 0 ==> Prev(nl, i) == Prev(fl, i + 1);
      if i > 0 {
        assert Differ(fl, 1, i + 1);
        assert LinkOk(m, L, pro, fl, 1);
        Apart(fl[1], y);
        LinkKept(m, m', L, y, Next(fl, i + 1, pro), Prev(fl, i + 1), {a});
      } else {
        assert m'.Get(y + L.succOff) == m.Get(y + L.succOff);
      }
    }
    DistinctRemove(fl, 0);
    assert fl[..0] + fl[1..] == nl;
  }

  /** The neighbours of the members of fl with fl[k] dropped: only fl[k]'s two neighbours see a change. */
  lemma RemoveNeighbours(fl: seq<int>, pro: int, k: int, j: int)
    requires 0 < k < |fl| && 0 <= j < |fl| && j != k
    ensures var nl := fl[..k] + fl[k + 1..]; var i := if j < k then j else j - 1;
      && 0 <= i < |nl| && nl[i] == fl[j]
      && Next(nl, i, pro) == (if j == k - 1 then Next(fl, k, pro) else Next(fl, j, pro))
      && Prev(nl, i) == (if j == k + 1 then fl[k - 1] else Prev(fl, j))
  {
  }

  /** Member j of fl after fl[k] was unlinked: it keeps its link words unless it was fl[k]'s neighbour. */
  lemma RemoveLinkAt(m: Mem, m': Mem, L: Layout, pro: int, fl: seq<int>, k: int, j: int, a: int, b: int)
    requires 0 < k < |fl| && 0 <= j < |fl| && j != k && LinkOk(m, L, pro, fl, j)
    requires fl[j] != pro && pro % 8 == 0 && (fl[j] != fl[k - 1] <==> j != k - 1)
    requires k + 1 < |fl| ==> (fl[j] != fl[k + 1] <==> j != k + 1)
    requires fl[k - 1] % 8 == 0 && (k + 1 < |fl| ==> fl[k + 1] % 8 == 0)
    requires var p := fl[k - 1]; var s := Next(fl, k, pro);
      && a == p + L.succOff && b == s + L.predOff && Changed(m, m', {a, b})
      && m'.Get(a) as int == s && m'.Get(b) as int == p
    ensures LinkOk(m', L, pro, fl[..k] + fl[k + 1..], if j < k then j else j - 1)
  {
    var p := fl[k - 1];
    var s := Next(fl, k, pro);
    var y := fl[j];
    RemoveNeighbours(fl, pro, k, j);
    Apart(y, pro);
    if j != k - 1 {
      Apart(y, p);
      assert m'.Get(y + L.succOff) == m.Get(y + L.succOff);
    }
    if k + 1 < |fl| && j != k + 1 {
      Apart(y, fl[k + 1]);
    }
    if j != k + 1 {
      assert m'.Get(y + L.predOff) == m.Get(y + L.predOff);
    }
  }

  /** Unlinking fl[k] from the middle or the end: its neighbours are linked to each other. */
  lemma LinksRemoveInner(m: Mem, m': Mem, L: Layout, pro: int, head: int, fl: seq<int>, k: int, a: int, b: int, pro': int)
    requires Links(m, L, pro, head, fl) && 0 < k < |fl|
    requires var p := fl[k - 1]; var s := Next(fl, k, pro);
      && a == p + L.succOff && b == s + L.predOff && Changed(m, m', {a, b})
      && m'.Get(a) as int == s && m'.Get(b) as int == p && pro' == pro
    ensures Links(m', L, pro', head, fl[..k] + fl[k + 1..])
  {
    var nl := fl[..k] + fl[k + 1..];
    assert LinkOk(m, L, pro, fl, k - 1);
    assert k + 1 < |fl| ==> LinkOk(m, L, pro, fl, k + 1);
    forall i | 0 <= i < |nl|
      ensures LinkOk(m', L, pro, nl, i)
    {
      var j := if i < k then i else i + 1;
      assert LinkOk(m, L, pro, fl, j);
      if j < k - 1 {
        assert Differ(fl, j, k - 1);
      } else if j > k - 1 {
        assert Differ(fl, k - 1, j);
      }
      if j < k + 1 && k + 1 < |fl| {
        assert Differ(fl, j, k + 1);
      } else if j > k + 1 {
        assert Differ(fl, k + 1, j);
      }
      assert fl[j] in fl;
      RemoveLinkAt(m, m', L, pro, fl, k, j, a, b);
    }
    DistinctRemove(fl, k);
    assert forall y :: y in nl ==> y in fl;
  }

  lemma DistinctCons(x: int, fl: seq<int>)
    requires Distinct(fl) && x !in fl
    ensures Distinct([x] + fl)
  {
    var nl := [x] + fl;
    forall i, j | 0 <= i < j < |nl|
      ensures Differ(nl, i, j)
    {
      if i > 0 {
        assert Differ(fl, i - 1, j - 1);
      } else {
        assert nl[j] == fl[j - 1] && fl[j - 1] in fl;
      }
    }
  }

  /** Dropping the member at index k leaves only free blocks on the list. */
  lemma ListedRemove(bs: seq<Blk>, fl: seq<int>, k: int)
    requires Listed(bs, fl) && 0 <= k < |fl|
    ensures Listed(bs, fl[..k] + fl[k + 1..])
  {
    forall y | y in fl[..k] + fl[k + 1..]
      ensures IsFreeBp(bs, y)
    {
      assert y in fl;
    }
  }

  /** Dropping the member at index k keeps the list free of repetitions and adds no member. */
  lemma DistinctRemove(fl: seq<int>, k: int)
    requires Distinct(fl) && 0 <= k < |fl|
    ensures Distinct(fl[..k] + fl[k + 1..])
    ensures forall y :: y in fl[..k] + fl[k + 1..] ==> y in fl
  {
    var nl := fl[..k] + fl[k + 1..];
    forall i, j | 0 <= i < j < |nl|
      ensures Differ(nl, i, j)
    {
      var i' := if i < k then i else i + 1;
      var j' := if j < k then j else j + 1;
      assert nl[i] == fl[i'] && nl[j] == fl[j'];
      assert Differ(fl, i', j');
    }
    forall y | y in nl
      ensures y in fl
    {
      var i :| 0 <= i < |nl| && nl[i] == y;
      assert nl[i] == if i < k then fl[i] else fl[i + 1];
    }
  }

  /** fl with the first occurrence of x removed. */
  function Without(fl: seq<int>, x: int): (r: seq<int>)
    ensures |r| == if x in fl then |fl| - 1 else |fl|
  {
    if fl == [] then []
    else if fl[0] == x then fl[1..]
    else [fl[0]] + Without(fl[1..], x)
  }

  /** Removing a value that is not in the list leaves the list as it was. */
  lemma {:induction false} WithoutAbsent(fl: seq<int>, x: int)
    requires x !in fl
    ensures Without(fl, x) == fl
  {
    if fl != [] {
      assert fl[1..] + [] == fl[1..];
      WithoutAbsent(fl[1..], x);
      assert [fl[0]] + fl[1..] == fl;
    }
  }

  /** Removing the member at index k. */
  lemma {:induction false} WithoutAt(fl: seq<int>, k: int)
    requires 0 <= k < |fl| && forall i :: 0 <= i < k ==> fl[i] != fl[k]
    ensures Without(fl, fl[k]) == fl[..k] + fl[k + 1..]
  {
    if k > 0 {
      WithoutAt(fl[1..], k - 1);
      assert fl[1..][..k - 1] + fl[1..][k..] == (fl[..k] + fl[k + 1..])[1..];
    }
  }

  /** Removal from a list without repetitions removes x and nothing else, and keeps it free of repetitions. */
  lemma {:induction false} WithoutMembers(fl: seq<int>, x: int)
    requires Distinct(fl)
    ensures Distinct(Without(fl, x))
    ensures forall y :: y in Without(fl, x) <==> y in fl && y != x
  {
    if fl != [] {
      var t := fl[1..];
      assert Distinct(t) by {
        forall i, j | 0 <= i < j < |t|
          ensures Differ(t, i, j)
        {
          assert Differ(fl, i + 1, j + 1);
        }
      }
      assert fl[0] !in t by {
        forall i | 0 <= i < |t|
          ensures t[i] != fl[0]
        {
          assert Differ(fl, 0, i + 1);
        }
      }
      if fl[0] != x {
        WithoutMembers(t, x);
        var w := Without(t, x);
        var r := [fl[0]] + w;
        forall i, j | 0 <= i < j < |r|
          ensures Differ(r, i, j)
        {
          if i == 0 {
            assert r[j] == w[j - 1] && w[j - 1] in w;
          } else {
            assert Differ(w, i - 1, j - 1);
          }
        }
      }
    }
  }

  // ---------------------------------------------------------------------
  // Replacing a run of blocks

  /** One past the block's last byte: where the next block's payload starts. */
  function End(b: Blk): (r: int) {
    b.bp + b.size
  }

  /** bs with the blocks bs[i..j) replaced by nbs. */
  function Splice(bs: seq<Blk>, i: int, j: int, nbs: seq<Blk>): (r: seq<Blk>)
    requires 0 <= i <= j <= |bs|
    ensures |r| == |bs| - (j - i) + |nbs|
  {
    bs[..i] + nbs + bs[j..]
  }

  /** Where each block of a splice comes from. */
  lemma SpliceAt(bs: seq<Blk>, i: int, j: int, nbs: seq<Blk>, t: int)
    requires 0 <= i <= j <= |bs| && 0 <= t < |Splice(bs, i, j, nbs)|
    ensures Splice(bs, i, j, nbs)[t] ==
      if t < i then bs[t] else if t < i + |nbs| then nbs[t - i] else bs[t - i - |nbs| + j]
  {
  }

  /** A block outside the run bs[i..j) lies wholly before or wholly after it. */
  lemma Outside(bs: seq<Blk>, start: int, end: int, i: int, j: int, t: int)
    requires Tiles(bs, start, end) && 0 <= i < j <= |bs| && 0 <= t < |bs| && !(i <= t < j)
    ensures End(bs[t]) <= bs[i].bp || End(bs[j - 1]) <= bs[t].bp
  {
    if t < i {
      Ordered(bs, start, end, t, i);
    } else if j - 1 < t {
      Ordered(bs, start, end, j - 1, t);
    }
  }

  /** Replacing bs[i..j) by blocks that tile exactly the same bytes keeps the tiling. */
  lemma TilesSplice(bs: seq<Blk>, start: int, end: int, i: int, j: int, nbs: seq<Blk>)
    requires Tiles(bs, start, end) && 0 <= i < j <= |bs|
    requires |nbs| > 0 && Tiles(nbs, bs[i].bp, End(bs[j - 1]))
    ensures Tiles(Splice(bs, i, j, nbs), start, end)
  {
    var r := Splice(bs, i, j, nbs);
    forall t | 0 <= t < |r|
      ensures MIN_BLOCK <= r[t].size && r[t].size % 8 == 0
      ensures t + 1 < |r| ==> r[t].bp + r[t].size == r[t + 1].bp
    {
      SpliceStep(bs, start, end, i, j, nbs, t);
    }
    SpliceAt(bs, i, j, nbs, 0);
    SpliceAt(bs, i, j, nbs, |r| - 1);
  }

  /** One block of a splice and its link to the next. */
  lemma SpliceStep(bs: seq<Blk>, start: int, end: int, i: int, j: int, nbs: seq<Blk>, t: int)
    requires Tiles(bs, start, end) && 0 <= i < j <= |bs|
    requires |nbs| > 0 && Tiles(nbs, bs[i].bp, End(bs[j - 1]))
    requires 0 <= t < |Splice(bs, i, j, nbs)|
    ensures var r := Splice(bs, i, j, nbs);
      && MIN_BLOCK <= r[t].size && r[t].size % 8 == 0
      && (t + 1 < |r| ==> r[t].bp + r[t].size == r[t + 1].bp)
  {
    SpliceAt(bs, i, j, nbs, t);
    if t + 1 < |Splice(bs, i, j, nbs)| {
      SpliceAt(bs, i, j, nbs, t + 1);
    }
  }

  /** A list member outside the replaced run is still the payload address of a free block. */
  lemma ListedSplice(bs: seq<Blk>, i: int, j: int, nbs: seq<Blk>, fl: seq<int>)
    requires 0 <= i <= j <= |bs| && Listed(bs, fl)
    requires forall t :: i <= t < j ==> bs[t].bp !in fl
    ensures Listed(Splice(bs, i, j, nbs), fl)
  {
    var r := Splice(bs, i, j, nbs);
    forall x | x in fl
      ensures IsFreeBp(r, x)
    {
      assert IsFreeBp(bs, x);
      var t :| 0 <= t < |bs| && bs[t].bp == x && !bs[t].alloc;
      var u := if t < i then t else t - j + i + |nbs|;
      SpliceAt(bs, i, j, nbs, u);
      assert r[u] == bs[t];
    }
  }

  /** The tag words of b hold the same values in m' as in m. */
  lemma TagKept(m: Mem, m': Mem, b: Blk)
    requires TagOk(m, b) && m'.cells.Keys == m.cells.Keys
    requires m'.Get(b.bp - WSIZE) == m.Get(b.bp - WSIZE)
    requires m'.Get(End(b) - DSIZE) == m.Get(End(b) - DSIZE)
    ensures TagOk(m', b)
  {
  }

  /** The heap is still well formed after its cells changed value but not address. */
  lemma WfKept(m: Mem, m': Mem)
    requires m.Wf() && m'.lo == m.lo && m'.Brk() == m.Brk() && m'.cells.Keys == m.cells.Keys
    ensures m'.Wf()
  {
    forall q
      ensures m'.Word(q) <==> q in m'.cells
    {
      assert m.Word(q) <==> q in m.cells;
    }
  }

  /** The sentinels survive a change confined to the blocks. */
  lemma SentinelsKept(m: Mem, m': Mem, a: int, c: int)
    requires Sentinels(m) && AgreeOutside(m, m', a, c)
    requires FirstBp(m) - WSIZE <= a && c <= m.Brk() - WSIZE
    ensures Sentinels(m')
  {
    WfKept(m, m');
  }

  /**
   * Rewriting the bytes of bs[i..j) so that they hold the blocks nbs, with
   * their tags, gives a heap of the spliced blocks.
   */
  lemma Retile(m: Mem, m': Mem, bs: seq<Blk>, i: int, j: int, nbs: seq<Blk>)
    requires Heap(m, bs) && 0 <= i < j <= |bs|
    requires |nbs| > 0 && Tiles(nbs, bs[i].bp, End(bs[j - 1])) && TagsMatch(m', nbs)
    requires AgreeOutside(m, m', bs[i].bp - WSIZE, End(bs[j - 1]) - WSIZE)
    ensures Heap(m', Splice(bs, i, j, nbs))
  {
    var s, e := FirstBp(m), m.Brk();
    Bounds(bs, s, e, i);
    Bounds(bs, s, e, j - 1);
    SentinelsKept(m, m', bs[i].bp - WSIZE, End(bs[j - 1]) - WSIZE);
    TilesSplice(bs, s, e, i, j, nbs);
    var r := Splice(bs, i, j, nbs);
    forall t | 0 <= t < |r|
      ensures TagOk(m', r[t])
    {
      RetileTag(m, m', bs, i, j, nbs, t);
    }
  }

  /** The tags of one block of the spliced heap. */
  lemma RetileTag(m: Mem, m': Mem, bs: seq<Blk>, i: int, j: int, nbs: seq<Blk>, t: int)
    requires Heap(m, bs) && 0 <= i < j <= |bs| && TagsMatch(m', nbs)
    requires AgreeOutside(m, m', bs[i].bp - WSIZE, End(bs[j - 1]) - WSIZE)
    requires 0 <= t < |Splice(bs, i, j, nbs)|
    ensures TagOk(m', Splice(bs, i, j, nbs)[t])
  {
    SpliceAt(bs, i, j, nbs, t);
    if t < i || t >= i + |nbs| {
      var u := if t < i then t else t - i - |nbs| + j;
      Outside(bs, FirstBp(m), m.Brk(), i, j, u);
      assert TagOk(m, bs[u]);
      TagKept(m, m', bs[u]);
    } else {
      assert TagOk(m', nbs[t - i]);
    }
  }

  /** Rewriting the bytes of unlisted blocks keeps the list. */
  lemma LinksRetile(m: Mem, m': Mem, L: Layout, head: int, bs: seq<Blk>, fl: seq<int>, i: int, j: int)
    requires Heap(m, bs) && Links(m, L, Prologue(m), head, fl) && Listed(bs, fl) && 0 <= i < j <= |bs|
    requires forall t :: i <= t < j ==> bs[t].bp !in fl
    requires AgreeOutside(m, m', bs[i].bp - WSIZE, End(bs[j - 1]) - WSIZE)
    ensures Links(m', L, Prologue(m), head, fl)
  {
    var s, e := FirstBp(m), m.Brk();
    var pro := Prologue(m);
    Bounds(bs, s, e, i);
    forall x | 0 <= x < |fl|
      ensures LinkOk(m', L, pro, fl, x)
    {
      assert LinkOk(m, L, pro, fl, x);
      assert fl[x] in fl && IsFreeBp(bs, fl[x]);
      var t :| 0 <= t < |bs| && bs[t].bp == fl[x] && !bs[t].alloc;
      Outside(bs, s, e, i, j, t);
      assert m'.Get(fl[x] + L.succOff) == m.Get(fl[x] + L.succOff);
      assert m'.Get(fl[x] + L.predOff) == m.Get(fl[x] + L.predOff);
    }
  }

  /** Rewriting the bytes of free blocks leaves every allocated block's words alone. */
  lemma LiveRetile(m: Mem, m': Mem, bs: seq<Blk>, i: int, j: int)
    requires Heap(m, bs) && 0 <= i < j <= |bs|
    requires forall t :: i <= t < j ==> !bs[t].alloc
    requires AgreeOutside(m, m', bs[i].bp - WSIZE, End(bs[j - 1]) - WSIZE)
    ensures LiveKept(m, m', bs)
  {
    var s, e := FirstBp(m), m.Brk();
    forall q | InLive(bs, q) && m.InRange(q)
      ensures m'.InRange(q) && m'.Get(q) == m.Get(q)
    {
      var t :| 0 <= t < |bs| && bs[t].alloc && Within(bs[t], q);
      Outside(bs, s, e, i, j, t);
    }
  }

  // ---------------------------------------------------------------------
  // Walking the blocks

  /** On a well-formed heap, the header of block k decodes to its size and allocated bit, and FTRP finds its footer. */
  lemma Decode(m: Mem, bs: seq<Blk>, k: int)
    requires Heap(m, bs) && 0 <= k < |bs|
    ensures m.InRange(Hdrp(bs[k].bp)) && m.InRange(End(bs[k]) - DSIZE)
    ensures GetSize(m.Get(Hdrp(bs[k].bp))) as int == bs[k].size
    ensures GetAlloc(m.Get(Hdrp(bs[k].bp))) == AllocBit(bs[k].alloc)
    ensures GetAlloc(m.Get(End(bs[k]) - DSIZE)) == AllocBit(bs[k].alloc)
    ensures Ftrp(m, bs[k].bp) == End(bs[k]) - DSIZE
  {
    assert TagOk(m, bs[k]);
    PackRoundTrip(bs[k].size as u32, AllocBit(bs[k].alloc));
  }

  /** NEXT_BLKP finds the next block, or the epilogue at the break, which reads as allocated. */
  lemma NextNeighbour(m: Mem, bs: seq<Blk>, k: int)
    requires Heap(m, bs) && 0 <= k < |bs|
    ensures NextBlkp(m, bs[k].bp) == if k + 1 < |bs| then bs[k + 1].bp else m.Brk()
    ensures m.InRange(Hdrp(NextBlkp(m, bs[k].bp)))
    ensures GetAlloc(m.Get(Hdrp(NextBlkp(m, bs[k].bp)))) == if k + 1 < |bs| then AllocBit(bs[k + 1].alloc) else 1
  {
    Decode(m, bs, k);
    if k + 1 < |bs| {
      Decode(m, bs, k + 1);
    } else {
      PackRoundTrip(0, 1);
      assert m.Get(m.Brk() - WSIZE) != 0;
    }
  }

  /** PREV_BLKP finds the previous block, or the prologue, whose footer reads as allocated. */
  lemma PrevNeighbour(m: Mem, bs: seq<Blk>, k: int)
    requires Heap(m, bs) && 0 <= k < |bs|
    ensures PrevBlkp(m, bs[k].bp) == if k > 0 then bs[k - 1].bp else Prologue(m)
    ensures m.InRange(Ftrp(m, PrevBlkp(m, bs[k].bp)))
    ensures GetAlloc(m.Get(Ftrp(m, PrevBlkp(m, bs[k].bp)))) == if k > 0 then AllocBit(bs[k - 1].alloc) else 1
  {
    if k > 0 {
      Decode(m, bs, k - 1);
    } else {
      PackRoundTrip(16, 1);
      assert m.Get(m.lo + WSIZE) != 0 && m.Get(m.lo + 4 * WSIZE) != 0;
    }
  }

  // ---------------------------------------------------------------------
  // What coalesce does to the blocks and to the list

  /** The blocks bs[i..j) as one free block. */
  function Merged(bs: seq<Blk>, i: int, j: int): (r: Blk)
    requires 0 <= i < j <= |bs|
  {
    Blk(bs[i].bp, End(bs[j - 1]) - bs[i].bp, false)
  }

  /** The first block coalesce merges around bs[k]: the previous one when it is free. */
  function MergeLo(bs: seq<Blk>, k: int): (r: int)
    requires 0 <= k < |bs|
  {
    if k > 0 && !bs[k - 1].alloc then k - 1 else k
  }

  /** One past the last block coalesce merges around bs[k]: past the next one when it is free. */
  function MergeHi(bs: seq<Blk>, k: int): (r: int)
    requires 0 <= k < |bs|
  {
    if k + 1 < |bs| && !bs[k + 1].alloc then k + 2 else k + 1
  }

  /** The blocks after coalesce(bs[k].bp): bs[k] fused with whichever neighbours are free. */
  function CoalesceSpec(bs: seq<Blk>, k: int): (r: seq<Blk>)
    requires 0 <= k < |bs|
  {
    var lo, hi := MergeLo(bs, k), MergeHi(bs, k);
    Splice(bs, lo, hi, [Merged(bs, lo, hi)])
  }

  /** The list after the absorbed neighbours are unlinked (the previous one first) but before the merged block is pushed. */
  function CoalesceRest(bs: seq<Blk>, k: int, fl: seq<int>): (r: seq<int>)
    requires 0 <= k < |bs|
  {
    var f1 := if MergeLo(bs, k) < k then Without(fl, bs[k - 1].bp) else fl;
    if MergeHi(bs, k) > k + 1 then Without(f1, bs[k + 1].bp) else f1
  }

  /** The list after coalesce: the merged block pushed in front. */
  function CoalesceList(bs: seq<Blk>, k: int, fl: seq<int>): (r: seq<int>)
    requires 0 <= k < |bs|
  {
    [bs[MergeLo(bs, k)].bp] + CoalesceRest(bs, k, fl)
  }

  /** The merged block tiles exactly the bytes of the blocks it replaces. */
  lemma MergedTiles(bs: seq<Blk>, start: int, end: int, i: int, j: int)
    requires Tiles(bs, start, end) && 0 <= i < j <= |bs|
    ensures Tiles([Merged(bs, i, j)], bs[i].bp, End(bs[j - 1]))
    ensures Merged(bs, i, j).size >= bs[i].size
  {
    Bounds(bs, start, end, i);
    Bounds(bs, start, end, j - 1);
    if i < j - 1 {
      Ordered(bs, start, end, i, j - 1);
    }
    Aligned8(bs[j - 1].bp, bs[j - 1].size);
    Aligned8(End(bs[j - 1]), bs[i].bp);
  }

  /** Sums and differences of multiples of 8 are multiples of 8. */
  lemma Aligned8(a: int, b: int)
    requires a % 8 == 0 && b % 8 == 0
    ensures (a + b) % 8 == 0 && (a - b) % 8 == 0
  {
    assert a + b == 8 * (a / 8 + b / 8) && a - b == 8 * (a / 8 - b / 8);
  }

  /** The rest list holds exactly the old members other than the absorbed neighbours, each once. */
  lemma CoalesceRestMembers(bs: seq<Blk>, k: int, fl: seq<int>)
    requires 0 <= k < |bs| && Distinct(fl)
    ensures Distinct(CoalesceRest(bs, k, fl))
    ensures forall y :: y in CoalesceRest(bs, k, fl) <==>
      && y in fl
      && (MergeLo(bs, k) < k ==> y != bs[k - 1].bp)
      && (MergeHi(bs, k) > k + 1 ==> y != bs[k + 1].bp)
  {
    var f1 := if MergeLo(bs, k) < k then Without(fl, bs[k - 1].bp) else fl;
    if MergeLo(bs, k) < k {
      WithoutMembers(fl, bs[k - 1].bp);
    }
    if MergeHi(bs, k) > k + 1 {
      WithoutMembers(f1, bs[k + 1].bp);
    }
  }

  /** Where an old block that coalesce did not absorb ends up. */
  lemma CoalesceIndex(bs: seq<Blk>, k: int, t: int)
    requires 0 <= k < |bs| && 0 <= t < |bs| && !(MergeLo(bs, k) <= t < MergeHi(bs, k))
    ensures var u := if t < MergeLo(bs, k) then t else t - MergeHi(bs, k) + MergeLo(bs, k) + 1;
      0 <= u < |CoalesceSpec(bs, k)| && CoalesceSpec(bs, k)[u] == bs[t]
  {
    var lo, hi := MergeLo(bs, k), MergeHi(bs, k);
    var u := if t < lo then t else t - hi + lo + 1;
    SpliceAt(bs, lo, hi, [Merged(bs, lo, hi)], u);
  }

  /** Coalescing keeps the tiling and leaves every allocated block in place. */
  lemma CoalesceTiles(bs: seq<Blk>, start: int, end: int, k: int)
    requires Tiles(bs, start, end) && 0 <= k < |bs| && !bs[k].alloc
    ensures Tiles(CoalesceSpec(bs, k), start, end)
    ensures AllocIn(bs, CoalesceSpec(bs, k))
  {
    var lo, hi := MergeLo(bs, k), MergeHi(bs, k);
    MergedTiles(bs, start, end, lo, hi);
    TilesSplice(bs, start, end, lo, hi, [Merged(bs, lo, hi)]);
    forall t | 0 <= t < |bs| && bs[t].alloc
      ensures bs[t] in CoalesceSpec(bs, k)
    {
      CoalesceIndex(bs, k, t);
    }
  }

  /** The list after coalescing names free blocks only, each once. */
  lemma CoalesceListed(bs: seq<Blk>, start: int, end: int, k: int, fl: seq<int>)
    requires Tiles(bs, start, end) && 0 <= k < |bs|
    requires Listed(bs, fl) && Distinct(fl) && bs[k].bp !in fl
    ensures Listed(CoalesceSpec(bs, k), CoalesceList(bs, k, fl))
    ensures Distinct(CoalesceList(bs, k, fl))
  {
    var lo, hi := MergeLo(bs, k), MergeHi(bs, k);
    var rest := CoalesceRest(bs, k, fl);
    var cs := CoalesceSpec(bs, k);
    CoalesceRestMembers(bs, k, fl);
    assert Listed(bs, rest);
    forall t | lo <= t < hi
      ensures bs[t].bp !in rest
    {
    }
    ListedSplice(bs, lo, hi, [Merged(bs, lo, hi)], rest);
    SpliceAt(bs, lo, hi, [Merged(bs, lo, hi)], lo);
    assert IsFreeBp(cs, bs[lo].bp);
    DistinctCons(bs[lo].bp, rest);
  }

  /** After coalescing every free block is on the list. */
  lemma CoalesceExact(bs: seq<Blk>, start: int, end: int, k: int, fl: seq<int>)
    requires Tiles(bs, start, end) && 0 <= k < |bs| && !bs[k].alloc
    requires Distinct(fl) && ExactExcept(bs, fl, k)
    ensures ExactExcept(CoalesceSpec(bs, k), CoalesceList(bs, k, fl), -1)
  {
    var lo, hi := MergeLo(bs, k), MergeHi(bs, k);
    var cs := CoalesceSpec(bs, k);
    CoalesceRestMembers(bs, k, fl);
    forall u | 0 <= u < |cs| && !cs[u].alloc
      ensures cs[u].bp in CoalesceList(bs, k, fl)
    {
      SpliceAt(bs, lo, hi, [Merged(bs, lo, hi)], u);
      if u != lo {
        var t := if u < lo then u else u - lo - 1 + hi;
        assert cs[u] == bs[t];
        KeptListed(bs, start, end, k, fl, t);
      }
    }
  }

  /** A free block coalesce leaves alone is listed and is neither absorbed neighbour. */
  lemma KeptListed(bs: seq<Blk>, start: int, end: int, k: int, fl: seq<int>, t: int)
    requires Tiles(bs, start, end) && 0 <= k < |bs| && 0 <= t < |bs| && !bs[t].alloc
    requires !(MergeLo(bs, k) <= t < MergeHi(bs, k))
    requires ExactExcept(bs, fl, k)
    ensures var y := bs[t].bp;
      && y in fl
      && (MergeLo(bs, k) < k ==> y != bs[k - 1].bp)
      && (MergeHi(bs, k) > k + 1 ==> y != bs[k + 1].bp)
  {
    assert t != k;
    if MergeLo(bs, k) < k {
      UniqueBpNe(bs, start, end, t, k - 1);
    }
    if MergeHi(bs, k) > k + 1 {
      UniqueBpNe(bs, start, end, t, k + 1);
    }
  }

  /** Different blocks have different payload addresses. */
  lemma UniqueBpNe(bs: seq<Blk>, start: int, end: int, i: int, j: int)
    requires Tiles(bs, start, end) && 0 <= i < |bs| && 0 <= j < |bs| && i != j
    ensures bs[i].bp != bs[j].bp
  {
    if bs[i].bp == bs[j].bp {
      UniqueBp(bs, start, end, i, j);
    }
  }

  /** After coalescing no two neighbouring blocks are both free. */
  lemma CoalesceCoalesced(bs: seq<Blk>, k: int)
    requires 0 <= k < |bs| && !bs[k].alloc && CoalescedExcept(bs, k)
    ensures CoalescedExcept(CoalesceSpec(bs, k), -1)
  {
    var lo, hi := MergeLo(bs, k), MergeHi(bs, k);
    var cs := CoalesceSpec(bs, k);
    forall u | 0 <= u < |cs| - 1
      ensures cs[u].alloc || cs[u + 1].alloc
    {
      SpliceAt(bs, lo, hi, [Merged(bs, lo, hi)], u);
      SpliceAt(bs, lo, hi, [Merged(bs, lo, hi)], u + 1);
      if u + 1 == lo && lo < k {
        assert cs[u] == bs[k - 2];
      } else if u == lo && hi > k + 1 {
        assert cs[u + 1] == bs[k + 2];
      } else if u > lo {
        var t := u - lo - 1 + hi;
        assert cs[u] == bs[t] && cs[u + 1] == bs[t + 1];
      }
    }
  }

  /**
   * coalesce's whole effect on the abstract heap: from a heap where only
   * bs[k] may be free next to a free block and off the list, it produces a
   * tiled heap whose free blocks are exactly the listed ones, with no two free
   * blocks adjacent, and with every allocated block unchanged.
   */
  lemma CoalesceKeepsShape(bs: seq<Blk>, start: int, end: int, k: int, fl: seq<int>)
    requires Tiles(bs, start, end) && 0 <= k < |bs| && !bs[k].alloc
    requires Listed(bs, fl) && Distinct(fl) && bs[k].bp !in fl
    requires ExactExcept(bs, fl, k) && CoalescedExcept(bs, k)
    ensures var cs, cl := CoalesceSpec(bs, k), CoalesceList(bs, k, fl);
      && Tiles(cs, start, end) && Listed(cs, cl) && Distinct(cl)
      && ExactExcept(cs, cl, -1) && CoalescedExcept(cs, -1)
      && AllocIn(bs, cs)
  {
    CoalesceTiles(bs, start, end, k);
    CoalesceListed(bs, start, end, k, fl);
    CoalesceExact(bs, start, end, k, fl);
    CoalesceCoalesced(bs, k);
  }

  // ---------------------------------------------------------------------
  // What place does to the blocks and to the list

  /** place splits the free block when the remainder would be a whole minimum block. */
  predicate Splits(b: Blk, asize: int) {
    b.size - asize >= MIN_BLOCK
  }

  /** The blocks after place(bs[k].bp, asize): bs[k] allocated, split when the rest is big enough. */
  function PlaceSpec(bs: seq<Blk>, k: int, asize: int): (r: seq<Blk>)
    requires 0 <= k < |bs|
  {
    var b := bs[k];
    if Splits(b, asize)
    then Splice(bs, k, k + 1, [Blk(b.bp, asize, true), Blk(b.bp + asize, b.size - asize, false)])
    else Splice(bs, k, k + 1, [Blk(b.bp, b.size, true)])
  }

  /** The list after place: bs[k] unlinked, the split-off remainder pushed in front. */
  function PlaceList(bs: seq<Blk>, k: int, asize: int, fl: seq<int>): (r: seq<int>)
    requires 0 <= k < |bs|
  {
    var rest := Without(fl, bs[k].bp);
    if Splits(bs[k], asize) then [bs[k].bp + asize] + rest else rest
  }

  /** The replacement blocks tile bs[k] and start with the allocated one. */
  function PlacePieces(b: Blk, asize: int): (r: seq<Blk>) {
    if Splits(b, asize)
    then [Blk(b.bp, asize, true), Blk(b.bp + asize, b.size - asize, false)]
    else [Blk(b.bp, b.size, true)]
  }

  lemma PlacePiecesTile(bs: seq<Blk>, start: int, end: int, k: int, asize: int)
    requires Tiles(bs, start, end) && 0 <= k < |bs|
    requires asize % DSIZE == 0 && MIN_BLOCK <= asize <= bs[k].size
    ensures Tiles(PlacePieces(bs[k], asize), bs[k].bp, End(bs[k]))
    ensures PlaceSpec(bs, k, asize) == Splice(bs, k, k + 1, PlacePieces(bs[k], asize))
  {
    Bounds(bs, start, end, k);
  }

  /** The address asize bytes into a block that place splits is no block's payload address. */
  lemma RemainderNew(bs: seq<Blk>, start: int, end: int, k: int, asize: int, fl: seq<int>)
    requires Tiles(bs, start, end) && 0 <= k < |bs| && Listed(bs, fl)
    requires MIN_BLOCK <= asize && Splits(bs[k], asize)
    ensures bs[k].bp + asize !in fl
  {
    var x := bs[k].bp + asize;
    if x in fl {
      var t :| 0 <= t < |bs| && bs[t].bp == x && !bs[t].alloc;
      assert Within(bs[k], x) && Within(bs[t], x);
      Disjoint(bs, start, end, k, t, x);
    }
  }

  /** Placing keeps the tiling, leaves the other blocks as they were and keeps the list exact. */
  lemma PlaceTiles(bs: seq<Blk>, start: int, end: int, k: int, asize: int)
    requires Tiles(bs, start, end) && 0 <= k < |bs|
    requires asize % DSIZE == 0 && MIN_BLOCK <= asize <= bs[k].size
    ensures Tiles(PlaceSpec(bs, k, asize), start, end)
    ensures forall t :: 0 <= t < |bs| && t != k ==> bs[t] in PlaceSpec(bs, k, asize)
  {
    var pieces := PlacePieces(bs[k], asize);
    PlacePiecesTile(bs, start, end, k, asize);
    TilesSplice(bs, start, end, k, k + 1, pieces);
    forall t | 0 <= t < |bs| && t != k
      ensures bs[t] in PlaceSpec(bs, k, asize)
    {
      var u := if t < k then t else t + |pieces| - 1;
      SpliceAt(bs, k, k + 1, pieces, u);
    }
  }

  lemma PlaceListed(bs: seq<Blk>, start: int, end: int, k: int, asize: int, fl: seq<int>)
    requires Tiles(bs, start, end) && 0 <= k < |bs|
    requires asize % DSIZE == 0 && MIN_BLOCK <= asize <= bs[k].size
    requires Listed(bs, fl) && Distinct(fl)
    ensures Listed(PlaceSpec(bs, k, asize), PlaceList(bs, k, asize, fl))
    ensures Distinct(PlaceList(bs, k, asize, fl))
  {
    var pieces := PlacePieces(bs[k], asize);
    var rest := Without(fl, bs[k].bp);
    PlacePiecesTile(bs, start, end, k, asize);
    WithoutMembers(fl, bs[k].bp);
    assert Listed(bs, rest);
    ListedSplice(bs, k, k + 1, pieces, rest);
    if Splits(bs[k], asize) {
      RemainderNew(bs, start, end, k, asize, fl);
      SpliceAt(bs, k, k + 1, pieces, k + 1);
      assert IsFreeBp(PlaceSpec(bs, k, asize), bs[k].bp + asize);
      DistinctCons(bs[k].bp + asize, rest);
    }
  }

  lemma PlaceExact(bs: seq<Blk>, start: int, end: int, k: int, asize: int, fl: seq<int>)
    requires Tiles(bs, start, end) && 0 <= k < |bs|
    requires asize % DSIZE == 0 && MIN_BLOCK <= asize <= bs[k].size
    requires Distinct(fl) && ExactExcept(bs, fl, -1)
    ensures ExactExcept(PlaceSpec(bs, k, asize), PlaceList(bs, k, asize, fl), -1)
  {
    var pieces := PlacePieces(bs[k], asize);
    var ps := PlaceSpec(bs, k, asize);
    PlacePiecesTile(bs, start, end, k, asize);
    WithoutMembers(fl, bs[k].bp);
    forall u | 0 <= u < |ps| && !ps[u].alloc
      ensures ps[u].bp in PlaceList(bs, k, asize, fl)
    {
      SpliceAt(bs, k, k + 1, pieces, u);
      if u < k || u >= k + |pieces| {
        var t := if u < k then u else u - |pieces| + 1;
        UniqueBpNe(bs, start, end, t, k);
      }
    }
  }

  lemma PlaceCoalesced(bs: seq<Blk>, k: int, asize: int)
    requires 0 <= k < |bs| && !bs[k].alloc && CoalescedExcept(bs, -1)
    ensures CoalescedExcept(PlaceSpec(bs, k, asize), -1)
  {
    var pieces := PlacePieces(bs[k], asize);
    var ps := PlaceSpec(bs, k, asize);
    forall u | 0 <= u < |ps| - 1
      ensures ps[u].alloc || ps[u + 1].alloc
    {
      SpliceAt(bs, k, k + 1, pieces, u);
      SpliceAt(bs, k, k + 1, pieces, u + 1);
      if u + 1 >= k + |pieces| && u < k + |pieces| {
        assert ps[u + 1] == bs[k + 1];
      } else if u >= k + |pieces| {
        var t := u - |pieces| + 1;
        assert ps[u] == bs[t] && ps[u + 1] == bs[t + 1];
      }
    }
  }

  /**
   * place's whole effect on the abstract heap: bs[k] becomes an allocated
   * block of asize bytes (or of its whole size when the remainder would be
   * smaller than a minimum block), the remainder becomes a listed free block,
   * and the tiling, the list's exactness and coalescing all hold afterwards.
   */
  lemma PlaceKeepsShape(bs: seq<Blk>, start: int, end: int, k: int, asize: int, fl: seq<int>)
    requires Tiles(bs, start, end) && 0 <= k < |bs| && !bs[k].alloc
    requires asize % DSIZE == 0 && MIN_BLOCK <= asize <= bs[k].size
    requires Listed(bs, fl) && Distinct(fl)
    requires ExactExcept(bs, fl, -1) && CoalescedExcept(bs, -1)
    ensures var ps, pl := PlaceSpec(bs, k, asize), PlaceList(bs, k, asize, fl);
      && Tiles(ps, start, end) && Listed(ps, pl) && Distinct(pl)
      && ExactExcept(ps, pl, -1) && CoalescedExcept(ps, -1)
      && ps[k].bp == bs[k].bp && ps[k].alloc
      && asize <= ps[k].size && (ps[k].size == asize || ps[k].size - asize < MIN_BLOCK)
      && (forall t :: 0 <= t < |bs| && t != k ==> bs[t] in ps)
  {
    var pieces := PlacePieces(bs[k], asize);
    PlacePiecesTile(bs, start, end, k, asize);
    SpliceAt(bs, k, k + 1, pieces, k);
    PlaceTiles(bs, start, end, k, asize);
    PlaceListed(bs, start, end, k, asize, fl);
    PlaceExact(bs, start, end, k, asize, fl);
    PlaceCoalesced(bs, k, asize);
  }

  // ---------------------------------------------------------------------
  // Freeing and growing, before coalesce runs

  /** The blocks after the header and footer of bs[k] are marked free. */
  function FreeSpec(bs: seq<Blk>, k: int): (r: seq<Blk>)
    requires 0 <= k < |bs|
    ensures |r| == |bs| && !r[k].alloc
  {
    bs[k := Blk(bs[k].bp, bs[k].size, false)]
  }

  /** Marking an allocated block free leaves a heap in which only that block is off the list and possibly uncoalesced. */
  lemma FreePending(bs: seq<Blk>, start: int, end: int, k: int, fl: seq<int>)
    requires Tiles(bs, start, end) && 0 <= k < |bs| && bs[k].alloc
    requires Listed(bs, fl) && ExactExcept(bs, fl, -1) && CoalescedExcept(bs, -1)
    ensures var fs := FreeSpec(bs, k);
      && Tiles(fs, start, end) && Listed(fs, fl) && bs[k].bp !in fl
      && ExactExcept(fs, fl, k) && CoalescedExcept(fs, k)
  {
    var fs := FreeSpec(bs, k);
    forall x | x in fl
      ensures IsFreeBp(fs, x) && x != bs[k].bp
    {
      var t :| 0 <= t < |bs| && bs[t].bp == x && !bs[t].alloc;
      assert fs[t] == bs[t];
      UniqueBpNe(bs, start, end, t, k);
    }
    assert Tiles(fs, start, end) by {
      forall i | 0 <= i < |fs|
        ensures fs[i].bp == bs[i].bp && fs[i].size == bs[i].size
      {
      }
    }
  }

  /** The blocks after extend_heap adds a fresh free block at the old break. */
  function ExtendSpec(bs: seq<Blk>, bp: int, size: int): (r: seq<Blk>)
    ensures |r| == |bs| + 1 && r[|bs|] == Blk(bp, size, false)
  {
    bs + [Blk(bp, size, false)]
  }

  /** A new block appended at the end keeps the tiling and the list's members free blocks. */
  lemma ExtendTiles(bs: seq<Blk>, start: int, end: int, size: int, fl: seq<int>)
    requires Tiles(bs, start, end) && size % DSIZE == 0 && size >= MIN_BLOCK && Listed(bs, fl)
    ensures var es := ExtendSpec(bs, end, size);
      Tiles(es, start, end + size) && Listed(es, fl) && end !in fl
  {
    var es := ExtendSpec(bs, end, size);
    forall x | x in fl
      ensures IsFreeBp(es, x) && x != end
    {
      var t :| 0 <= t < |bs| && bs[t].bp == x && !bs[t].alloc;
      Bounds(bs, start, end, t);
      assert es[t] == bs[t];
    }
  }

  /** A new free block appended at the end leaves a heap in which only that block is off the list and possibly uncoalesced. */
  lemma ExtendPending(bs: seq<Blk>, start: int, end: int, size: int, fl: seq<int>)
    requires Tiles(bs, start, end) && size % DSIZE == 0 && size >= MIN_BLOCK
    requires Listed(bs, fl) && ExactExcept(bs, fl, -1) && CoalescedExcept(bs, -1)
    ensures var es := ExtendSpec(bs, end, size);
      && Tiles(es, start, end + size) && Listed(es, fl) && end !in fl
      && ExactExcept(es, fl, |bs|) && CoalescedExcept(es, |bs|)
  {
    ExtendTiles(bs, start, end, size, fl);
  }

  // ---------------------------------------------------------------------
  // Single steps of the allocator on the word memory

  /** The link words of a free block or of the prologue: in the heap, no tag, in no allocated block. */
  lemma SlotWords(m: Mem, bs: seq<Blk>, x: int, p: int)
    requires Heap(m, bs) && (IsFreeBp(bs, x) || x == Prologue(m)) && (p == x || p == x + WSIZE)
    ensures m.InRange(x) && m.InRange(x + WSIZE) && x % 8 == 0 && 0 < x < WORD_LIMIT
    ensures IsFreeBp(bs, x) ==> FirstBp(m) <= x
    ensures Spare(m, bs, p)
  {
    if !IsFreeBp(bs, x) {
      PrologueNotTag(m, bs, p);
      OutsideNotLive(m, bs, p);
    } else {
      var t :| 0 <= t < |bs| && bs[t].bp == x && !bs[t].alloc;
      FreeSlotWords(m, bs, t, p);
    }
  }

  lemma FreeSlotWords(m: Mem, bs: seq<Blk>, t: int, p: int)
    requires Heap(m, bs) && 0 <= t < |bs| && !bs[t].alloc && (p == bs[t].bp || p == bs[t].bp + WSIZE)
    ensures m.InRange(bs[t].bp) && m.InRange(bs[t].bp + WSIZE) && bs[t].bp % 8 == 0 && 0 < bs[t].bp < WORD_LIMIT
    ensures FirstBp(m) <= bs[t].bp
    ensures NotTag(bs, p) && NotSentinel(m, p) && NotLive(bs, p)
  {
    var x := bs[t].bp;
    Bounds(bs, FirstBp(m), m.Brk(), t);
    assert MIN_BLOCK <= bs[t].size;
    AlignedWord(m, x);
    InteriorNotTag(m, bs, t, p);
    FreeNotLive(m, bs, t, p);
  }

  /** An 8-aligned address in the heap's span holds two words. */
  lemma AlignedWord(m: Mem, x: int)
    requires Sentinels(m) && x % 8 == 0 && m.lo <= x && x + DSIZE <= m.Brk()
    ensures m.InRange(x) && m.InRange(x + WSIZE)
  {
    var k := x / 8 - m.lo / 8;
    assert x - m.lo == 4 * (2 * k) && x + WSIZE - m.lo == 4 * (2 * k + 1);
    assert (x - m.lo) / 4 == 2 * k && (x + WSIZE - m.lo) / 4 == 2 * k + 1;
    WordIn(m, x);
    WordIn(m, x + WSIZE);
  }

  /** p is a word the allocator may overwrite without disturbing the blocks: no tag, no sentinel, in no allocated block. */
  ghost predicate Spare(m: Mem, bs: seq<Blk>, p: int) {
    NotTag(bs, p) && NotSentinel(m, p) && NotLive(bs, p)
  }

  /** Stores confined to words that are no tag, no sentinel and in no allocated block keep the heap and every allocated block. */
  lemma ChangedKeepsHeap(m: Mem, m': Mem, bs: seq<Blk>, ws: set<int>)
    requires Heap(m, bs) && Changed(m, m', ws)
    requires forall p :: p in ws ==> Spare(m, bs, p)
    ensures Heap(m', bs) && LiveKept(m, m', bs)
  {
    WfKept(m, m');
    forall i | 0 <= i < |bs|
      ensures TagOk(m', bs[i])
    {
      assert TagOk(m, bs[i]);
      TagKept(m, m', bs[i]);
    }
  }

  /** A free block's header is in the heap, reads as free and holds the block's size. */
  lemma FreeHeader(m: Mem, bs: seq<Blk>, x: int) returns (t: int)
    requires Heap(m, bs) && IsFreeBp(bs, x)
    ensures 0 <= t < |bs| && bs[t].bp == x && !bs[t].alloc
    ensures m.InRange(Hdrp(x)) && GetAlloc(m.Get(Hdrp(x))) == 0
    ensures GetSize(m.Get(Hdrp(x))) as int == bs[t].size
  {
    t :| 0 <= t < |bs| && bs[t].bp == x && !bs[t].alloc;
    Decode(m, bs, t);
  }

  /** The prologue's header is in the heap and reads as allocated: the walk down the list stops there. */
  lemma PrologueHeader(m: Mem)
    requires Sentinels(m)
    ensures m.InRange(Hdrp(Prologue(m))) && GetAlloc(m.Get(Hdrp(Prologue(m)))) == 1
  {
    WordIn(m, m.lo + WSIZE);
    PackRoundTrip(16, 1);
  }

  /**
   * First fit: the position in fl of the first member whose header size is
   * at least asize, or |fl| when there is none.
   */
  function FitIndex(m: Mem, fl: seq<int>, asize: int): (i: int)
    ensures 0 <= i <= |fl|
    ensures forall j :: 0 <= j < i ==> GetSize(m.Get(Hdrp(fl[j]))) as int < asize
    ensures i < |fl| ==> GetSize(m.Get(Hdrp(fl[i]))) as int >= asize
  {
    if fl == [] then 0
    else if GetSize(m.Get(Hdrp(fl[0]))) as int >= asize then 0
    else 1 + FitIndex(m, fl[1..], asize)
  }

  /**
   * Storing the packed word v (b's size and an allocated bit) into b's
   * header, and then into the footer located through that new header:
   * the footer lookup finds b's last word, and both tags of b then hold v.
   * Nothing outside b changes.
   */
  lemma TagPair(m: Mem, b: Blk)
    requires m.InRange(Hdrp(b.bp)) && m.InRange(End(b) - DSIZE)
    requires b.size % 8 == 0 && MIN_BLOCK <= b.size < WORD_LIMIT
    ensures var v := Pack(b.size as u32, AllocBit(b.alloc)); var m1 := m.Set(Hdrp(b.bp), v);
      && Ftrp(m1, b.bp) == End(b) - DSIZE
      && TagOk(m1.Set(End(b) - DSIZE, v), b)
      && AgreeOutside(m, m1.Set(End(b) - DSIZE, v), b.bp - WSIZE, End(b) - WSIZE)
  {
    PackRoundTrip(b.size as u32, AllocBit(b.alloc));
  }

  /** Rewriting the tags of unlisted blocks bs[i..j) so that they hold nbs keeps the whole structure. */
  lemma RetileShape(m: Mem, m': Mem, L: Layout, head: int, bs: seq<Blk>, fl: seq<int>, i: int, j: int, nbs: seq<Blk>)
    requires Shape(m, L, head, bs, fl) && 0 <= i < j <= |bs|
    requires |nbs| > 0 && Tiles(nbs, bs[i].bp, End(bs[j - 1])) && TagsMatch(m', nbs)
    requires AgreeOutside(m, m', bs[i].bp - WSIZE, End(bs[j - 1]) - WSIZE)
    requires forall t :: i <= t < j ==> bs[t].bp !in fl
    ensures Shape(m', L, head, Splice(bs, i, j, nbs), fl)
  {
    Retile(m, m', bs, i, j, nbs);
    LinksRetile(m, m', L, head, bs, fl, i, j);
    ListedSplice(bs, i, j, nbs, fl);
  }

  /** Keeping the allocated blocks of cs keeps those of bs when each of them is among cs. */
  lemma LiveKeptSub(m1: Mem, m2: Mem, bs: seq<Blk>, cs: seq<Blk>)
    requires LiveKept(m1, m2, cs)
    requires AllocIn(bs, cs)
    ensures LiveKept(m1, m2, bs)
  {
    forall q | InLive(bs, q) && m1.InRange(q)
      ensures m2.InRange(q) && m2.Get(q) == m1.Get(q)
    {
      var j :| 0 <= j < |bs| && bs[j].alloc && Within(bs[j], q);
      var u :| 0 <= u < |cs| && cs[u] == bs[j];
      assert Within(cs[u], q) && InLive(cs, q);
    }
  }

  /** An allocated block is not on the list. */
  lemma AllocUnlisted(m: Mem, bs: seq<Blk>, fl: seq<int>, k: int)
    requires Heap(m, bs) && Listed(bs, fl) && 0 <= k < |bs| && bs[k].alloc
    ensures bs[k].bp !in fl
  {
    if bs[k].bp in fl {
      var t :| 0 <= t < |bs| && bs[t].bp == bs[k].bp && !bs[t].alloc;
      UniqueBp(bs, FirstBp(m), m.Brk(), t, k);
    }
  }

  /** Words confined to block k lie in no other block. */
  lemma OthersKept(m: Mem, m': Mem, bs: seq<Blk>, k: int)
    requires Heap(m, bs) && 0 <= k < |bs|
    requires AgreeOutside(m, m', bs[k].bp - WSIZE, End(bs[k]) - WSIZE)
    ensures LiveKept(m, m', FreeSpec(bs, k))
  {
    var fs := FreeSpec(bs, k);
    forall q | InLive(fs, q) && m.InRange(q)
      ensures m'.InRange(q) && m'.Get(q) == m.Get(q)
    {
      var t :| 0 <= t < |fs| && fs[t].alloc && Within(fs[t], q);
      Disjoint(bs, FirstBp(m), m.Brk(), t, k, q);
    }
  }

  /** mm_free's two tag stores: block k reads as free and nothing else changes. */
  lemma FreeShape(m: Mem, m': Mem, L: Layout, head: int, bs: seq<Blk>, fl: seq<int>, k: int)
    requires Shape(m, L, head, bs, fl) && 0 <= k < |bs| && bs[k].alloc
    requires TagOk(m', FreeSpec(bs, k)[k])
    requires AgreeOutside(m, m', bs[k].bp - WSIZE, End(bs[k]) - WSIZE)
    ensures Shape(m', L, head, FreeSpec(bs, k), fl) && LiveKept(m, m', FreeSpec(bs, k))
  {
    var fb := FreeSpec(bs, k)[k];
    AllocUnlisted(m, bs, fl, k);
    Bounds(bs, FirstBp(m), m.Brk(), k);
    RetileShape(m, m', L, head, bs, fl, k, k + 1, [fb]);
    assert Splice(bs, k, k + 1, [fb]) == FreeSpec(bs, k);
    OthersKept(m, m', bs, k);
  }

  /** Rewriting the payload of allocated block j (between its header and its footer) keeps the shape and every other allocated block. */
  lemma PayloadShape(m: Mem, m': Mem, L: Layout, head: int, bs: seq<Blk>, fl: seq<int>, j: int)
    requires Shape(m, L, head, bs, fl) && 0 <= j < |bs| && bs[j].alloc
    requires AgreeOutside(m, m', bs[j].bp, End(bs[j]) - DSIZE)
    ensures Shape(m', L, head, bs, fl) && LiveKept(m, m', FreeSpec(bs, j))
  {
    Bounds(bs, FirstBp(m), m.Brk(), j);
    SentinelsKept(m, m', bs[j].bp, End(bs[j]) - DSIZE);
    forall t | 0 <= t < |bs|
      ensures TagOk(m', bs[t])
    {
      PayloadTag(m, m', bs, j, t);
    }
    AllocUnlisted(m, bs, fl, j);
    forall x | 0 <= x < |fl|
      ensures LinkOk(m', L, Prologue(m), fl, x)
    {
      PayloadLink(m, m', L, head, bs, fl, j, x);
    }
    OthersKept(m, m', bs, j);
  }

  lemma PayloadTag(m: Mem, m': Mem, bs: seq<Blk>, j: int, t: int)
    requires Heap(m, bs) && 0 <= j < |bs| && 0 <= t < |bs|
    requires AgreeOutside(m, m', bs[j].bp, End(bs[j]) - DSIZE)
    ensures TagOk(m', bs[t])
  {
    assert TagOk(m, bs[t]);
    if t != j {
      Outside(bs, FirstBp(m), m.Brk(), j, j + 1, t);
    }
    TagKept(m, m', bs[t]);
  }

  lemma PayloadLink(m: Mem, m': Mem, L: Layout, head: int, bs: seq<Blk>, fl: seq<int>, j: int, x: int)
    requires Shape(m, L, head, bs, fl) && 0 <= j < |bs| && bs[j].bp !in fl && 0 <= x < |fl|
    requires AgreeOutside(m, m', bs[j].bp, End(bs[j]) - DSIZE)
    ensures LinkOk(m', L, Prologue(m), fl, x)
  {
    assert LinkOk(m, L, Prologue(m), fl, x);
    assert fl[x] in fl && IsFreeBp(bs, fl[x]);
    var t :| 0 <= t < |bs| && bs[t].bp == fl[x] && !bs[t].alloc;
    Outside(bs, FirstBp(m), m.Brk(), j, j + 1, t);
    assert m'.Get(fl[x] + L.succOff) == m.Get(fl[x] + L.succOff);
    assert m'.Get(fl[x] + L.predOff) == m.Get(fl[x] + L.predOff);
  }

  /** What coalesce reads about bs[k]: where its neighbours are, whether they are allocated, and its own size. */
  lemma CoalesceProbe(m: Mem, bs: seq<Blk>, k: int, bp: int)
    requires Heap(m, bs) && 0 <= k < |bs| && bp == bs[k].bp
    ensures m.InRange(bp - DSIZE) && m.InRange(Hdrp(PrevBlkp(m, bp)))
    ensures m.InRange(Ftrp(m, PrevBlkp(m, bp))) && m.InRange(Hdrp(NextBlkp(m, bp)))
    ensures m.InRange(Hdrp(bp)) && GetSize(m.Get(Hdrp(bp))) as int == bs[k].size
    ensures GetAlloc(m.Get(Ftrp(m, PrevBlkp(m, bp)))) != 0 <==> MergeLo(bs, k) == k
    ensures GetAlloc(m.Get(Hdrp(NextBlkp(m, bp)))) != 0 <==> MergeHi(bs, k) == k + 1
    ensures k > 0 ==> PrevBlkp(m, bp) == bs[k - 1].bp
    ensures k + 1 < |bs| ==> NextBlkp(m, bp) == bs[k + 1].bp
  {
    PrevNeighbour(m, bs, k);
    NextNeighbour(m, bs, k);
    Decode(m, bs, k);
  }

  /** The merged block's tag words are in the heap and its size is the sum of the sizes it absorbs. */
  lemma MergeReady(m: Mem, bs: seq<Blk>, k: int)
    requires Heap(m, bs) && 0 <= k < |bs|
    ensures var lo, hi := MergeLo(bs, k), MergeHi(bs, k); var c := Merged(bs, lo, hi);
      && m.InRange(Hdrp(c.bp)) && m.InRange(End(c) - DSIZE)
      && c.size % 8 == 0 && MIN_BLOCK <= c.size < WORD_LIMIT
      && c.size == (if lo < k then bs[k - 1].size else 0) + bs[k].size + (if hi > k + 1 then bs[k + 1].size else 0)
  {
    var lo, hi := MergeLo(bs, k), MergeHi(bs, k);
    Decode(m, bs, lo);
    Decode(m, bs, hi - 1);
    MergedTiles(bs, FirstBp(m), m.Brk(), lo, hi);
    Bounds(bs, FirstBp(m), m.Brk(), lo);
    Bounds(bs, FirstBp(m), m.Brk(), hi - 1);
  }

  /** The merged block sits at index MergeLo of the result, is free and covers bs[k]. */
  lemma CoalesceCovers(bs: seq<Blk>, start: int, end: int, k: int)
    requires Tiles(bs, start, end) && 0 <= k < |bs|
    ensures var lo, hi := MergeLo(bs, k), MergeHi(bs, k); var cs := CoalesceSpec(bs, k);
      && lo < |cs| && cs[lo] == Merged(bs, lo, hi) && !cs[lo].alloc
      && cs[lo].bp <= bs[k].bp && End(bs[k]) <= End(cs[lo])
  {
    var lo, hi := MergeLo(bs, k), MergeHi(bs, k);
    SpliceAt(bs, lo, hi, [Merged(bs, lo, hi)], lo);
    if k < hi - 1 {
      Ordered(bs, start, end, k, hi - 1);
    }
    if lo < k {
      Ordered(bs, start, end, lo, k);
    }
  }

  /** Coalescing a block whose neighbours are both allocated changes no block and only pushes it on the list. */
  lemma CoalesceAlone(bs: seq<Blk>, k: int, fl: seq<int>)
    requires 0 <= k < |bs| && !bs[k].alloc && MergeLo(bs, k) == k && MergeHi(bs, k) == k + 1
    ensures CoalesceSpec(bs, k) == bs && CoalesceList(bs, k, fl) == [bs[k].bp] + fl
  {
    assert Merged(bs, k, k + 1) == bs[k];
    assert bs[..k] + [bs[k]] + bs[k + 1..] == bs;
  }

  /** After coalescing around a free bs[k], no allocated block has bs[k]'s payload address. */
  lemma CoalesceFreed(bs: seq<Blk>, start: int, end: int, k: int)
    requires Tiles(bs, start, end) && 0 <= k < |bs| && !bs[k].alloc
    ensures forall u :: 0 <= u < |CoalesceSpec(bs, k)| && CoalesceSpec(bs, k)[u].alloc ==>
      CoalesceSpec(bs, k)[u].bp != bs[k].bp
  {
    var lo, hi := MergeLo(bs, k), MergeHi(bs, k);
    var cs := CoalesceSpec(bs, k);
    forall u | 0 <= u < |cs| && cs[u].alloc
      ensures cs[u].bp != bs[k].bp
    {
      SpliceAt(bs, lo, hi, [Merged(bs, lo, hi)], u);
      if u != lo {
        var t := if u < lo then u else u - lo - 1 + hi;
        UniqueBpNe(bs, start, end, t, k);
      }
    }
  }

  /** coalesce's tag stores: the blocks it merges around bs[k], all off the list, become one free block. */
  lemma MergeShape(m: Mem, m': Mem, L: Layout, head: int, bs: seq<Blk>, fl: seq<int>, k: int)
    requires Shape(m, L, head, bs, fl) && 0 <= k < |bs| && !bs[k].alloc
    requires var lo, hi := MergeLo(bs, k), MergeHi(bs, k);
      && (forall t :: lo <= t < hi ==> bs[t].bp !in fl)
      && TagOk(m', Merged(bs, lo, hi))
      && AgreeOutside(m, m', bs[lo].bp - WSIZE, End(bs[hi - 1]) - WSIZE)
    ensures Shape(m', L, head, CoalesceSpec(bs, k), fl) && LiveKept(m, m', bs)
  {
    var lo, hi := MergeLo(bs, k), MergeHi(bs, k);
    MergeRetile(m, m', L, head, bs, fl, lo, hi);
  }

  lemma MergeRetile(m: Mem, m': Mem, L: Layout, head: int, bs: seq<Blk>, fl: seq<int>, lo: int, hi: int)
    requires Shape(m, L, head, bs, fl) && 0 <= lo < hi <= |bs|
    requires forall t :: lo <= t < hi ==> bs[t].bp !in fl && !bs[t].alloc
    requires TagOk(m', Merged(bs, lo, hi))
    requires AgreeOutside(m, m', bs[lo].bp - WSIZE, End(bs[hi - 1]) - WSIZE)
    ensures Shape(m', L, head, Splice(bs, lo, hi, [Merged(bs, lo, hi)]), fl) && LiveKept(m, m', bs)
  {
    var c := Merged(bs, lo, hi);
    MergedTiles(bs, FirstBp(m), m.Brk(), lo, hi);
    assert TagsMatch(m', [c]);
    RetileShape(m, m', L, head, bs, fl, lo, hi, [c]);
    LiveRetile(m, m', bs, lo, hi);
  }

  /** place's four tag stores when it splits: an allocated front piece, then the free remainder. */
  lemma SplitTags(m1: Mem, m2: Mem, m3: Mem, b: Blk, asize: int)
    requires Splits(b, asize) && MIN_BLOCK <= asize
    requires TagOk(m2, Blk(b.bp, asize, true)) && AgreeOutside(m1, m2, b.bp - WSIZE, b.bp + asize - WSIZE)
    requires TagOk(m3, Blk(b.bp + asize, b.size - asize, false))
    requires AgreeOutside(m2, m3, b.bp + asize - WSIZE, End(b) - WSIZE)
    ensures TagsMatch(m3, PlacePieces(b, asize)) && AgreeOutside(m1, m3, b.bp - WSIZE, End(b) - WSIZE)
  {
    TagKept(m2, m3, Blk(b.bp, asize, true));
  }

  // ---------------------------------------------------------------------
  // extend_heap

  /** After the break moved and only the words from the old epilogue on were written, everything below the old epilogue reads as before. */
  ghost predicate KeptBelow(m: Mem, m': Mem) {
    && m'.lo == m.lo && m.Brk() <= m'.Brk()
    && forall p :: m.InRange(p) && p < m.Brk() - WSIZE ==> m'.InRange(p) && m'.Get(p) == m.Get(p)
  }

  lemma GrowKeptBelow(m: Mem, g: Mem, m': Mem, n: nat)
    requires g == m.Grow(n) && AgreeOutside(g, m', m.Brk() - WSIZE, g.Brk())
    ensures KeptBelow(m, m')
  {
  }

  /** extend_heap's new free block, its tags in place, added after the old blocks. */
  lemma ExtendTags(m: Mem, m': Mem, bs: seq<Blk>, size: int)
    requires Heap(m, bs) && KeptBelow(m, m') && m'.Wf() && m'.Brk() == m.Brk() + size
    requires size % 8 == 0 && MIN_BLOCK <= size < WORD_LIMIT
    requires m'.Get(m.Brk() - WSIZE) == Pack(size as u32, 0) && m'.Get(m'.Brk() - DSIZE) == Pack(size as u32, 0)
    ensures TagsMatch(m', ExtendSpec(bs, m.Brk(), size))
  {
    var es := ExtendSpec(bs, m.Brk(), size);
    forall t | 0 <= t < |es|
      ensures TagOk(m', es[t])
    {
      if t < |bs| {
        assert TagOk(m, bs[t]) && es[t] == bs[t];
        Bounds(bs, FirstBp(m), m.Brk(), t);
      } else {
        WordIn(m, m.Brk() - WSIZE);
        WordIn(m', m.Brk() - WSIZE);
        WordIn(m', m'.Brk() - DSIZE);
      }
    }
  }

  /** The sentinels after extend_heap: the old ones below, the new epilogue at the new break. */
  lemma ExtendSentinels(m: Mem, m': Mem, size: int)
    requires Sentinels(m) && KeptBelow(m, m') && m'.Wf() && m'.Brk() == m.Brk() + size && m'.Brk() <= WORD_LIMIT
    requires m'.Get(m'.Brk() - WSIZE) == Pack(0, 1)
    ensures Sentinels(m')
  {
    WordIn(m, m.lo + WSIZE);
    WordIn(m, m.lo + 4 * WSIZE);
  }

  /** The list after extend_heap: every link word lies below the old epilogue. */
  lemma ExtendLinks(m: Mem, m': Mem, L: Layout, head: int, bs: seq<Blk>, fl: seq<int>)
    requires Shape(m, L, head, bs, fl) && KeptBelow(m, m')
    ensures Links(m', L, Prologue(m), head, fl)
  {
    forall x | 0 <= x < |fl|
      ensures LinkOk(m', L, Prologue(m), fl, x)
    {
      assert LinkOk(m, L, Prologue(m), fl, x);
      assert fl[x] in fl && IsFreeBp(bs, fl[x]);
      var t :| 0 <= t < |bs| && bs[t].bp == fl[x] && !bs[t].alloc;
      Bounds(bs, FirstBp(m), m.Brk(), t);
    }
  }

  /** The allocated blocks after extend_heap: all of them lie below the old epilogue. */
  lemma ExtendLive(m: Mem, m': Mem, bs: seq<Blk>)
    requires Heap(m, bs) && KeptBelow(m, m')
    ensures LiveKept(m, m', bs)
  {
    forall q | InLive(bs, q) && m.InRange(q)
      ensures m'.InRange(q) && m'.Get(q) == m.Get(q)
    {
      var j :| 0 <= j < |bs| && bs[j].alloc && Within(bs[j], q);
      Bounds(bs, FirstBp(m), m.Brk(), j);
    }
  }

  /**
   * extend_heap's stores after mem_sbrk moved the break by size bytes: the
   * old epilogue header becomes the header of a free block of size bytes,
   * whose footer and a new epilogue follow. The heap then holds one more
   * block, not yet on the list, and every allocated block is untouched.
   */
  lemma ExtendShape(m: Mem, g: Mem, m': Mem, L: Layout, head: int, bs: seq<Blk>, fl: seq<int>, n: nat)
    requires Shape(m, L, head, bs, fl) && (WSIZE * n) % 8 == 0 && MIN_BLOCK <= WSIZE * n
    requires g == m.Grow(n) && g.Brk() <= WORD_LIMIT
    requires AgreeOutside(g, m', m.Brk() - WSIZE, g.Brk())
    requires var v := Pack((WSIZE * n) as u32, 0); m'.Get(m.Brk() - WSIZE) == v && m'.Get(g.Brk() - DSIZE) == v
    requires m'.Get(g.Brk() - WSIZE) == Pack(0, 1)
    ensures Shape(m', L, head, ExtendSpec(bs, m.Brk(), WSIZE * n), fl) && LiveKept(m, m', bs)
  {
    var size := WSIZE * n;
    GrowKeptBelow(m, g, m', n);
    WfKept(g, m');
    ExtendSentinels(m, m', size);
    ExtendTags(m, m', bs, size);
    ExtendLinks(m, m', L, head, bs, fl);
    ExtendLive(m, m', bs);
    ExtendTiles(bs, FirstBp(m), m.Brk(), size, fl);
  }
}
