/**
 * mm.c: the explicit free-list allocator.
 *
 * Each list routine of mm.c is modelled twice over:
 *   - a pure function (InsertRun, RemoveRun, TagStores, ExtendStores, ...)
 *     that performs the routine's loads and stores on a memory value exactly
 *     as the C code does, and records whether every one of them stayed
 *     inside the heap;
 *   - a method that runs the same statements on memlib's heap, proved to
 *     leave exactly the memory, list head and fault flag the function gives.
 *     The macros and the store sequences that do not touch the list are
 *     methods of the module, shared with the mm_todo_debug.c model; the
 *     routines that use the globals heap_listp and explicit_listp are
 *     methods of the class Allocator.
 * Lemmas (InsertOk, RemoveOk, MergeTagsShape, FreeOk, ExtendOk, ...) then
 * prove what each routine does to the heap described by two ghost sequences,
 * the blocks in address order and the free list from its head, and that it
 * keeps the invariant Good:
 *   - the blocks tile the heap between the sentinels;
 *   - every block's header and footer hold its size and allocated bit;
 *   - the free list is a well-linked doubly linked list of exactly the free
 *     blocks, ended by the prologue;
 *   - no two neighbouring blocks are both free.
 * On a heap in that state no load or store of any routine leaves the heap.
 */
module ExplicitList {
  import opened MemLib
  import opened Codec
  import opened HeapShape

  /** mm.c keeps a free block's predecessor link at bp and its successor link at bp + 4. */
  const LINKS: Layout := Layout(0, WSIZE)

  function Max(a: int, b: int): (r: int) {
    if a > b then a else b
  }

  function Min(a: int, b: int): (r: int) {
    if a < b then a else b
  }

  /** x as the 32-bit word C stores for a pointer or a size_t (a 32-bit build). */
  function Trunc(x: int): (w: u32)
    ensures 0 <= x < WORD_LIMIT ==> w as int == x
  {
    (x % WORD_LIMIT) as u32
  }

  /**
   * What a piece of allocator code leaves behind: the memory, the list head
   * explicit_listp, and whether all its loads and stores stayed inside the heap.
   */
  datatype Run = Run(mem: Mem, head: int, ok: bool)

  /** The heap invariant every public routine keeps. */
  ghost predicate Good(m: Mem, head: int, bs: seq<Blk>, fl: seq<int>) {
    Shape(m, LINKS, head, bs, fl) && ExactExcept(bs, fl, -1) && CoalescedExcept(bs, -1)
  }

  /** The state coalesce expects: only bs[k] may be off the list and next to a free block. */
  ghost predicate Pending(m: Mem, head: int, bs: seq<Blk>, fl: seq<int>, k: int) {
    && Shape(m, LINKS, head, bs, fl) && 0 <= k < |bs| && !bs[k].alloc && bs[k].bp !in fl
    && ExactExcept(bs, fl, k) && CoalescedExcept(bs, k)
  }

  // ---------------------------------------------------------------------
  // insert_in_head

  /**
   * insert_in_head(bp): succ(bp) := head, pred(bp) := NULL,
   * pred(head) := bp (the prologue's predecessor word when the list is
   * empty), and bp becomes the head.
   */
  function InsertRun(m: Mem, head: int, bp: int): (r: Run) {
    var m1 := m.Put(bp + WSIZE, Trunc(head));
    var m2 := m1.Put(bp, Trunc(NULL));
    var m3 := m2.Put(head, Trunc(bp));
    Run(m3, bp, m.InRange(bp + WSIZE) && m1.InRange(bp) && m2.InRange(head))
  }

  /** Pushing a free block that is not on the list puts it in front, and changes no tag and no allocated block. */
  lemma InsertOk(m: Mem, head: int, bs: seq<Blk>, fl: seq<int>, x: int)
    requires Shape(m, LINKS, head, bs, fl) && IsFreeBp(bs, x) && x !in fl
    ensures var o := InsertRun(m, head, x);
      && o.ok && o.head == x && Shape(o.mem, LINKS, x, bs, [x] + fl)
      && LiveKept(m, o.mem, bs) && o.mem.Brk() == m.Brk()
  {
    assert head == Prologue(m) || head in fl;
    InsertHeap(m, bs, head, x);
    InsertLinks(m, head, fl, x);
    ListedCons(bs, fl, x);
  }

  /** insert_in_head's stores stay inside the heap and keep the blocks. */
  lemma InsertHeap(m: Mem, bs: seq<Blk>, head: int, x: int)
    requires Heap(m, bs) && IsFreeBp(bs, x) && (IsFreeBp(bs, head) || head == Prologue(m))
    requires head == Prologue(m) || head != x
    ensures m.InRange(x) && m.InRange(x + WSIZE) && m.InRange(head)
    ensures 0 < x < WORD_LIMIT && 0 <= head < WORD_LIMIT && x % 8 == 0 && head % 8 == 0
    ensures x != Prologue(m) && x != head
    ensures var o := InsertRun(m, head, x);
      o.ok && Heap(o.mem, bs) && LiveKept(m, o.mem, bs) && o.mem.Brk() == m.Brk()
  {
    InsertSlots(m, bs, head, x);
    HeapPuts3(m, bs, x + WSIZE, Trunc(head), x, Trunc(NULL), head, Trunc(x));
  }

  /** After insert_in_head's stores the list, read from x, is x followed by the old list. */
  lemma InsertLinks(m: Mem, head: int, fl: seq<int>, x: int)
    requires Links(m, LINKS, Prologue(m), head, fl) && x !in fl && x != Prologue(m)
    requires x % 8 == 0 && head % 8 == 0 && m.InRange(x) && m.InRange(x + WSIZE) && m.InRange(head)
    requires 0 < x < WORD_LIMIT && 0 <= head < WORD_LIMIT
    ensures var o := InsertRun(m, head, x); Links(o.mem, LINKS, Prologue(o.mem), x, [x] + fl)
  {
    Apart(x, head);
    ThreePuts(m, x + WSIZE, Trunc(head), x, Trunc(NULL), head, Trunc(x));
    var m3 := InsertRun(m, head, x).mem;
    LinksInsert(m, m3, LINKS, Prologue(m), head, fl, x, x + WSIZE, x, head, Prologue(m3));
  }

  /** The three words insert_in_head writes: in the heap, apart, and free for the list to use. */
  lemma InsertSlots(m: Mem, bs: seq<Blk>, head: int, x: int)
    requires Heap(m, bs) && IsFreeBp(bs, x) && (IsFreeBp(bs, head) || head == Prologue(m))
    requires head == Prologue(m) || head != x
    ensures m.InRange(x) && m.InRange(x + WSIZE) && m.InRange(head)
    ensures 0 < x < WORD_LIMIT && 0 <= head < WORD_LIMIT && x % 8 == 0 && head % 8 == 0
    ensures x != Prologue(m) && x != head && x + WSIZE != head
    ensures Spare(m, bs, x) && Spare(m, bs, x + WSIZE) && Spare(m, bs, head)
  {
    SlotWords(m, bs, x, x);
    SlotWords(m, bs, x, x + WSIZE);
    SlotWords(m, bs, head, head);
    Apart(x, head);
  }

  lemma ListedCons(bs: seq<Blk>, fl: seq<int>, x: int)
    requires Listed(bs, fl) && IsFreeBp(bs, x)
    ensures Listed(bs, [x] + fl)
  {
  }

  // ---------------------------------------------------------------------
  // remove_block

  /** remove_block(bp): unlinking the head, or a block further down the list. */
  function RemoveRun(m: Mem, head: int, bp: int): (r: Run) {
    if bp == head then RemoveHeadRun(m, bp) else RemoveInnerRun(m, head, bp)
  }

  /** pred(succ(bp)) := NULL, then the head becomes succ(bp), read again. */
  function RemoveHeadRun(m: Mem, bp: int): (r: Run) {
    var s := m.Get(bp + WSIZE);
    var m1 := m.Put(s as int, Trunc(NULL));
    Run(m1, m1.Get(bp + WSIZE) as int, m.InRange(bp + WSIZE) && m.InRange(s as int) && m1.InRange(bp + WSIZE))
  }

  /** succ(pred(bp)) := succ(bp), then pred(succ(bp)) := pred(bp), both links of bp read again after the first store. */
  function RemoveInnerRun(m: Mem, head: int, bp: int): (r: Run) {
    var p := m.Get(bp);
    var s := m.Get(bp + WSIZE);
    var m1 := m.Put(p as int + WSIZE, s);
    var s2 := m1.Get(bp + WSIZE);
    var p2 := m1.Get(bp);
    var m2 := m1.Put(s2 as int, p2);
    Run(m2, head, && m.InRange(bp) && m.InRange(bp + WSIZE) && m.InRange(p as int + WSIZE)
                  && m1.InRange(bp + WSIZE) && m1.InRange(bp) && m1.InRange(s2 as int))
  }

  /** When the first store misses bp's own links, the second store writes what bp's links held at the start. */
  lemma InnerStores(m: Mem, head: int, x: int)
    requires m.InRange(x) && m.InRange(x + WSIZE)
    requires m.Get(x) as int + WSIZE != x && m.Get(x) as int + WSIZE != x + WSIZE
    ensures var p, s := m.Get(x), m.Get(x + WSIZE); var m1 := m.Put(p as int + WSIZE, s);
      && RemoveInnerRun(m, head, x).mem == m1.Put(s as int, p)
      && RemoveInnerRun(m, head, x).head == head
      && RemoveInnerRun(m, head, x).ok == (m.InRange(p as int + WSIZE) && m1.InRange(s as int))
  {
  }

  /** Unlinking a listed block drops it from the list, and changes no tag and no allocated block. */
  lemma RemoveOk(m: Mem, head: int, bs: seq<Blk>, fl: seq<int>, x: int)
    requires Shape(m, LINKS, head, bs, fl) && x in fl
    ensures var o := RemoveRun(m, head, x);
      && o.ok && Shape(o.mem, LINKS, o.head, bs, Without(fl, x))
      && LiveKept(m, o.mem, bs) && o.mem.Brk() == m.Brk()
  {
    var i :| 0 <= i < |fl| && fl[i] == x;
    NoEarlier(fl, i);
    WithoutAt(fl, i);
    if x == head {
      RemoveHeadOk(m, bs, fl, i);
      assert fl[..0] + fl[1..] == fl[1..];
    } else {
      RemoveInnerOk(m, head, bs, fl, i);
    }
  }

  lemma RemoveHeadOk(m: Mem, bs: seq<Blk>, fl: seq<int>, i: int)
    requires 0 <= i < |fl| && Shape(m, LINKS, fl[i], bs, fl)
    ensures i == 0
    ensures var o := RemoveRun(m, fl[0], fl[0]);
      && o.ok && Shape(o.mem, LINKS, o.head, bs, fl[1..])
      && LiveKept(m, o.mem, bs) && o.mem.Brk() == m.Brk()
  {
    assert i == 0 || Differ(fl, 0, i);
    RemoveHeadShape(m, bs, fl);
  }

  /** remove_block's store for the head fl[0]: the structure holds with fl[0] dropped and its successor as head. */
  lemma RemoveHeadShape(m: Mem, bs: seq<Blk>, fl: seq<int>)
    requires |fl| > 0 && Shape(m, LINKS, fl[0], bs, fl)
    ensures var x := fl[0]; var m1 := m.Put(m.Get(x + WSIZE) as int, Trunc(NULL));
      && m.InRange(x + WSIZE) && m.InRange(m.Get(x + WSIZE) as int) && m1.InRange(x + WSIZE)
      && Shape(m1, LINKS, m1.Get(x + WSIZE) as int, bs, fl[1..])
      && LiveKept(m, m1, bs) && m1.Brk() == m.Brk()
  {
    var pro := Prologue(m);
    var x, s := fl[0], Next(fl, 0, pro);
    assert LinkOk(m, LINKS, pro, fl, 0);
    if |fl| > 1 {
      assert Differ(fl, 0, 1);
    }
    assert x in fl;
    NeighbourSlot(m, bs, fl, 1);
    SlotWords(m, bs, s, s);
    Apart(x, s);
    var m1 := m.Put(m.Get(x + WSIZE) as int, Trunc(NULL));
    PutChanged(m, m.Get(x + WSIZE) as int, Trunc(NULL));
    ChangedKeepsHeap(m, m1, bs, {m.Get(x + WSIZE) as int});
    LinksRemoveHead(m, m1, LINKS, pro, fl, m.Get(x + WSIZE) as int, Prologue(m1), m1.Get(x + WSIZE) as int);
    assert forall y :: y in fl[1..] ==> y in fl;
  }

  lemma RemoveInnerOk(m: Mem, head: int, bs: seq<Blk>, fl: seq<int>, i: int)
    requires 0 <= i < |fl| && Shape(m, LINKS, head, bs, fl) && fl[i] != head
    ensures 0 < i
    ensures var o := RemoveRun(m, head, fl[i]);
      && o.ok && o.head == head && Shape(o.mem, LINKS, head, bs, fl[..i] + fl[i + 1..])
      && LiveKept(m, o.mem, bs) && o.mem.Brk() == m.Brk()
  {
    RemoveInnerShape(m, head, bs, fl, i);
  }

  /** remove_block's two stores for fl[i], i > 0, keep the structure, with fl[i] dropped from the list. */
  lemma RemoveInnerShape(m: Mem, head: int, bs: seq<Blk>, fl: seq<int>, i: int)
    requires 0 <= i < |fl| && Shape(m, LINKS, head, bs, fl) && fl[i] != head
    ensures 0 < i
    ensures var o := RemoveInnerRun(m, head, fl[i]);
      && o.ok && o.head == head && Shape(o.mem, LINKS, head, bs, fl[..i] + fl[i + 1..])
      && LiveKept(m, o.mem, bs) && o.mem.Brk() == m.Brk()
  {
    RemoveInnerKeeps(m, head, bs, fl, i);
    RemoveInnerSkips(m, head, bs, fl, i);
    ListedRemove(bs, fl, i);
  }

  /** remove_block's two stores for fl[i], i > 0, stay in the heap and keep the blocks. */
  lemma RemoveInnerKeeps(m: Mem, head: int, bs: seq<Blk>, fl: seq<int>, i: int)
    requires 0 <= i < |fl| && Shape(m, LINKS, head, bs, fl) && fl[i] != head
    ensures 0 < i
    ensures var o := RemoveInnerRun(m, head, fl[i]);
      && o.ok && o.head == head && Heap(o.mem, bs) && LiveKept(m, o.mem, bs) && o.mem.Brk() == m.Brk()
  {
    InnerNeighbours(m, head, bs, fl, i);
    RemoveInnerHeap(m, head, bs, fl[i], fl[i - 1], Next(fl, i, Prologue(m)));
  }

  /** After remove_block's two stores for fl[i], i > 0, the list skips fl[i]. */
  lemma RemoveInnerSkips(m: Mem, head: int, bs: seq<Blk>, fl: seq<int>, i: int)
    requires 0 < i < |fl| && Shape(m, LINKS, head, bs, fl) && fl[i] != head
    ensures var o := RemoveInnerRun(m, head, fl[i]);
      Links(o.mem, LINKS, Prologue(o.mem), head, fl[..i] + fl[i + 1..])
  {
    var x, p, s := fl[i], fl[i - 1], Next(fl, i, Prologue(m));
    InnerNeighbours(m, head, bs, fl, i);
    SlotWords(m, bs, p, p + WSIZE);
    SlotWords(m, bs, s, s);
    RemoveInnerLinks(m, head, fl, i, x, p, s);
  }

  /** The neighbours of fl[i], i > 0: three different list slots, linked to fl[i]. */
  lemma InnerNeighbours(m: Mem, head: int, bs: seq<Blk>, fl: seq<int>, i: int)
    requires 0 <= i < |fl| && Shape(m, LINKS, head, bs, fl) && fl[i] != head
    ensures 0 < i
    ensures var x, p, s := fl[i], fl[i - 1], Next(fl, i, Prologue(m));
      && IsFreeBp(bs, x) && IsFreeBp(bs, p) && (IsFreeBp(bs, s) || s == Prologue(m))
      && x != p && x != s && p != s && p + WSIZE != x && p + WSIZE != x + WSIZE && p + WSIZE != s
      && m.InRange(x) && m.InRange(x + WSIZE) && m.Get(x) as int == p && m.Get(x + WSIZE) as int == s
  {
    var pro := Prologue(m);
    assert LinkOk(m, LINKS, pro, fl, i);
    assert LinkOk(m, LINKS, pro, fl, i - 1);
    NeighbourSlot(m, bs, fl, i - 1);
    NeighbourSlot(m, bs, fl, i + 1);
    assert fl[i] in fl;
    assert Differ(fl, i - 1, i);
    if i + 1 < |fl| {
      assert Differ(fl, i - 1, i + 1);
      assert Differ(fl, i, i + 1);
      assert LinkOk(m, LINKS, pro, fl, i + 1);
    }
    Apart(fl[i - 1], fl[i]);
    Apart(fl[i - 1], Next(fl, i, pro));
  }

  /** remove_block's two stores for an inner block x, between p and s: inside the heap, keeping the blocks. */
  lemma RemoveInnerHeap(m: Mem, head: int, bs: seq<Blk>, x: int, p: int, s: int)
    requires Heap(m, bs) && IsFreeBp(bs, x) && IsFreeBp(bs, p) && (IsFreeBp(bs, s) || s == Prologue(m))
    requires x != p && x != s && p + WSIZE != s && p + WSIZE != x && p + WSIZE != x + WSIZE
    requires m.InRange(x) && m.InRange(x + WSIZE) && m.Get(x) as int == p && m.Get(x + WSIZE) as int == s
    ensures var o := RemoveInnerRun(m, head, x);
      && o.ok && o.head == head && Heap(o.mem, bs) && LiveKept(m, o.mem, bs) && o.mem.Brk() == m.Brk()
  {
    InnerStoresAt(m, head, x, p, s);
    SlotWords(m, bs, p, p + WSIZE);
    SlotWords(m, bs, s, s);
    HeapPuts2(m, bs, p + WSIZE, m.Get(x + WSIZE), s, m.Get(x));
  }

  /** After remove_block's two stores for fl[i], i > 0, the list skips it. */
  lemma RemoveInnerLinks(m: Mem, head: int, fl: seq<int>, i: int, x: int, p: int, s: int)
    requires Links(m, LINKS, Prologue(m), head, fl) && 0 < i < |fl|
    requires x == fl[i] && p == fl[i - 1] && s == Next(fl, i, Prologue(m))
    requires x != p && x != s && p != s && p + WSIZE != s && p + WSIZE != x && p + WSIZE != x + WSIZE
    requires m.InRange(x) && m.InRange(x + WSIZE) && m.InRange(p + WSIZE) && m.InRange(s)
    ensures Links(RemoveInnerRun(m, head, x).mem, LINKS, Prologue(m), head, fl[..i] + fl[i + 1..])
  {
    var pro := Prologue(m);
    assert LinkOk(m, LINKS, pro, fl, i);
    InnerStoresAt(m, head, x, p, s);
    TwoPuts(m, p + WSIZE, m.Get(x + WSIZE), s, m.Get(x));
    var m2 := RemoveInnerRun(m, head, x).mem;
    LinksRemoveInner(m, m2, LINKS, pro, head, fl, i, p + WSIZE, s, pro);
  }

  /** InnerStores with bp's two links named: p is its predecessor, s its successor. */
  lemma InnerStoresAt(m: Mem, head: int, x: int, p: int, s: int)
    requires m.InRange(x) && m.InRange(x + WSIZE) && m.Get(x) as int == p && m.Get(x + WSIZE) as int == s
    requires p + WSIZE != x && p + WSIZE != x + WSIZE
    ensures var o := RemoveInnerRun(m, head, x); var m1 := m.Put(p + WSIZE, m.Get(x + WSIZE));
      && o.mem == m1.Put(s, m.Get(x)) && o.head == head
      && o.ok == (m.InRange(p + WSIZE) && m1.InRange(s))
  {
    InnerStores(m, head, x);
  }

  lemma NoEarlier(fl: seq<int>, i: int)
    requires Distinct(fl) && 0 <= i < |fl|
    ensures forall j :: 0 <= j < i ==> fl[j] != fl[i]
  {
    forall j | 0 <= j < i
      ensures fl[j] != fl[i]
    {
      assert Differ(fl, j, i);
    }
  }

  /** Position j of the list, or the prologue past its end: a block whose link words may be written. */
  lemma NeighbourSlot(m: Mem, bs: seq<Blk>, fl: seq<int>, j: int)
    requires Heap(m, bs) && Listed(bs, fl) && 0 <= j <= |fl|
    ensures IsFreeBp(bs, if j < |fl| then fl[j] else Prologue(m)) || (if j < |fl| then fl[j] else Prologue(m)) == Prologue(m)
  {
    if j < |fl| {
      assert fl[j] in fl;
    }
  }

  // ---------------------------------------------------------------------
  // The tag stores

  /** What a few stores leave: the memory, and whether every load and store stayed inside the heap. */
  datatype Written = Written(mem: Mem, ok: bool)

  /** Store w into bp's header, then into its footer, whose place is read from the header just written. */
  function TagStores(m: Mem, bp: int, w: u32): (r: Written) {
    var m1 := m.Put(Hdrp(bp), w);
    Written(m1.Put(Ftrp(m1, bp), w), m.InRange(Hdrp(bp)) && m1.InRange(Hdrp(bp)) && m1.InRange(Ftrp(m1, bp)))
  }

  /** Writing block b's tags stays inside the heap, makes them b's, and writes nothing outside b. */
  lemma SetTagsOk(m: Mem, b: Blk)
    requires m.InRange(Hdrp(b.bp)) && m.InRange(End(b) - DSIZE)
    requires b.size % 8 == 0 && MIN_BLOCK <= b.size < WORD_LIMIT
    ensures var t := TagStores(m, b.bp, Pack(Trunc(b.size), AllocBit(b.alloc)));
      && t.ok && TagOk(t.mem, b) && AgreeOutside(m, t.mem, b.bp - WSIZE, End(b) - WSIZE)
  {
    TagPair(m, b);
  }

  // ---------------------------------------------------------------------
  // coalesce

  /** The free neighbours coalesce unlinks are on the list, the next one still after the previous one is unlinked. */
  lemma MergeListed(m: Mem, head: int, bs: seq<Blk>, fl: seq<int>, k: int)
    requires Pending(m, head, bs, fl, k)
    ensures MergeLo(bs, k) < k ==> bs[k - 1].bp in fl
    ensures MergeHi(bs, k) > k + 1 ==> bs[k + 1].bp in fl
    ensures MergeLo(bs, k) < k && MergeHi(bs, k) > k + 1 ==> bs[k + 1].bp in Without(fl, bs[k - 1].bp)
  {
    if MergeLo(bs, k) < k && MergeHi(bs, k) > k + 1 {
      UniqueBpNe(bs, FirstBp(m), m.Brk(), k - 1, k + 1);
      WithoutMembers(fl, bs[k - 1].bp);
    }
  }

  /**
   * Whichever case coalesce takes, once the absorbed neighbours are off the
   * list and the merged block's tags are written, with nothing else
   * changed, the blocks are CoalesceSpec(bs, k) and the list what remains.
   */
  lemma MergeTagsShape(m0: Mem, m1: Mem, m2: Mem, L: Layout, head: int, bs: seq<Blk>, fl: seq<int>, k: int)
    requires 0 <= k < |bs| && !bs[k].alloc && bs[k].bp !in fl && Distinct(fl)
    requires Shape(m1, L, head, bs, CoalesceRest(bs, k, fl)) && LiveKept(m0, m1, bs) && m1.Brk() == m0.Brk()
    requires var lo, hi := MergeLo(bs, k), MergeHi(bs, k);
      && TagOk(m2, Merged(bs, lo, hi))
      && AgreeOutside(m1, m2, bs[lo].bp - WSIZE, End(bs[hi - 1]) - WSIZE)
    ensures Shape(m2, L, head, CoalesceSpec(bs, k), CoalesceRest(bs, k, fl))
    ensures LiveKept(m0, m2, bs) && m2.Brk() == m0.Brk()
  {
    CoalesceRestMembers(bs, k, fl);
    MergeShape(m1, m2, L, head, bs, CoalesceRest(bs, k, fl), k);
    LiveKeptTrans(m0, m1, m2, bs);
  }

  /**
   * Case 2's loads and stores, after the next block is unlinked: bp's size
   * plus the size read from the next block's header, written into bp's
   * tags, makes the merged block.
   */
  lemma MergeNextTags(m1: Mem, bs: seq<Blk>, k: int, bp: int, sz: u32)
    requires Heap(m1, bs) && 0 <= k < |bs| && MergeLo(bs, k) == k && MergeHi(bs, k) == k + 2 && bp == bs[k].bp
    requires sz == Trunc(bs[k].size + GetSize(m1.Get(Hdrp(NextBlkp(m1, bp)))) as int)
    ensures m1.InRange(Hdrp(bp)) && m1.InRange(Hdrp(NextBlkp(m1, bp)))
    ensures var t := TagStores(m1, bp, Pack(sz, 0));
      && t.ok && TagOk(t.mem, Merged(bs, k, k + 2))
      && AgreeOutside(m1, t.mem, bs[k].bp - WSIZE, End(bs[k + 1]) - WSIZE)
  {
    CoalesceProbe(m1, bs, k, bp);
    Decode(m1, bs, k + 1);
    MergeReady(m1, bs, k);
    var c := Merged(bs, k, k + 2);
    assert c.bp == bs[k].bp && sz == Trunc(c.size) && AllocBit(c.alloc) == 0;
    SetTagsOk(m1, c);
  }

  /**
   * Case 3's loads and stores, after the previous block is unlinked: the
   * size read from its header added to bp's, written into its tags.
   */
  lemma MergePrevTags(m1: Mem, bs: seq<Blk>, k: int, bp: int, sz: u32, r: int)
    requires Heap(m1, bs) && 0 <= k < |bs| && MergeLo(bs, k) == k - 1 && MergeHi(bs, k) == k + 1 && bp == bs[k].bp
    requires sz == Trunc(bs[k].size + GetSize(m1.Get(Hdrp(PrevBlkp(m1, bp)))) as int)
    requires r == PrevBlkp(m1, bp)
    ensures m1.InRange(bp - DSIZE) && m1.InRange(Hdrp(PrevBlkp(m1, bp)))
    ensures r == bs[k - 1].bp
    ensures var t := TagStores(m1, r, Pack(sz, 0));
      && t.ok && TagOk(t.mem, Merged(bs, k - 1, k + 1))
      && AgreeOutside(m1, t.mem, bs[k - 1].bp - WSIZE, End(bs[k]) - WSIZE)
  {
    CoalesceProbe(m1, bs, k, bp);
    Decode(m1, bs, k - 1);
    MergeReady(m1, bs, k);
    var c := Merged(bs, k - 1, k + 1);
    assert c.bp == bs[k - 1].bp && sz == Trunc(c.size) && AllocBit(c.alloc) == 0;
    SetTagsOk(m1, c);
  }

  /**
   * Case 4's loads, after both neighbours are unlinked: PREV_BLKP(bp) and
   * NEXT_BLKP(bp) find them, and the sizes read from the previous block's
   * header and the next block's footer add up with bp's to the merged size.
   */
  lemma MergeBothLoads(m1: Mem, bs: seq<Blk>, k: int, bp: int)
    requires Heap(m1, bs) && 0 <= k < |bs| && MergeLo(bs, k) == k - 1 && MergeHi(bs, k) == k + 2 && bp == bs[k].bp
    ensures var a, n := bs[k - 1], bs[k + 1];
      && m1.InRange(bp - DSIZE) && PrevBlkp(m1, bp) == a.bp && m1.InRange(Hdrp(a.bp))
      && m1.InRange(Hdrp(bp)) && NextBlkp(m1, bp) == n.bp && m1.InRange(Hdrp(n.bp))
      && Ftrp(m1, n.bp) == End(n) - DSIZE && m1.InRange(End(n) - DSIZE)
      && bs[k].size + GetSize(m1.Get(Hdrp(a.bp))) as int + GetSize(m1.Get(End(n) - DSIZE)) as int
         == End(n) - a.bp < WORD_LIMIT
  {
    MergeReady(m1, bs, k);
    assert TagOk(m1, bs[k - 1]) && TagOk(m1, bs[k]) && TagOk(m1, bs[k + 1]);
    assert End(bs[k - 1]) == bs[k].bp && End(bs[k]) == bs[k + 1].bp;
    BothTagsLoads(m1, bs[k - 1], bs[k], bs[k + 1]);
  }

  /**
   * Case 4's first store, w at p1 (the previous block's header): NEXT_BLKP(bp)
   * and FTRP still find the next block's footer.
   */
  lemma MergeBothFirst(m1: Mem, bs: seq<Blk>, k: int, bp: int, p1: int, w: u32)
    requires Heap(m1, bs) && 0 <= k < |bs| && MergeLo(bs, k) == k - 1 && MergeHi(bs, k) == k + 2 && bp == bs[k].bp
    requires p1 == bs[k - 1].bp - WSIZE
    ensures var n, m2 := bs[k + 1], m1.Put(p1, w);
      && m2.InRange(Hdrp(bp)) && NextBlkp(m2, bp) == n.bp
      && m2.InRange(Hdrp(n.bp)) && Ftrp(m2, n.bp) == End(n) - DSIZE && m2.InRange(End(n) - DSIZE)
  {
    MergeReady(m1, bs, k);
    assert TagOk(m1, bs[k]) && TagOk(m1, bs[k + 1]);
    assert End(bs[k - 1]) == bs[k].bp && End(bs[k]) == bs[k + 1].bp;
    BothTagsFirst(m1, bs[k - 1], bs[k], bs[k + 1], w);
  }

  /**
   * Case 4's second store, w at p2 (the next block's footer): the merged
   * block carries PACK(sz, 0) in both tags, nothing outside it changed, and
   * PREV_BLKP(bp) still finds the previous block.
   */
  lemma MergeBothSecond(m1: Mem, bs: seq<Blk>, k: int, bp: int, p1: int, p2: int, sz: u32)
    requires Heap(m1, bs) && 0 <= k < |bs| && MergeLo(bs, k) == k - 1 && MergeHi(bs, k) == k + 2 && bp == bs[k].bp
    requires p1 == bs[k - 1].bp - WSIZE && p2 == End(bs[k + 1]) - DSIZE
    requires sz as int == End(bs[k + 1]) - bs[k - 1].bp
    ensures var w := Pack(sz, 0);
      var m3 := m1.Put(p1, w).Put(p2, w);
      && m3.InRange(bp - DSIZE) && PrevBlkp(m3, bp) == bs[k - 1].bp
      && TagOk(m3, Merged(bs, k - 1, k + 2))
      && AgreeOutside(m1, m3, bs[k - 1].bp - WSIZE, End(bs[k + 1]) - WSIZE)
  {
    MergeBothLoads(m1, bs, k, bp);
    MergeReady(m1, bs, k);
    var c := Merged(bs, k - 1, k + 2);
    assert c.bp - WSIZE == p1 && c.bp + c.size - DSIZE == p2 && c.size == sz as int && !c.alloc;
    TagsAt(m1, c, p1, p2, sz, bs[k - 1].bp - WSIZE, End(bs[k + 1]) - WSIZE, bp);
  }

  /**
   * Case 4's loads on the three blocks a, b, n it merges: PREV_BLKP(bp)
   * finds a through a's footer, NEXT_BLKP(bp) finds n through b's header,
   * and the sizes read are a's and, from n's footer, n's.
   */
  lemma BothTagsLoads(m1: Mem, a: Blk, b: Blk, n: Blk)
    requires TagOk(m1, a) && TagOk(m1, b) && TagOk(m1, n)
    requires End(a) == b.bp && End(b) == n.bp
    requires a.size % 8 == 0 && b.size % 8 == 0 && n.size % 8 == 0
    ensures m1.InRange(b.bp - DSIZE) && PrevBlkp(m1, b.bp) == a.bp
    ensures m1.InRange(Hdrp(a.bp)) && GetSize(m1.Get(Hdrp(a.bp))) as int == a.size
    ensures m1.InRange(Hdrp(b.bp)) && NextBlkp(m1, b.bp) == n.bp && m1.InRange(Hdrp(n.bp))
    ensures Ftrp(m1, n.bp) == End(n) - DSIZE && m1.InRange(End(n) - DSIZE)
    ensures GetSize(m1.Get(End(n) - DSIZE)) as int == n.size
  {
    PackRoundTrip(a.size as u32, AllocBit(a.alloc));
    PackRoundTrip(b.size as u32, AllocBit(b.alloc));
    PackRoundTrip(n.size as u32, AllocBit(n.alloc));
    assert m1.Get(b.bp - DSIZE) == m1.Get(a.bp - WSIZE) by {
      assert b.bp - DSIZE == a.bp + a.size - DSIZE;
    }
    assert m1.Get(End(n) - DSIZE) == m1.Get(n.bp - WSIZE) by {
      assert End(n) - DSIZE == n.bp + n.size - DSIZE;
    }
  }

  /**
   * Case 4's first store, w into a's header, leaves b's and n's headers,
   * through which NEXT_BLKP(bp) and FTRP then find n's footer.
   */
  lemma BothTagsFirst(m1: Mem, a: Blk, b: Blk, n: Blk, w: u32)
    requires TagOk(m1, b) && TagOk(m1, n)
    requires End(a) == b.bp && End(b) == n.bp
    requires MIN_BLOCK <= a.size && b.size % 8 == 0 && n.size % 8 == 0
    ensures var m2 := m1.Put(a.bp - WSIZE, w);
      && m2.InRange(Hdrp(b.bp)) && NextBlkp(m2, b.bp) == n.bp
      && m2.InRange(Hdrp(n.bp)) && Ftrp(m2, n.bp) == End(n) - DSIZE && m2.InRange(End(n) - DSIZE)
  {
    PackRoundTrip(b.size as u32, AllocBit(b.alloc));
    PackRoundTrip(n.size as u32, AllocBit(n.alloc));
    var m2 := m1.Put(a.bp - WSIZE, w);
    PutChanged(m1, a.bp - WSIZE, w);
    assert m2.Get(b.bp - WSIZE) == m1.Get(b.bp - WSIZE);
    assert m2.Get(n.bp - WSIZE) == m1.Get(n.bp - WSIZE);
    assert End(n) - DSIZE == n.bp + n.size - DSIZE;
  }

  // ---------------------------------------------------------------------
  // place

  /** The four words place's split writes: the front piece's header and footer, the remainder's header and footer. */
  lemma SplitWords(m: Mem, bs: seq<Blk>, k: int, asize: int)
    requires Heap(m, bs) && 0 <= k < |bs| && asize % DSIZE == 0 && MIN_BLOCK <= asize && Splits(bs[k], asize)
    ensures var bp := bs[k].bp;
      && m.InRange(Hdrp(bp)) && m.InRange(bp + asize - DSIZE) && m.InRange(bp + asize - WSIZE)
      && m.InRange(End(bs[k]) - DSIZE) && bs[k].size < WORD_LIMIT && bs[k].size % 8 == 0
  {
    var bp := bs[k].bp;
    Decode(m, bs, k);
    Bounds(bs, FirstBp(m), m.Brk(), k);
    Aligned8(bp, asize);
    Aligned8(bp + asize, DSIZE);
    AlignedWord(m, bp + asize - DSIZE);
  }

  /** place's first two stores: PACK(asize, 1) in the tags of b's front piece; NEXT_BLKP(bp) then finds the remainder. */
  lemma SplitFront(m: Mem, b: Blk, asize: int)
    requires Splits(b, asize) && MIN_BLOCK <= asize && asize % 8 == 0 && b.size < WORD_LIMIT
    requires m.InRange(Hdrp(b.bp)) && m.InRange(b.bp + asize - DSIZE) && m.InRange(b.bp + asize - WSIZE)
    requires m.InRange(End(b) - DSIZE)
    ensures var t := TagStores(m, b.bp, Pack(Trunc(asize), 1));
      && t.ok && TagOk(t.mem, Blk(b.bp, asize, true)) && AgreeOutside(m, t.mem, b.bp - WSIZE, b.bp + asize - WSIZE)
      && NextBlkp(t.mem, b.bp) == b.bp + asize
      && t.mem.InRange(Hdrp(b.bp + asize)) && t.mem.InRange(End(b) - DSIZE)
  {
    SetTagsOk(m, Blk(b.bp, asize, true));
    PackRoundTrip(Trunc(asize), 1);
  }

  /**
   * place's last two stores, PACK(fsize - asize, 0) in the tags of the
   * remainder at next, after the front piece's: b's bytes hold both pieces.
   */
  lemma SplitRest(m1: Mem, m: Mem, b: Blk, asize: int, next: int, fsize: int)
    requires Splits(b, asize) && MIN_BLOCK <= asize && b.size % 8 == 0 && asize % 8 == 0 && b.size < WORD_LIMIT
    requires next == b.bp + asize && fsize == b.size
    requires TagOk(m, Blk(b.bp, asize, true)) && AgreeOutside(m1, m, b.bp - WSIZE, b.bp + asize - WSIZE)
    requires m.InRange(Hdrp(next)) && m.InRange(End(b) - DSIZE)
    ensures var t := TagStores(m, next, Pack(Trunc(fsize - asize), 0));
      && t.ok && TagsMatch(t.mem, PlacePieces(b, asize)) && AgreeOutside(m1, t.mem, b.bp - WSIZE, End(b) - WSIZE)
  {
    RestTags(m, b, asize);
    SplitTags(m1, m, TagStores(m, next, Pack(Trunc(fsize - asize), 0)).mem, b, asize);
  }

  /** The remainder's tag stores, stated in terms of the block b it is cut from. */
  lemma RestTags(m: Mem, b: Blk, asize: int)
    requires Splits(b, asize) && MIN_BLOCK <= asize && b.size % 8 == 0 && asize % 8 == 0 && b.size < WORD_LIMIT
    requires m.InRange(Hdrp(b.bp + asize)) && m.InRange(End(b) - DSIZE)
    ensures var t := TagStores(m, b.bp + asize, Pack(Trunc(b.size - asize), 0));
      && t.ok && TagOk(t.mem, Blk(b.bp + asize, b.size - asize, false))
      && AgreeOutside(m, t.mem, b.bp + asize - WSIZE, End(b) - WSIZE)
  {
    SetTagsOk(m, Blk(b.bp + asize, b.size - asize, false));
  }

  /**
   * Once bs[k] is off the list and its bytes hold the pieces place cuts it
   * into, with nothing else changed, the blocks are PlaceSpec(bs, k, asize);
   * a split-off remainder is a free block not yet on the list.
   */
  lemma PlaceTagsShape(m1: Mem, m2: Mem, L: Layout, head: int, bs: seq<Blk>, rest: seq<int>, k: int, asize: int)
    requires Shape(m1, L, head, bs, rest) && 0 <= k < |bs| && !bs[k].alloc && bs[k].bp !in rest
    requires asize % DSIZE == 0 && MIN_BLOCK <= asize <= bs[k].size
    requires TagsMatch(m2, PlacePieces(bs[k], asize))
    requires AgreeOutside(m1, m2, bs[k].bp - WSIZE, End(bs[k]) - WSIZE)
    ensures Shape(m2, L, head, PlaceSpec(bs, k, asize), rest) && LiveKept(m1, m2, bs)
  {
    var pieces := PlacePieces(bs[k], asize);
    PlacePiecesTile(bs, FirstBp(m1), m1.Brk(), k, asize);
    RetileShape(m1, m2, L, head, bs, rest, k, k + 1, pieces);
    LiveRetile(m1, m2, bs, k, k + 1);
  }

  /** Before place: the block it takes is on the list, and leaves it when removed. */
  lemma PlaceReady(m: Mem, head: int, bs: seq<Blk>, fl: seq<int>, k: int)
    requires Good(m, head, bs, fl) && 0 <= k < |bs| && !bs[k].alloc
    ensures bs[k].bp in fl && bs[k].bp !in Without(fl, bs[k].bp)
  {
    WithoutMembers(fl, bs[k].bp);
  }

  /**
   * After place: its stores, whichever branch they took, leave the blocks
   * PlaceSpec(bs, k, asize) and the list PlaceList(bs, k, asize, fl) in a
   * heap that keeps the invariant.
   */
  lemma PlaceGood(m0: Mem, h0: int, m: Mem, head: int, bs: seq<Blk>, fl: seq<int>, k: int, asize: int)
    requires Good(m0, h0, bs, fl) && 0 <= k < |bs| && !bs[k].alloc
    requires asize % DSIZE == 0 && MIN_BLOCK <= asize <= bs[k].size
    requires m.lo == m0.lo && m.Brk() == m0.Brk()
    requires Splits(bs[k], asize) ==>
      head == bs[k].bp + asize && Shape(m, LINKS, head, PlaceSpec(bs, k, asize), [head] + Without(fl, bs[k].bp))
    requires !Splits(bs[k], asize) ==> Shape(m, LINKS, head, PlaceSpec(bs, k, asize), Without(fl, bs[k].bp))
    ensures Good(m, head, PlaceSpec(bs, k, asize), PlaceList(bs, k, asize, fl))
  {
    PlaceKeepsShape(bs, FirstBp(m0), m0.Brk(), k, asize, fl);
  }

  /** What place leaves of the allocated blocks of bs, across its two stages. */
  lemma PlaceLiveKept(m1: Mem, m2: Mem, m3: Mem, bs: seq<Blk>, k: int, asize: int)
    requires 0 <= k < |bs| && !bs[k].alloc
    requires LiveKept(m1, m2, bs) && LiveKept(m2, m3, PlaceSpec(bs, k, asize))
    ensures LiveKept(m1, m3, bs)
  {
    PlaceKeepsAllocated(bs, k, asize);
    LiveKeptSub(m2, m3, bs, PlaceSpec(bs, k, asize));
  }

  /** place keeps every allocated block as it is. */
  lemma PlaceKeepsAllocated(bs: seq<Blk>, k: int, asize: int)
    requires 0 <= k < |bs| && !bs[k].alloc
    ensures AllocIn(bs, PlaceSpec(bs, k, asize))
  {
    var ps := PlaceSpec(bs, k, asize);
    forall t | 0 <= t < |bs| && bs[t].alloc
      ensures bs[t] in ps
    {
      if t < k {
        assert ps[t] == bs[t];
      } else {
        assert ps[t + |PlacePieces(bs[k], asize)| - 1] == bs[t];
      }
    }
  }

  /**
   * What place makes of the free block bs[k]: an allocated block at the
   * same address holding at least asize bytes, while every block allocated
   * before stays, at another address.
   */
  lemma Placed(m: Mem, bs: seq<Blk>, k: int, asize: int)
    requires Heap(m, bs) && 0 <= k < |bs| && !bs[k].alloc && asize <= bs[k].size
    ensures var ps := PlaceSpec(bs, k, asize);
      && k < |ps| && ps[k].bp == bs[k].bp && ps[k].alloc && asize <= ps[k].size
      && AllocIn(bs, ps) && NoAllocAt(bs, bs[k].bp)
  {
    SpliceAt(bs, k, k + 1, PlacePieces(bs[k], asize), k);
    PlaceKeepsAllocated(bs, k, asize);
    forall t | 0 <= t < |bs| && bs[t].alloc
      ensures bs[t].bp != bs[k].bp
    {
      UniqueBpNe(bs, FirstBp(m), m.Brk(), t, k);
    }
  }

  /** The remainder place splits off is a free block of the new heap that is not on the list. */
  lemma RemainderFree(m: Mem, bs: seq<Blk>, rest: seq<int>, k: int, asize: int)
    requires Heap(m, bs) && Listed(bs, rest) && 0 <= k < |bs| && bs[k].bp !in rest
    requires asize % DSIZE == 0 && MIN_BLOCK <= asize && Splits(bs[k], asize)
    ensures IsFreeBp(PlaceSpec(bs, k, asize), bs[k].bp + asize) && bs[k].bp + asize !in rest
  {
    PlacePiecesTile(bs, FirstBp(m), m.Brk(), k, asize);
    SpliceAt(bs, k, k + 1, PlacePieces(bs[k], asize), k + 1);
    RemainderNew(bs, FirstBp(m), m.Brk(), k, asize, rest);
  }

  // ---------------------------------------------------------------------
  // mm_free

  /**
   * mm_free's loads and stores on allocated block bs[k]: the size read from
   * its header, packed with a clear allocated bit into both tags, leaves a
   * heap in which bs[k] is free and the one block coalesce has to settle.
   */
  lemma FreeOk(m: Mem, head: int, bs: seq<Blk>, fl: seq<int>, k: int)
    requires Good(m, head, bs, fl) && 0 <= k < |bs| && bs[k].alloc
    ensures m.InRange(Hdrp(bs[k].bp))
    ensures var t := TagStores(m, bs[k].bp, Pack(GetSize(m.Get(Hdrp(bs[k].bp))), 0));
      && t.ok && Pending(t.mem, head, FreeSpec(bs, k), fl, k)
      && LiveKept(m, t.mem, FreeSpec(bs, k)) && t.mem.Brk() == m.Brk()
  {
    Decode(m, bs, k);
    Bounds(bs, FirstBp(m), m.Brk(), k);
    var fb := FreeSpec(bs, k)[k];
    SetTagsOk(m, fb);
    var t := TagStores(m, bs[k].bp, Pack(GetSize(m.Get(Hdrp(bs[k].bp))), 0));
    FreeShape(m, t.mem, LINKS, head, bs, fl, k);
    FreePending(bs, FirstBp(m), m.Brk(), k, fl);
  }

  /**
   * After mm_free(bs[k].bp) no allocated block sits at the freed address,
   * and every other block that was allocated is still there unchanged.
   */
  lemma FreeKeeps(m: Mem, bs: seq<Blk>, k: int)
    requires Heap(m, bs) && 0 <= k < |bs| && bs[k].alloc
    ensures var cs := CoalesceSpec(FreeSpec(bs, k), k);
      && NoAllocAt(cs, bs[k].bp)
      && AllocKept(bs, k, cs)
  {
    var fs, s, e := FreeSpec(bs, k), FirstBp(m), m.Brk();
    assert Tiles(fs, s, e) by {
      forall i | 0 <= i < |fs|
        ensures fs[i].bp == bs[i].bp && fs[i].size == bs[i].size
      {
      }
    }
    CoalesceTiles(fs, s, e, k);
    CoalesceFreed(fs, s, e, k);
    forall t | 0 <= t < |bs| && t != k && bs[t].alloc
      ensures bs[t] in CoalesceSpec(fs, k)
    {
      assert fs[t] == bs[t];
    }
  }

  // ---------------------------------------------------------------------
  // find_fit

  /**
   * find_fit's walk at position i of the list: a member's header reads as
   * free and its successor link holds the next member, the prologue's
   * header (at the end of the list) reads as allocated. The walk starts at
   * the head.
   */
  lemma WalkStep(m: Mem, L: Layout, head: int, bs: seq<Blk>, fl: seq<int>, i: int)
    requires Shape(m, L, head, bs, fl) && 0 <= i <= |fl|
    ensures var x := if i < |fl| then fl[i] else Prologue(m);
      && (i == 0 ==> head == x) && x != NULL
      && m.InRange(Hdrp(x)) && (GetAlloc(m.Get(Hdrp(x))) != 1 <==> i < |fl|)
      && (i < |fl| ==> m.InRange(x + L.succOff) && m.Get(x + L.succOff) as int == Next(fl, i, Prologue(m)))
  {
    PrologueHeader(m);
    if i < |fl| {
      assert fl[i] in fl;
      var t := FreeHeader(m, bs, fl[i]);
      Bounds(bs, FirstBp(m), m.Brk(), t);
      assert LinkOk(m, L, Prologue(m), fl, i);
    }
  }

  /** A walk that passed positions 0 .. i-1 without a fit and stops at i stops at FitIndex. */
  lemma FitIndexAt(m: Mem, fl: seq<int>, asize: int, i: int)
    requires 0 <= i <= |fl|
    requires forall j :: 0 <= j < i ==> GetSize(m.Get(Hdrp(fl[j]))) as int < asize
    requires i < |fl| ==> GetSize(m.Get(Hdrp(fl[i]))) as int >= asize
    ensures FitIndex(m, fl, asize) == i
  {
    var f := FitIndex(m, fl, asize);
    assert f < |fl| ==> GetSize(m.Get(Hdrp(fl[f]))) as int >= asize;
  }

  /** When find_fit finds a block, it is a free block of the heap large enough for asize. */
  lemma FitBlock(m: Mem, L: Layout, head: int, bs: seq<Blk>, fl: seq<int>, asize: int) returns (t: int)
    requires Shape(m, L, head, bs, fl) && FitIndex(m, fl, asize) < |fl|
    ensures 0 <= t < |bs| && bs[t].bp == fl[FitIndex(m, fl, asize)] && !bs[t].alloc && asize <= bs[t].size
  {
    var i := FitIndex(m, fl, asize);
    assert fl[i] in fl;
    t := FreeHeader(m, bs, fl[i]);
  }

  /** When find_fit finds nothing, no free block of the heap is large enough for asize. */
  lemma FitNone(m: Mem, head: int, bs: seq<Blk>, fl: seq<int>, asize: int)
    requires Good(m, head, bs, fl) && FitIndex(m, fl, asize) == |fl|
    ensures forall t :: 0 <= t < |bs| && !bs[t].alloc ==> bs[t].size < asize
  {
    forall t | 0 <= t < |bs| && !bs[t].alloc
      ensures bs[t].size < asize
    {
      assert bs[t].bp in fl;
      var j :| 0 <= j < |fl| && fl[j] == bs[t].bp;
      Decode(m, bs, t);
    }
  }

  /** extend_heap keeps every allocated block, and the new block lies past all of them. */
  lemma ExtendKeepsAllocated(m: Mem, bs: seq<Blk>, size: int)
    requires Heap(m, bs)
    ensures var es := ExtendSpec(bs, m.Brk(), size); var cs := CoalesceSpec(es, |bs|);
      AllocIn(bs, cs)
  {
    var es := ExtendSpec(bs, m.Brk(), size);
    forall t | 0 <= t < |bs| && bs[t].alloc
      ensures bs[t] in CoalesceSpec(es, |bs|)
    {
      assert es[t] == bs[t];
    }
  }

  /**
   * Blocks kept by a step that keeps them, then by one that keeps the
   * allocated blocks of the first and returns bp, which none of those is at.
   */
  lemma LiveBlocksStay(bs: seq<Blk>, cs: seq<Blk>, ds: seq<Blk>, bp: int)
    requires AllocIn(bs, cs)
    requires AllocIn(cs, ds) && NoAllocAt(cs, bp)
    ensures AllocIn(bs, ds) && NoAllocAt(bs, bp)
  {
    forall t | 0 <= t < |bs| && bs[t].alloc
      ensures bs[t] in ds && bs[t].bp != bp
    {
      var u :| 0 <= u < |cs| && cs[u] == bs[t];
    }
  }

  // ---------------------------------------------------------------------
  // extend_heap

  /** extend_heap's request: words rounded up to an even count, in bytes, so the break stays 8-aligned. */
  function ExtendBytes(words: nat): (size: nat)
    ensures size % DSIZE == 0 && WSIZE * words <= size <= WSIZE * words + WSIZE
  {
    if words % 2 == 1 then (words + 1) * WSIZE else words * WSIZE
  }

  /** A request that is a multiple of 8 bytes is an even number of words, which extend_heap takes as is. */
  lemma EvenWords(n: nat)
    requires n % DSIZE == 0
    ensures ExtendBytes(n / WSIZE) == n
  {
  }

  /**
   * extend_heap's three stores on the grown memory: PACK(size, 0) into the
   * header and footer of the block at the old break, then PACK(0, 1) into
   * the header of the block NEXT_BLKP then finds.
   */
  function ExtendStores(m: Mem, bp: int, size: int): (r: Written) {
    var t := TagStores(m, bp, Pack(Trunc(size), 0));
    var e := Hdrp(NextBlkp(t.mem, bp));
    Written(t.mem.Put(e, Pack(0, 1)), t.ok && t.mem.InRange(e))
  }

  /** The words extend_heap writes: the old epilogue and the last two words of the grown heap. */
  lemma ExtendWords(m: Mem, g: Mem, size: int)
    requires Sentinels(m) && size % 8 == 0 && MIN_BLOCK <= size
    requires g == m.Grow(size / WSIZE) && g.Brk() <= WORD_LIMIT
    ensures g.InRange(m.Brk() - WSIZE) && g.InRange(m.Brk() + size - DSIZE) && g.InRange(m.Brk() + size - WSIZE)
    ensures g.Brk() == m.Brk() + size && size < WORD_LIMIT
  {
    WordIn(m, m.Brk() - WSIZE);
    WordIn(g, m.Brk() + size - DSIZE);
    WordIn(g, m.Brk() + size - WSIZE);
  }

  /**
   * extend_heap's stores after mem_sbrk grew a heap satisfying the invariant
   * by size bytes stay inside the heap and leave one new free block at the
   * old break, the only block off the list and the only one that may have a
   * free neighbour; no allocated block changes.
   */
  lemma ExtendOk(m: Mem, g: Mem, head: int, bs: seq<Blk>, fl: seq<int>, size: int)
    requires Good(m, head, bs, fl) && size % DSIZE == 0 && MIN_BLOCK <= size
    requires g == m.Grow(size / WSIZE) && g.Brk() <= WORD_LIMIT
    ensures var t := ExtendStores(g, m.Brk(), size);
      && t.ok && Pending(t.mem, head, ExtendSpec(bs, m.Brk(), size), fl, |bs|)
      && LiveKept(m, t.mem, bs) && t.mem.Brk() == g.Brk()
  {
    ExtendWords(m, g, size);
    ExtendWrites(g, m.Brk(), size);
    var t := ExtendStores(g, m.Brk(), size);
    assert WSIZE * (size / WSIZE) == size;
    ExtendShape(m, g, t.mem, LINKS, head, bs, fl, size / WSIZE);
    ExtendPending(bs, FirstBp(m), m.Brk(), size, fl);
  }

  /** The three stores write the new block's tags and the epilogue, and only the words from bp's header on. */
  lemma ExtendWrites(g: Mem, bp: int, size: int)
    requires size % 8 == 0 && MIN_BLOCK <= size < WORD_LIMIT && g.Brk() == bp + size
    requires g.InRange(bp - WSIZE) && g.InRange(bp + size - DSIZE) && g.InRange(bp + size - WSIZE)
    ensures var t := ExtendStores(g, bp, size); var v := Pack(size as u32, 0);
      && t.ok && AgreeOutside(g, t.mem, bp - WSIZE, g.Brk())
      && t.mem.Get(bp - WSIZE) == v && t.mem.Get(g.Brk() - DSIZE) == v
      && t.mem.Get(g.Brk() - WSIZE) == Pack(0, 1)
  {
    SetTagsOk(g, Blk(bp, size, false));
    var t := TagStores(g, bp, Pack(Trunc(size), 0));
    PackRoundTrip(size as u32, 0);
    assert NextBlkp(t.mem, bp) == bp + size;
  }

  /** The block coalesce makes of a new last block bs[k]: free, no smaller, and not at NULL. */
  lemma ExtendMerged(m: Mem, bs: seq<Blk>, k: int)
    requires Heap(m, bs) && 0 <= k < |bs|
    ensures var lo, cs := MergeLo(bs, k), CoalesceSpec(bs, k);
      && 0 <= lo < |cs| && cs[lo].bp == bs[lo].bp && !cs[lo].alloc && bs[k].size <= cs[lo].size
      && bs[lo].bp != NULL
  {
    CoalesceCovers(bs, FirstBp(m), m.Brk(), k);
    Bounds(bs, FirstBp(m), m.Brk(), MergeLo(bs, k));
  }

  /** The allocated blocks before extend_heap are allocated blocks of the extended heap, kept through coalesce. */
  lemma ExtendLiveKept(m0: Mem, m1: Mem, m2: Mem, bs: seq<Blk>, bp: int, size: int)
    requires LiveKept(m0, m1, bs) && LiveKept(m1, m2, ExtendSpec(bs, bp, size))
    ensures LiveKept(m0, m2, bs)
  {
    var es := ExtendSpec(bs, bp, size);
    forall t | 0 <= t < |bs| && bs[t].alloc
      ensures bs[t] in es
    {
      assert es[t] == bs[t];
    }
    LiveKeptSub(m1, m2, bs, es);
  }

  // ---------------------------------------------------------------------
  // Stores

  /** A store changes at most the word it names, and a store inside the heap writes its value there. */
  lemma PutChanged(m: Mem, p: int, v: u32)
    ensures Changed(m, m.Put(p, v), {p})
    ensures m.InRange(p) ==> m.Put(p, v).Get(p) == v
  {
  }

  /**
   * Stores of PACK(sz, 0) at a free block's header and footer make them its
   * tags and change no other word: PREV_BLKP(r) reads the same footer after
   * them when that footer is a third word.
   */
  lemma TagsAt(m: Mem, c: Blk, p1: int, p2: int, sz: u32, a: int, b: int, r: int)
    requires p1 == c.bp - WSIZE && p2 == c.bp + c.size - DSIZE && DSIZE <= c.size
    requires m.InRange(p1) && m.InRange(p2) && sz as int == c.size && !c.alloc
    requires a == p1 && b == p2 + WSIZE
    requires m.InRange(r - DSIZE) && r - DSIZE != p1 && r - DSIZE != p2
    ensures var w := Pack(sz, 0); var m3 := m.Put(p1, w).Put(p2, w);
      && TagOk(m3, c) && AgreeOutside(m, m3, a, b)
      && m3.InRange(r - DSIZE) && PrevBlkp(m3, r) == PrevBlkp(m, r)
  {
    var w := Pack(sz, 0);
    TwoPuts(m, p1, w, p2, w);
  }

  lemma TwoPuts(m: Mem, p1: int, v1: u32, p2: int, v2: u32)
    requires m.InRange(p1) && m.InRange(p2) && p1 != p2
    ensures var m1 := m.Put(p1, v1); var m2 := m1.Put(p2, v2);
      && m1.InRange(p2) && Changed(m, m2, {p1, p2}) && m2.Get(p1) == v1 && m2.Get(p2) == v2
  {
  }

  lemma ThreePuts(m: Mem, p1: int, v1: u32, p2: int, v2: u32, p3: int, v3: u32)
    requires m.InRange(p1) && m.InRange(p2) && m.InRange(p3)
    requires p1 != p2 && p1 != p3 && p2 != p3
    ensures var m1 := m.Put(p1, v1); var m2 := m1.Put(p2, v2); var m3 := m2.Put(p3, v3);
      && m1.InRange(p2) && m2.InRange(p3)
      && Changed(m, m3, {p1, p2, p3}) && m3.Get(p1) == v1 && m3.Get(p2) == v2 && m3.Get(p3) == v3
  {
  }

  /** Stores into spare words keep the blocks and every allocated block. */
  lemma HeapPuts2(m: Mem, bs: seq<Blk>, p1: int, v1: u32, p2: int, v2: u32)
    requires Heap(m, bs) && m.InRange(p1) && m.InRange(p2) && p1 != p2
    requires Spare(m, bs, p1) && Spare(m, bs, p2)
    ensures var m1 := m.Put(p1, v1); var m2 := m1.Put(p2, v2);
      && m1.InRange(p2) && Heap(m2, bs) && LiveKept(m, m2, bs) && m2.Brk() == m.Brk()
  {
    TwoPuts(m, p1, v1, p2, v2);
    ChangedKeepsHeap(m, m.Put(p1, v1).Put(p2, v2), bs, {p1, p2});
  }

  lemma HeapPuts3(m: Mem, bs: seq<Blk>, p1: int, v1: u32, p2: int, v2: u32, p3: int, v3: u32)
    requires Heap(m, bs) && m.InRange(p1) && m.InRange(p2) && m.InRange(p3)
    requires p1 != p2 && p1 != p3 && p2 != p3
    requires Spare(m, bs, p1) && Spare(m, bs, p2) && Spare(m, bs, p3)
    ensures var m1 := m.Put(p1, v1); var m2 := m1.Put(p2, v2); var m3 := m2.Put(p3, v3);
      && m1.InRange(p2) && m2.InRange(p3) && Heap(m3, bs) && LiveKept(m, m3, bs) && m3.Brk() == m.Brk()
  {
    ThreePuts(m, p1, v1, p2, v2, p3, v3);
    ChangedKeepsHeap(m, m.Put(p1, v1).Put(p2, v2).Put(p3, v3), bs, {p1, p2, p3});
  }

  // ---------------------------------------------------------------------
  // mm_realloc

  /**
   * The n bytes at dst in m2 are the n bytes at src in m1, compared a word
   * at a time; the low bytes of a word come first in memory.
   */
  ghost predicate SameBytes(m1: Mem, src: int, m2: Mem, dst: int, n: int) {
    forall d :: 0 <= d < n && d % WSIZE == 0 ==> m2.Prefix(dst, d, n) == m1.Prefix(src, d, n)
  }

  /**
   * realloc's copy size: the old header word minus DSIZE, capped at the
   * request. The header word holds the allocated bit too, so for an
   * allocated block this is one more than its payload.
   */
  lemma CopySize(m: Mem, bs: seq<Blk>, k: int)
    requires Heap(m, bs) && 0 <= k < |bs| && bs[k].alloc
    ensures m.InRange(Hdrp(bs[k].bp)) && m.Get(Hdrp(bs[k].bp)) as int - DSIZE == bs[k].size - DSIZE + 1
  {
    Decode(m, bs, k);
    assert TagOk(m, bs[k]);
    PackRoundTrip(bs[k].size as u32, 1);
  }

  /** An 8-byte aligned address is a whole number of words past an 8-byte aligned heap start. */
  lemma AlignedPayload(lo: int, x: int)
    requires lo % 8 == 0 && x % 8 == 0
    ensures WordAligned(lo, x)
  {
    var q := x / 8 - lo / 8;
    assert x - lo == 4 * (2 * q);
  }

  /** A whole number of words past a word-aligned address is word aligned. */
  lemma WordOffset(lo: int, x: int, d: int)
    requires WordAligned(lo, x) && d % WSIZE == 0
    ensures WordAligned(lo, x + d)
  {
    assert x + d - lo == 4 * ((x - lo) / 4 + d / 4);
  }

  /** The word d bytes into a block's payload is a heap word of the block. */
  lemma PayloadWord(m: Mem, b: Blk, d: int)
    requires m.Wf() && WordAligned(m.lo, b.bp) && m.lo <= b.bp && End(b) <= m.Brk()
    requires 0 <= d && d + DSIZE <= b.size && d % WSIZE == 0
    ensures m.InRange(b.bp + d) && Within(b, b.bp + d)
  {
    WordOffset(m.lo, b.bp, d);
    WordIn(m, b.bp + d);
  }

  /** The copy of realloc stays inside the new payload and reads inside the old block, which lies apart from it. */
  lemma ReallocRanges(m: Mem, bs: seq<Blk>, j: int, k: int, n: int)
    requires Heap(m, bs) && 0 <= j < |bs| && 0 <= k < |bs| && j != k
    requires 0 <= n <= bs[k].size - DSIZE + 1 && n <= bs[j].size - DSIZE
    ensures WordAligned(m.lo, bs[j].bp) && WordAligned(m.lo, bs[k].bp)
    ensures m.lo <= bs[j].bp && bs[j].bp + n + 3 <= m.Brk() && m.lo <= bs[k].bp && bs[k].bp + n + 3 <= m.Brk()
    ensures bs[j].bp + n <= bs[k].bp || bs[k].bp + n <= bs[j].bp
    ensures AgreeOutside(m, m.Copied(bs[j].bp, bs[k].bp, n), bs[j].bp, End(bs[j]) - DSIZE)
  {
    var s, e := FirstBp(m), m.Brk();
    Bounds(bs, s, e, j);
    Bounds(bs, s, e, k);
    AlignedPayload(m.lo, bs[j].bp);
    AlignedPayload(m.lo, bs[k].bp);
    if j < k {
      Ordered(bs, s, e, j, k);
    } else {
      Ordered(bs, s, e, k, j);
    }
  }

  /** The bytes realloc copied survive the malloc before the copy and the free after it. */
  lemma ReallocBytes(m0: Mem, m1: Mem, m3: Mem, bs0: seq<Blk>, k: int, bs1: seq<Blk>, j: int, k1: int, n: int)
    requires Heap(m0, bs0) && Heap(m1, bs1) && 0 <= k < |bs0| && bs0[k].alloc
    requires 0 <= j < |bs1| && bs1[j].alloc && 0 <= k1 < |bs1| && j != k1 && bs1[k1] == bs0[k]
    requires 0 <= n <= bs0[k].size - DSIZE + 1 && n <= bs1[j].size - DSIZE
    requires LiveKept(m0, m1, bs0)
    requires LiveKept(m1.Copied(bs1[j].bp, bs0[k].bp, n), m3, FreeSpec(bs1, k1))
    ensures SameBytes(m0, bs0[k].bp, m3, bs1[j].bp, n)
  {
    var src, dst := bs0[k].bp, bs1[j].bp;
    Bounds(bs0, FirstBp(m0), m0.Brk(), k);
    Bounds(bs1, FirstBp(m1), m1.Brk(), j);
    AlignedPayload(m1.lo, dst);
    AlignedPayload(m0.lo, src);
    forall d | 0 <= d < n && d % WSIZE == 0
      ensures m3.Prefix(dst, d, n) == m0.Prefix(src, d, n)
    {
      CopiedWord(m0, m1, m3, bs0, k, bs1, j, k1, n, d);
    }
  }

  /** One word of realloc's copy, from the old block before the malloc to the new block after the free. */
  lemma CopiedWord(m0: Mem, m1: Mem, m3: Mem, bs0: seq<Blk>, k: int, bs1: seq<Blk>, j: int, k1: int, n: int, d: int)
    requires m0.Wf() && m1.Wf() && 0 <= k < |bs0| && bs0[k].alloc
    requires 0 <= j < |bs1| && bs1[j].alloc && 0 <= k1 < |bs1| && j != k1
    requires n <= bs0[k].size - DSIZE + 1 && n <= bs1[j].size - DSIZE && 0 <= d < n && d % WSIZE == 0
    requires WordAligned(m1.lo, bs1[j].bp) && WordAligned(m0.lo, bs0[k].bp)
    requires m1.lo <= bs1[j].bp && End(bs1[j]) <= m1.Brk() && m0.lo <= bs0[k].bp && End(bs0[k]) <= m0.Brk()
    requires LiveKept(m0, m1, bs0)
    requires LiveKept(m1.Copied(bs1[j].bp, bs0[k].bp, n), m3, FreeSpec(bs1, k1))
    ensures m3.Prefix(bs1[j].bp, d, n) == m0.Prefix(bs0[k].bp, d, n)
  {
    var src, dst := bs0[k].bp, bs1[j].bp;
    var m2 := m1.Copied(dst, src, n);
    PayloadWord(m1, bs1[j], d);
    PayloadWord(m0, bs0[k], d);
    LiveWord(m2, m3, FreeSpec(bs1, k1), j, dst + d);
    LiveWord(m0, m1, bs0, k, src + d);
    assert m2.Prefix(dst, d, n) == m1.Prefix(src, d, n);
  }

  /** A word of the allocated block bs[t] keeps its value across a step that keeps bs's allocated blocks. */
  lemma LiveWord(m1: Mem, m2: Mem, bs: seq<Blk>, t: int, q: int)
    requires LiveKept(m1, m2, bs) && 0 <= t < |bs| && bs[t].alloc && Within(bs[t], q) && m1.InRange(q)
    ensures m2.InRange(q) && m2.Get(q) == m1.Get(q)
  {
    assert InLive(bs, q);
  }

  /** Allocated blocks of bs other than bs[k] that stay in cs and are not cs[j] stay allocated blocks after cs[j] is freed. */
  lemma FreshKept(bs: seq<Blk>, k: int, cs: seq<Blk>, j: int)
    requires 0 <= k < |bs| && 0 <= j < |cs|
    requires AllocIn(bs, cs)
    requires forall t :: 0 <= t < |bs| && t != k && bs[t].alloc ==> bs[t] != cs[j]
    ensures forall t :: 0 <= t < |FreeSpec(bs, k)| && FreeSpec(bs, k)[t].alloc ==> FreeSpec(bs, k)[t] in FreeSpec(cs, j)
  {
    forall t | 0 <= t < |FreeSpec(bs, k)| && FreeSpec(bs, k)[t].alloc
      ensures FreeSpec(bs, k)[t] in FreeSpec(cs, j)
    {
      var u :| 0 <= u < |cs| && cs[u] == bs[t];
      assert FreeSpec(cs, j)[u] == cs[u];
    }
  }

  /** The other allocated blocks of bs are still allocated blocks of ds after cs[k1], which was bs[k], is freed. */
  lemma OthersStay(m: Mem, bs: seq<Blk>, k: int, cs: seq<Blk>, k1: int, ds: seq<Blk>)
    requires Heap(m, bs) && 0 <= k < |bs| && 0 <= k1 < |cs| && cs[k1] == bs[k]
    requires AllocIn(bs, cs)
    requires forall t :: 0 <= t < |cs| && t != k1 && cs[t].alloc ==> cs[t] in ds
    ensures AllocKept(bs, k, ds)
  {
    forall t | 0 <= t < |bs| && t != k && bs[t].alloc
      ensures bs[t] in ds
    {
      var u :| 0 <= u < |cs| && cs[u] == bs[t];
      UniqueBpNe(bs, FirstBp(m), m.Brk(), t, k);
    }
  }

  /**
   * What realloc's malloc (m0 to m1, bs0 to bs1), copy (to m2) and free of
   * the old block bs1[k1] (to m3, the blocks becoming ds) leave: the copied
   * bytes at the new block, the new block still allocated, and every other
   * allocated block in place with its bytes.
   */
  lemma MoveDone(m0: Mem, m1: Mem, m2: Mem, m3: Mem, bs0: seq<Blk>, k: int, bs1: seq<Blk>, j: int, k1: int, n: int, ds: seq<Blk>) returns (u: int)
    requires Heap(m0, bs0) && Heap(m1, bs1) && 0 <= k < |bs0| && bs0[k].alloc
    requires 0 <= j < |bs1| && bs1[j].alloc && 0 <= k1 < |bs1| && j != k1 && bs1[k1] == bs0[k]
    requires AllocIn(bs0, bs1) && NoAllocAt(bs0, bs1[j].bp)
    requires 0 <= n <= bs0[k].size - DSIZE + 1 && n <= bs1[j].size - DSIZE
    requires m2 == m1.Copied(bs1[j].bp, bs0[k].bp, n)
    requires LiveKept(m0, m1, bs0) && LiveKept(m1, m2, FreeSpec(bs1, j)) && LiveKept(m2, m3, FreeSpec(bs1, k1))
    requires forall t :: 0 <= t < |bs1| && t != k1 && bs1[t].alloc ==> bs1[t] in ds
    ensures SameBytes(m0, bs0[k].bp, m3, bs1[j].bp, n)
    ensures LiveKept(m0, m3, FreeSpec(bs0, k))
    ensures 0 <= u < |ds| && ds[u] == bs1[j]
    ensures AllocKept(bs0, k, ds)
  {
    assert bs1[j] in ds;
    u :| 0 <= u < |ds| && ds[u] == bs1[j];
    ReallocBytes(m0, m1, m3, bs0, k, bs1, j, k1, n);
    OthersStay(m0, bs0, k, bs1, k1, ds);
    ReallocKept(m0, m1, m2, m3, bs0, k, bs1, j, k1);
  }

  /** The allocated blocks other than the one realloc moves keep their bytes through the malloc, the copy and the free. */
  lemma ReallocKept(m0: Mem, m1: Mem, m2: Mem, m3: Mem, bs0: seq<Blk>, k: int, bs1: seq<Blk>, j: int, k1: int)
    requires Heap(m0, bs0) && 0 <= k < |bs0| && 0 <= j < |bs1| && 0 <= k1 < |bs1| && bs1[k1] == bs0[k]
    requires AllocIn(bs0, bs1) && NoAllocAt(bs0, bs1[j].bp)
    requires LiveKept(m0, m1, bs0) && LiveKept(m1, m2, FreeSpec(bs1, j)) && LiveKept(m2, m3, FreeSpec(bs1, k1))
    ensures LiveKept(m0, m3, FreeSpec(bs0, k))
  {
    var fs := FreeSpec(bs0, k);
    LiveKeptSub(m0, m1, fs, bs0);
    FreshKept(bs0, k, bs1, j);
    LiveKeptSub(m1, m2, fs, FreeSpec(bs1, j));
    FreshKept(bs0, k, bs1, k1) by {
      forall t | 0 <= t < |bs0| && t != k && bs0[t].alloc
        ensures bs0[t] != bs1[k1]
      {
        UniqueBpNe(bs0, FirstBp(m0), m0.Brk(), t, k);
      }
    }
    LiveKeptSub(m2, m3, fs, FreeSpec(bs1, k1));
    LiveKeptTrans(m0, m1, m2, fs);
    LiveKeptTrans(m0, m2, m3, fs);
  }

  // ---------------------------------------------------------------------
  // mm_init

  /** mm_init's six stores at p: padding, prologue header, its two NULL links, prologue footer, epilogue. */
  function PrologueStores(m: Mem, p: int): (r: Mem) {
    PrologueTail(PrologueHead(m, p), p)
  }

  /** The first three: padding, prologue header, the prologue's predecessor link. */
  function PrologueHead(m: Mem, p: int): (r: Mem) {
    m.Put(p, 0).Put(p + WSIZE, Pack(4 * WSIZE as u32, 1)).Put(p + 2 * WSIZE, NULL as u32)
  }

  /** The last three: the prologue's successor link, prologue footer, epilogue header. */
  function PrologueTail(m: Mem, p: int): (r: Mem) {
    m.Put(p + 3 * WSIZE, NULL as u32).Put(p + 4 * WSIZE, Pack(4 * WSIZE as u32, 1)).Put(p + 5 * WSIZE, Pack(0, 1))
  }

  /** The six words of the fresh heap exist. */
  lemma PrologueWords(m: Mem)
    requires m.Wf() && m.Brk() == m.lo + 6 * WSIZE
    ensures m.InRange(m.lo) && m.InRange(m.lo + WSIZE) && m.InRange(m.lo + 2 * WSIZE)
    ensures m.InRange(m.lo + 3 * WSIZE) && m.InRange(m.lo + 4 * WSIZE) && m.InRange(m.lo + 5 * WSIZE)
  {
    WordIn(m, m.lo);
    WordIn(m, m.lo + WSIZE);
    WordIn(m, m.lo + 2 * WSIZE);
    WordIn(m, m.lo + 3 * WSIZE);
    WordIn(m, m.lo + 4 * WSIZE);
    WordIn(m, m.lo + 5 * WSIZE);
  }

  /** Once written, the six words form a heap with no block and an empty list headed by the prologue. */
  lemma InitShape(m: Mem)
    requires 0 < m.lo && m.lo % 8 == 0 && m.Wf() && m.Brk() == m.lo + 6 * WSIZE <= WORD_LIMIT
    ensures Good(PrologueStores(m, m.lo), Prologue(m), [], [])
  {
    PrologueWords(m);
    var lo := m.lo;
    var m1 := m.Set(lo, 0);
    var m2 := m1.Set(lo + WSIZE, Pack(16, 1));
    var m3 := m2.Set(lo + 2 * WSIZE, NULL as u32);
    var m4 := m3.Set(lo + 3 * WSIZE, NULL as u32);
    var m5 := m4.Set(lo + 4 * WSIZE, Pack(16, 1));
    var m6 := m5.Set(lo + 5 * WSIZE, Pack(0, 1));
    assert m6 == PrologueStores(m, lo);
    assert m6.Wf() && m6.lo == lo && m6.Brk() == lo + 6 * WSIZE && m6.cells.Keys == m.cells.Keys;
    assert m6.Get(lo + WSIZE) == m2.Get(lo + WSIZE) == Pack(16, 1);
    assert m6.Get(lo + 4 * WSIZE) == m5.Get(lo + 4 * WSIZE) == Pack(16, 1);
    assert m6.Get(lo + 5 * WSIZE) == Pack(0, 1);
    assert Sentinels(m6);
  }

  /** The first extension of an empty heap leaves one free block, alone on the list. */
  lemma FirstChunk(s: int, n: int)
    ensures CoalesceSpec(ExtendSpec([], s, n), 0) == [Blk(s, n, false)]
    ensures CoalesceList(ExtendSpec([], s, n), 0, []) == [s]
  {
  }

  // ---------------------------------------------------------------------
  // The macros and the shared store sequences, on memlib's heap

  /** mm_init's six stores, all inside the fresh heap. */
  method WritePrologue(heap: Memory, p: int)
    requires heap.mem.Wf() && p == heap.mem.lo && heap.mem.Brk() == p + 6 * WSIZE
    modifies heap
    ensures heap.mem == PrologueStores(old(heap.mem), p) && heap.fault == old(heap.fault)
  {
    PrologueWords(heap.mem);
    WriteHead(heap, p);
    WriteTail(heap, p);
  }

  /** The first three of mm_init's six stores: padding, prologue header, and the prologue's word at bp. */
  method WriteHead(heap: Memory, p: int)
    requires heap.mem.InRange(p) && heap.mem.InRange(p + WSIZE) && heap.mem.InRange(p + 2 * WSIZE)
    modifies heap
    ensures heap.mem == PrologueHead(old(heap.mem), p) && heap.mem.cells.Keys == old(heap.mem.cells.Keys)
    ensures heap.fault == old(heap.fault)
  {
    heap.Store(p, 0);
    heap.Store(p + WSIZE, Pack(4 * WSIZE as u32, 1));
    heap.Store(p + 2 * WSIZE, NULL as u32);
  }

  /** The last three: the prologue's word at bp + 4, prologue footer, epilogue header. */
  method WriteTail(heap: Memory, p: int)
    requires heap.mem.InRange(p + 3 * WSIZE) && heap.mem.InRange(p + 4 * WSIZE) && heap.mem.InRange(p + 5 * WSIZE)
    modifies heap
    ensures heap.mem == PrologueTail(old(heap.mem), p) && heap.fault == old(heap.fault)
  {
    heap.Store(p + 3 * WSIZE, NULL as u32);
    heap.Store(p + 4 * WSIZE, Pack(4 * WSIZE as u32, 1));
    heap.Store(p + 5 * WSIZE, Pack(0, 1));
  }

  /** PREV_BLKP(bp): one load, of the previous block's footer. */
  method PrevBlk(heap: Memory, bp: int) returns (p: int)
    modifies heap
    ensures heap.mem == old(heap.mem) && p == PrevBlkp(heap.mem, bp)
    ensures heap.fault == (old(heap.fault) || !heap.mem.InRange(bp - DSIZE))
  {
    var w := heap.Load(bp - DSIZE);
    p := bp - GetSize(w) as int;
  }

  /** NEXT_BLKP(bp): one load, of bp's header. */
  method NextBlk(heap: Memory, bp: int) returns (p: int)
    modifies heap
    ensures heap.mem == old(heap.mem) && p == NextBlkp(heap.mem, bp)
    ensures heap.fault == (old(heap.fault) || !heap.mem.InRange(Hdrp(bp)))
  {
    var w := heap.Load(Hdrp(bp));
    p := bp + GetSize(w) as int;
  }

  /** FTRP(bp): one load, of bp's header. */
  method Ftr(heap: Memory, bp: int) returns (p: int)
    modifies heap
    ensures heap.mem == old(heap.mem) && p == Ftrp(heap.mem, bp)
    ensures heap.fault == (old(heap.fault) || !heap.mem.InRange(Hdrp(bp)))
  {
    var w := heap.Load(Hdrp(bp));
    p := bp + GetSize(w) as int - DSIZE;
  }

  /** The two tag stores: w into bp's header, then w into the footer that the new header locates. */
  method SetTags(heap: Memory, bp: int, w: u32)
    modifies heap
    ensures var t := TagStores(old(heap.mem), bp, w);
      heap.mem == t.mem && heap.fault == (old(heap.fault) || !t.ok)
  {
    heap.Store(Hdrp(bp), w);
    var f := Ftr(heap, bp);
    heap.Store(f, w);
  }

  /** coalesce's first loads: whether each neighbour is allocated, and bp's own size. */
  method ReadNeighbours(heap: Memory, bp: int, ghost bs: seq<Blk>, ghost k: int) returns (prevAlloc: u32, nextAlloc: u32, size: u32)
    requires Heap(heap.mem, bs) && 0 <= k < |bs| && bp == bs[k].bp
    modifies heap
    ensures heap.mem == old(heap.mem) && heap.fault == old(heap.fault)
    ensures prevAlloc != 0 <==> MergeLo(bs, k) == k
    ensures nextAlloc != 0 <==> MergeHi(bs, k) == k + 1
    ensures size as int == bs[k].size
  {
    CoalesceProbe(heap.mem, bs, k, bp);
    var prev := PrevBlk(heap, bp);
    var prevFtr := Ftr(heap, prev);
    var pw := heap.Load(prevFtr);
    prevAlloc := GetAlloc(pw);
    var next := NextBlk(heap, bp);
    var nw := heap.Load(Hdrp(next));
    nextAlloc := GetAlloc(nw);
    var hw := heap.Load(Hdrp(bp));
    size := GetSize(hw);
  }

  /** Case 2's loads and stores once the next block is unlinked: its size added to bp's, in bp's tags. */
  method JoinNext(heap: Memory, bp: int, size: u32, ghost bs: seq<Blk>, ghost k: int)
    requires Heap(heap.mem, bs) && 0 <= k < |bs| && bp == bs[k].bp && size as int == bs[k].size
    requires MergeLo(bs, k) == k && MergeHi(bs, k) == k + 2
    modifies heap
    ensures TagOk(heap.mem, Merged(bs, k, k + 2))
    ensures AgreeOutside(old(heap.mem), heap.mem, bs[k].bp - WSIZE, End(bs[k + 1]) - WSIZE)
    ensures heap.fault == old(heap.fault)
  {
    ghost var m1 := heap.mem;
    var next := NextBlk(heap, bp);
    var w := heap.Load(Hdrp(next));
    var sz := Trunc(size as int + GetSize(w) as int);
    MergeNextTags(m1, bs, k, bp, sz);
    SetTags(heap, bp, Pack(sz, 0));
  }

  /**
   * Case 3's loads and stores once the previous block is unlinked: its
   * size added to bp's, bp stepped back to it, and its tags rewritten.
   */
  method JoinPrev(heap: Memory, bp: int, size: u32, ghost bs: seq<Blk>, ghost k: int) returns (r: int)
    requires Heap(heap.mem, bs) && 0 <= k < |bs| && bp == bs[k].bp && size as int == bs[k].size
    requires MergeLo(bs, k) == k - 1 && MergeHi(bs, k) == k + 1
    modifies heap
    ensures r == bs[k - 1].bp && TagOk(heap.mem, Merged(bs, k - 1, k + 1))
    ensures AgreeOutside(old(heap.mem), heap.mem, bs[k - 1].bp - WSIZE, End(bs[k]) - WSIZE)
    ensures heap.fault == old(heap.fault)
  {
    ghost var m1 := heap.mem;
    var prev := PrevBlk(heap, bp);
    var w := heap.Load(Hdrp(prev));
    var sz := Trunc(size as int + GetSize(w) as int);
    r := PrevBlk(heap, bp);
    MergePrevTags(m1, bs, k, bp, sz, r);
    SetTags(heap, r, Pack(sz, 0));
  }

  /**
   * Case 4's loads and stores once both neighbours are unlinked: the three
   * sizes added up and written into the previous block's header and the
   * next block's footer; the merged block starts at the previous block.
   */
  method JoinBoth(heap: Memory, bp: int, size: u32, ghost bs: seq<Blk>, ghost k: int) returns (r: int)
    requires Heap(heap.mem, bs) && 0 <= k < |bs| && bp == bs[k].bp && size as int == bs[k].size
    requires MergeLo(bs, k) == k - 1 && MergeHi(bs, k) == k + 2
    modifies heap
    ensures r == bs[k - 1].bp && TagOk(heap.mem, Merged(bs, k - 1, k + 2))
    ensures AgreeOutside(old(heap.mem), heap.mem, bs[k - 1].bp - WSIZE, End(bs[k + 1]) - WSIZE)
    ensures heap.fault == old(heap.fault)
  {
    ghost var m1 := heap.mem;
    MergeBothLoads(m1, bs, k, bp);
    var prev := PrevBlk(heap, bp);
    var w1 := heap.Load(Hdrp(prev));
    var next := NextBlk(heap, bp);
    var f := Ftr(heap, next);
    var w2 := heap.Load(f);
    var sz := Trunc(size as int + GetSize(w1) as int + GetSize(w2) as int);
    assert sz as int == End(bs[k + 1]) - bs[k - 1].bp;
    var w := Pack(sz, 0);
    prev := PrevBlk(heap, bp);
    var h := Hdrp(prev);
    MergeBothFirst(m1, bs, k, bp, h, w);
    heap.Store(h, w);
    next := NextBlk(heap, bp);
    f := Ftr(heap, next);
    heap.Store(f, w);
    MergeBothSecond(m1, bs, k, bp, h, f, sz);
    r := PrevBlk(heap, bp);
  }

  /**
   * place's split: PACK(asize, 1) in bp's tags, then PACK(fsize - asize, 0)
   * in the tags of the block NEXT_BLKP(bp) then finds, which is returned.
   */
  method SplitBlock(heap: Memory, bp: int, asize: int, fsize: int, ghost bs: seq<Blk>, ghost k: int) returns (next: int)
    requires Heap(heap.mem, bs) && 0 <= k < |bs| && bp == bs[k].bp && fsize == bs[k].size
    requires asize % DSIZE == 0 && MIN_BLOCK <= asize && Splits(bs[k], asize)
    modifies heap
    ensures next == bp + asize
    ensures TagsMatch(heap.mem, PlacePieces(bs[k], asize))
    ensures AgreeOutside(old(heap.mem), heap.mem, bp - WSIZE, End(bs[k]) - WSIZE)
    ensures heap.fault == old(heap.fault)
  {
    SplitWords(heap.mem, bs, k, asize);
    next := SplitPieces(heap, bp, asize, fsize, bs[k]);
  }

  /** The stores of SplitBlock on the free block b, whose words are known to lie in the heap. */
  method SplitPieces(heap: Memory, bp: int, asize: int, fsize: int, ghost b: Blk) returns (next: int)
    requires bp == b.bp && fsize == b.size && b.size < WORD_LIMIT && b.size % 8 == 0
    requires asize % DSIZE == 0 && MIN_BLOCK <= asize && Splits(b, asize)
    requires heap.mem.InRange(Hdrp(bp)) && heap.mem.InRange(bp + asize - DSIZE) && heap.mem.InRange(bp + asize - WSIZE)
    requires heap.mem.InRange(End(b) - DSIZE)
    modifies heap
    ensures next == bp + asize
    ensures TagsMatch(heap.mem, PlacePieces(b, asize))
    ensures AgreeOutside(old(heap.mem), heap.mem, bp - WSIZE, End(b) - WSIZE)
    ensures heap.fault == old(heap.fault)
  {
    ghost var m1 := heap.mem;
    SplitFront(m1, b, asize);
    SetTags(heap, bp, Pack(Trunc(asize), 1));
    ghost var m2 := heap.mem;
    next := NextBlk(heap, bp);
    SplitRest(m1, m2, b, asize, next, fsize);
    SetTags(heap, next, Pack(Trunc(fsize - asize), 0));
  }

  /** place without a split: PACK(fsize, 1) in both of bp's tags. */
  method TakeWhole(heap: Memory, bp: int, fsize: int, ghost bs: seq<Blk>, ghost k: int)
    requires Heap(heap.mem, bs) && 0 <= k < |bs| && bp == bs[k].bp && fsize == bs[k].size
    modifies heap
    ensures TagOk(heap.mem, Blk(bp, fsize, true))
    ensures AgreeOutside(old(heap.mem), heap.mem, bp - WSIZE, End(bs[k]) - WSIZE)
    ensures heap.fault == old(heap.fault)
  {
    Decode(heap.mem, bs, k);
    Bounds(bs, FirstBp(heap.mem), heap.mem.Brk(), k);
    SetTagsOk(heap.mem, Blk(bp, fsize, true));
    SetTags(heap, bp, Pack(Trunc(fsize), 1));
  }

  /** extend_heap's three stores: the new block's header and footer, then the new epilogue header. */
  method WriteChunk(heap: Memory, bp: int, size: int)
    modifies heap
    ensures var t := ExtendStores(old(heap.mem), bp, size);
      heap.mem == t.mem && heap.fault == (old(heap.fault) || !t.ok)
  {
    SetTags(heap, bp, Pack(Trunc(size), 0));
    var next := NextBlk(heap, bp);
    heap.Store(Hdrp(next), Pack(0, 1));
  }

  /** mm_free's header load and two tag stores: PACK(size, 0) in both of bp's tags, size read from its header. */
  method ClearTags(heap: Memory, bp: int)
    modifies heap
    ensures var t := TagStores(old(heap.mem), bp, Pack(GetSize(old(heap.mem).Get(Hdrp(bp))), 0));
      heap.mem == t.mem && heap.fault == (old(heap.fault) || !old(heap.mem).InRange(Hdrp(bp)) || !t.ok)
  {
    var w := heap.Load(Hdrp(bp));
    var size := GetSize(w);
    SetTags(heap, bp, Pack(size, 0));
  }

  /**
   * realloc's header load, copy size and memcpy from the allocated block
   * bs[k] to the allocated block bs[j]: min(size, header word - DSIZE)
   * bytes, written inside bs[j]'s payload and its footer's first byte.
   */
  method CopyPayload(heap: Memory, bp: int, r: int, size: nat, ghost bs: seq<Blk>, ghost k: int, ghost j: int) returns (n: int)
    requires Heap(heap.mem, bs) && 0 <= k < |bs| && bs[k].bp == bp && bs[k].alloc
    requires 0 <= j < |bs| && j != k && bs[j].bp == r && bs[j].alloc && size + DSIZE <= bs[j].size
    modifies heap
    ensures n == Min(size, bs[k].size - DSIZE + 1)
    ensures heap.mem == old(heap.mem).Copied(r, bp, n) && heap.fault == old(heap.fault)
    ensures AgreeOutside(old(heap.mem), heap.mem, r, End(bs[j]) - DSIZE)
  {
    CopySize(heap.mem, bs, k);
    var w := heap.Load(Hdrp(bp));
    n := w as int - DSIZE;
    if size < n {
      n := size;
    }
    ReallocRanges(heap.mem, bs, j, k, n);
    heap.Copy(r, bp, n);
  }

  // ---------------------------------------------------------------------
  // The allocator

  class Allocator {
    const heap: Memory
    var heapListp: int
    var explicitListp: int
    ghost var blocks: seq<Blk>
    ghost var free: seq<int>

    ghost predicate Valid()
      reads this, heap
    {
      && heap.Valid() && !heap.fault
      && heapListp == heap.mem.lo
      && Good(heap.mem, explicitListp, blocks, free)
    }

    constructor (heap: Memory)
      ensures this.heap == heap && explicitListp == NULL && heapListp == NULL
    {
      this.heap := heap;
      explicitListp := NULL;
      heapListp := NULL;
    }

    /**
     * mm_init: ask for six words and lay out padding, prologue (with its two
     * NULL link words) and epilogue, make the prologue the list's head, then
     * extend the heap by CHUNKSIZE bytes. Returns -1 when either request for
     * memory is refused; a refused first request leaves heap_listp at -1.
     */
    method Init() returns (r: int)
      requires heap.Valid() && !heap.fault && heap.mem.Brk() == heap.mem.lo
      modifies this, heap
      ensures r == 0 || r == -1
      ensures r == 0 <==> old(heap.mem.lo) + 6 * WSIZE + CHUNKSIZE <= heap.maxAddr
      ensures old(heap.mem.lo) + 6 * WSIZE <= heap.maxAddr ==> Valid()
      ensures r == 0 ==>
        && heap.mem.Brk() == FirstBp(heap.mem) + CHUNKSIZE
        && blocks == [Blk(FirstBp(heap.mem), CHUNKSIZE, false)] && free == [FirstBp(heap.mem)]
      ensures heap.fault == old(heap.fault)
    {
      var p := heap.Sbrk(6 * WSIZE);
      heapListp := p;
      if p == -1 {
        return -1;
      }
      r := Setup(p);
    }

    /** The rest of mm_init once the six words are there: lay them out, then extend the heap by CHUNKSIZE bytes. */
    method Setup(p: int) returns (r: int)
      requires heap.Valid() && !heap.fault && heapListp == p == heap.mem.lo && heap.mem.Brk() == p + 6 * WSIZE
      modifies this, heap
      ensures Valid() && heap.fault == old(heap.fault)
      ensures r == 0 || r == -1
      ensures r == 0 <==> p + 6 * WSIZE + CHUNKSIZE <= heap.maxAddr
      ensures r == 0 ==>
        && heap.mem.Brk() == FirstBp(heap.mem) + CHUNKSIZE
        && blocks == [Blk(FirstBp(heap.mem), CHUNKSIZE, false)] && free == [FirstBp(heap.mem)]
    {
      LayPrologue(p);
      EvenWords(CHUNKSIZE);
      var bp, k := ExtendHeap(CHUNKSIZE / WSIZE);
      if bp == NULL {
        return -1;
      }
      FirstChunk(FirstBp(heap.mem), CHUNKSIZE);
      r := 0;
    }

    /** mm_init's six stores and explicit_listp = heap_listp + DSIZE: a heap with no block, headed by the prologue. */
    method LayPrologue(p: int)
      requires heap.Valid() && !heap.fault && heapListp == p == heap.mem.lo && heap.mem.Brk() == p + 6 * WSIZE
      modifies this, heap
      ensures Valid() && blocks == [] && free == [] && explicitListp == Prologue(heap.mem)
      ensures heapListp == old(heapListp) && heap.fault == old(heap.fault)
      ensures heap.mem.lo == old(heap.mem.lo) && heap.mem.Brk() == old(heap.mem.Brk())
    {
      InitShape(heap.mem);
      WritePrologue(heap, p);
      explicitListp := p + DSIZE;
      blocks, free := [], [];
    }

    /** insert_in_head: a free block that is off the list becomes its head. */
    method InsertInHead(bp: int, ghost bs: seq<Blk>, ghost fl: seq<int>)
      requires Shape(heap.mem, LINKS, explicitListp, bs, fl) && IsFreeBp(bs, bp) && bp !in fl
      modifies this, heap
      ensures Shape(heap.mem, LINKS, bp, bs, [bp] + fl) && explicitListp == bp
      ensures LiveKept(old(heap.mem), heap.mem, bs) && heap.mem.Brk() == old(heap.mem.Brk())
      ensures heap.fault == old(heap.fault)
      ensures heapListp == old(heapListp) && blocks == old(blocks) && free == old(free)
    {
      InsertOk(heap.mem, explicitListp, bs, fl, bp);
      heap.Store(bp + WSIZE, Trunc(explicitListp));
      heap.Store(bp, Trunc(NULL));
      heap.Store(explicitListp, Trunc(bp));
      explicitListp := bp;
    }

    /** remove_block: a listed block leaves the list. */
    method RemoveBlock(bp: int, ghost bs: seq<Blk>, ghost fl: seq<int>)
      requires Shape(heap.mem, LINKS, explicitListp, bs, fl) && bp in fl
      modifies this, heap
      ensures Shape(heap.mem, LINKS, explicitListp, bs, Without(fl, bp))
      ensures LiveKept(old(heap.mem), heap.mem, bs) && heap.mem.Brk() == old(heap.mem.Brk())
      ensures heap.fault == old(heap.fault)
      ensures heapListp == old(heapListp) && blocks == old(blocks) && free == old(free)
    {
      ghost var m0, h0 := heap.mem, explicitListp;
      if bp == explicitListp {
        RemoveHead(bp);
      } else {
        RemoveInner(bp);
      }
      RemoveOk(m0, h0, bs, fl, bp);
    }

    /** remove_block's first branch: bp is the head. */
    method RemoveHead(bp: int)
      modifies this, heap
      ensures heap.mem == RemoveHeadRun(old(heap.mem), bp).mem && explicitListp == RemoveHeadRun(old(heap.mem), bp).head
      ensures heap.fault == (old(heap.fault) || !RemoveHeadRun(old(heap.mem), bp).ok)
      ensures heapListp == old(heapListp) && blocks == old(blocks) && free == old(free)
    {
      var s := heap.Load(bp + WSIZE);
      heap.Store(s as int, Trunc(NULL));
      var s2 := heap.Load(bp + WSIZE);
      explicitListp := s2 as int;
    }

    /** remove_block's second branch: bp's predecessor is a block. */
    method RemoveInner(bp: int)
      modifies heap
      ensures heap.mem == RemoveInnerRun(old(heap.mem), explicitListp, bp).mem
      ensures heap.fault == (old(heap.fault) || !RemoveInnerRun(old(heap.mem), explicitListp, bp).ok)
    {
      var p := heap.Load(bp);
      var s := heap.Load(bp + WSIZE);
      heap.Store(p as int + WSIZE, s);
      var s2 := heap.Load(bp + WSIZE);
      var p2 := heap.Load(bp);
      heap.Store(s2 as int, p2);
    }

    /**
     * mm_malloc(size): NULL for a zero request; otherwise the first listed
     * block that fits the adjusted size, or else a block carved from a heap
     * extension of max(asize, CHUNKSIZE) bytes, NULL (with nothing changed)
     * when that extension is refused. The block returned is allocated, was
     * not allocated before and has room for size payload bytes; every block
     * allocated before stays allocated with its contents.
     */
    method Malloc(size: nat) returns (bp: int, ghost k: int)
      requires Valid()
      modifies this, heap
      ensures Valid() && heapListp == old(heapListp)
      ensures LiveKept(old(heap.mem), heap.mem, old(blocks))
      ensures AllocIn(old(blocks), blocks)
      ensures size == 0 ==> bp == NULL
      ensures bp == NULL ==> heap.mem == old(heap.mem) && blocks == old(blocks) && free == old(free)
      ensures size > 0 ==>
        var asize := AdjustedSize(size); var i := FitIndex(old(heap.mem), old(free), asize);
        && (i < |old(free)| ==> bp == old(free)[i] && heap.mem.Brk() == old(heap.mem.Brk()))
        && (i == |old(free)| ==> (bp == NULL <==> old(heap.mem.Brk()) + Max(asize, CHUNKSIZE) > heap.maxAddr))
      ensures size > 0 && FitIndex(old(heap.mem), old(free), AdjustedSize(size)) < |old(free)| ==>
        var asize := AdjustedSize(size);
        && 0 <= k < |old(blocks)| && old(blocks)[k].bp == bp
        && blocks == PlaceSpec(old(blocks), k, asize) && free == PlaceList(old(blocks), k, asize, old(free))
      ensures size > 0 && FitIndex(old(heap.mem), old(free), AdjustedSize(size)) == |old(free)| && bp != NULL ==>
        var asize := AdjustedSize(size); var n := |old(blocks)|;
        var es := ExtendSpec(old(blocks), old(heap.mem.Brk()), Max(asize, CHUNKSIZE));
        var cs, cl := CoalesceSpec(es, n), CoalesceList(es, n, old(free));
        && 0 <= k < |cs| && cs[k].bp == bp
        && blocks == PlaceSpec(cs, k, asize) && free == PlaceList(cs, k, asize, cl)
      ensures bp != NULL ==>
        && 0 <= k < |blocks| && blocks[k].bp == bp && blocks[k].alloc && size + DSIZE <= blocks[k].size
        && NoAllocAt(old(blocks), bp)
    {
      k := -1;
      if size == 0 {
        return NULL, k;
      }
      var asize := AdjustedSize(size);
      bp, k := Allocate(asize);
    }

    /** mm_malloc once the size is adjusted: the first fit if there is one, else a block from a heap extension. */
    method Allocate(asize: int) returns (bp: int, ghost k: int)
      requires Valid() && asize % DSIZE == 0 && MIN_BLOCK <= asize
      modifies this, heap
      ensures Valid() && heapListp == old(heapListp)
      ensures LiveKept(old(heap.mem), heap.mem, old(blocks))
      ensures AllocIn(old(blocks), blocks)
      ensures bp == NULL ==> heap.mem == old(heap.mem) && blocks == old(blocks) && free == old(free)
      ensures var i := FitIndex(old(heap.mem), old(free), asize);
        && (i < |old(free)| ==> bp == old(free)[i] && heap.mem.Brk() == old(heap.mem.Brk()))
        && (i == |old(free)| ==> (bp == NULL <==> old(heap.mem.Brk()) + Max(asize, CHUNKSIZE) > heap.maxAddr))
      ensures FitIndex(old(heap.mem), old(free), asize) < |old(free)| ==>
        && 0 <= k < |old(blocks)| && old(blocks)[k].bp == bp
        && blocks == PlaceSpec(old(blocks), k, asize) && free == PlaceList(old(blocks), k, asize, old(free))
      ensures FitIndex(old(heap.mem), old(free), asize) == |old(free)| && bp != NULL ==>
        var n := |old(blocks)|; var es := ExtendSpec(old(blocks), old(heap.mem.Brk()), Max(asize, CHUNKSIZE));
        var cs, cl := CoalesceSpec(es, n), CoalesceList(es, n, old(free));
        && 0 <= k < |cs| && cs[k].bp == bp
        && blocks == PlaceSpec(cs, k, asize) && free == PlaceList(cs, k, asize, cl)
      ensures bp != NULL ==>
        && 0 <= k < |blocks| && blocks[k].bp == bp && blocks[k].alloc && asize <= blocks[k].size
        && NoAllocAt(old(blocks), bp)
    {
      bp := FindFit(asize);
      if bp != NULL {
        k := AllocateFit(bp, asize);
        return;
      }
      bp, k := AllocateFresh(asize);
    }

    /** mm_malloc's first branch: place in the block find_fit returned. */
    method AllocateFit(bp: int, asize: int) returns (ghost k: int)
      requires Valid() && asize % DSIZE == 0 && MIN_BLOCK <= asize
      requires FitIndex(heap.mem, free, asize) < |free| && bp == free[FitIndex(heap.mem, free, asize)]
      modifies this, heap
      ensures Valid() && heapListp == old(heapListp) && heap.mem.Brk() == old(heap.mem.Brk())
      ensures LiveKept(old(heap.mem), heap.mem, old(blocks))
      ensures 0 <= k < |old(blocks)| && old(blocks)[k].bp == bp
      ensures blocks == PlaceSpec(old(blocks), k, asize) && free == PlaceList(old(blocks), k, asize, old(free))
      ensures 0 <= k < |blocks| && blocks[k].bp == bp && blocks[k].alloc && asize <= blocks[k].size
      ensures AllocIn(old(blocks), blocks) && NoAllocAt(old(blocks), bp)
    {
      k := FitBlock(heap.mem, LINKS, explicitListp, blocks, free, asize);
      PlaceAt(bp, asize, k);
    }

    /** mm_malloc when no listed block fits: extend the heap by max(asize, CHUNKSIZE) bytes and place in the new block. */
    method AllocateFresh(asize: int) returns (bp: int, ghost k: int)
      requires Valid() && asize % DSIZE == 0 && MIN_BLOCK <= asize
      modifies this, heap
      ensures Valid() && heapListp == old(heapListp)
      ensures LiveKept(old(heap.mem), heap.mem, old(blocks))
      ensures AllocIn(old(blocks), blocks)
      ensures bp == NULL <==> old(heap.mem.Brk()) + Max(asize, CHUNKSIZE) > heap.maxAddr
      ensures bp == NULL ==> heap.mem == old(heap.mem) && blocks == old(blocks) && free == old(free)
      ensures bp != NULL ==>
        && 0 <= k < |blocks| && blocks[k].bp == bp && blocks[k].alloc && asize <= blocks[k].size
        && NoAllocAt(old(blocks), bp)
      ensures bp != NULL ==>
        var n := |old(blocks)|; var es := ExtendSpec(old(blocks), old(heap.mem.Brk()), Max(asize, CHUNKSIZE));
        var cs, cl := CoalesceSpec(es, n), CoalesceList(es, n, old(free));
        && 0 <= k < |cs| && cs[k].bp == bp
        && blocks == PlaceSpec(cs, k, asize) && free == PlaceList(cs, k, asize, cl)
    {
      var extendsize := Max(asize, CHUNKSIZE);
      ghost var bs, m0 := blocks, heap.mem;
      EvenWords(extendsize);
      bp, k := ExtendHeap(extendsize / WSIZE);
      if bp == NULL {
        return;
      }
      ghost var cs, m1 := blocks, heap.mem;
      ExtendKeepsAllocated(m0, bs, ExtendBytes(extendsize / WSIZE));
      PlaceAt(bp, asize, k);
      LiveBlocksStay(bs, cs, blocks, bp);
      LiveKeptSub(m1, heap.mem, bs, cs);
      LiveKeptTrans(m0, m1, heap.mem, bs);
    }

    /** place on the free block blocks[k], with the ghost state following it. */
    method PlaceAt(bp: int, asize: int, ghost k: int)
      requires Valid() && 0 <= k < |blocks| && blocks[k].bp == bp && !blocks[k].alloc
      requires asize % DSIZE == 0 && MIN_BLOCK <= asize <= blocks[k].size
      modifies this, heap
      ensures Valid() && heapListp == old(heapListp) && heap.mem.Brk() == old(heap.mem.Brk())
      ensures blocks == PlaceSpec(old(blocks), k, asize) && free == PlaceList(old(blocks), k, asize, old(free))
      ensures LiveKept(old(heap.mem), heap.mem, old(blocks))
      ensures k < |blocks| && blocks[k].bp == bp && blocks[k].alloc && asize <= blocks[k].size
      ensures AllocIn(old(blocks), blocks) && NoAllocAt(old(blocks), bp)
    {
      ghost var bs, fl := blocks, free;
      Placed(heap.mem, bs, k, asize);
      Place(bp, asize, bs, fl, k);
      blocks, free := PlaceSpec(bs, k, asize), PlaceList(bs, k, asize, fl);
    }

    /**
     * find_fit(asize): walk the list from its head along the successor links
     * until a header reads as allocated (the prologue ends the list) and
     * return the first block whose header size is at least asize, or NULL.
     * Every load stays inside the heap.
     */
    method FindFit(asize: int) returns (bp: int)
      requires Valid()
      modifies heap
      ensures heap.mem == old(heap.mem) && heap.fault == old(heap.fault)
      ensures var i := FitIndex(heap.mem, free, asize); bp == if i < |free| then free[i] else NULL
      ensures bp == NULL <==> FitIndex(heap.mem, free, asize) == |free|
    {
      ghost var m := heap.mem;
      ghost var i := 0;
      bp := explicitListp;
      WalkStep(m, LINKS, explicitListp, blocks, free, 0);
      var h := heap.Load(Hdrp(bp));
      while GetAlloc(h) != 1
        invariant heap.mem == m && !heap.fault
        invariant 0 <= i <= |free| && bp == if i < |free| then free[i] else Prologue(m)
        invariant bp != NULL
        invariant h == m.Get(Hdrp(bp)) && (GetAlloc(h) != 1 <==> i < |free|)
        invariant i < |free| ==> m.InRange(Hdrp(bp)) && m.InRange(bp + WSIZE)
        invariant i < |free| ==> m.Get(bp + WSIZE) as int == Next(free, i, Prologue(m))
        invariant forall j :: 0 <= j < i ==> GetSize(m.Get(Hdrp(free[j]))) as int < asize
        decreases |free| - i
      {
        var w := heap.Load(Hdrp(bp));
        if GetSize(w) as int >= asize {
          FitIndexAt(m, free, asize, i);
          return;
        }
        var s := heap.Load(bp + WSIZE);
        bp := s as int;
        i := i + 1;
        WalkStep(m, LINKS, explicitListp, blocks, free, i);
        h := heap.Load(Hdrp(bp));
      }
      FitIndexAt(m, free, asize, i);
      bp := NULL;
    }

    /**
     * extend_heap(words): grow the heap by words rounded up to an even count,
     * make the old epilogue the header of a free block of that size, write
     * its footer and a new epilogue, and coalesce the block with a free last
     * block. NULL, with nothing changed, when the break cannot move. The
     * block returned is free and at least as large as the extension.
     */
    method ExtendHeap(words: nat) returns (bp: int, ghost k: int)
      requires Valid() && MIN_BLOCK <= WSIZE * words
      modifies this, heap
      ensures Valid() && heapListp == old(heapListp)
      ensures bp == NULL <==> old(heap.mem.Brk()) + ExtendBytes(words) > heap.maxAddr
      ensures bp == NULL ==> heap.mem == old(heap.mem) && blocks == old(blocks) && free == old(free)
      ensures bp != NULL ==>
        var es := ExtendSpec(old(blocks), old(heap.mem.Brk()), ExtendBytes(words));
        && heap.mem.Brk() == old(heap.mem.Brk()) + ExtendBytes(words)
        && blocks == CoalesceSpec(es, |old(blocks)|) && free == CoalesceList(es, |old(blocks)|, old(free))
        && 0 <= k < |blocks| && blocks[k].bp == bp && !blocks[k].alloc && ExtendBytes(words) <= blocks[k].size
      ensures LiveKept(old(heap.mem), heap.mem, old(blocks))
    {
      k := -1;
      var size := ExtendBytes(words);
      ghost var bs, fl, m0 := blocks, free, heap.mem;
      var p := heap.Sbrk(size);
      if p == -1 {
        LiveKeptRefl(heap.mem, bs);
        return NULL, k;
      }
      bp, k := AddChunk(p, size, m0, bs, fl);
    }

    /** extend_heap once mem_sbrk has grown the heap by size bytes from bp: the new block, coalesced. */
    method AddChunk(p: int, size: int, ghost m0: Mem, ghost bs: seq<Blk>, ghost fl: seq<int>) returns (bp: int, ghost k: int)
      requires heap.Valid() && !heap.fault && heapListp == m0.lo && Good(m0, explicitListp, bs, fl)
      requires size % DSIZE == 0 && MIN_BLOCK <= size
      requires p == m0.Brk() && heap.mem == m0.Grow(size / WSIZE)
      modifies this, heap
      ensures Valid() && heapListp == old(heapListp) && heap.mem.Brk() == old(heap.mem.Brk())
      ensures var es := ExtendSpec(bs, p, size);
        && blocks == CoalesceSpec(es, |bs|) && free == CoalesceList(es, |bs|, fl)
        && 0 <= k < |blocks| && blocks[k].bp == bp && !blocks[k].alloc && size <= blocks[k].size && bp != NULL
      ensures LiveKept(m0, heap.mem, bs)
    {
      ghost var es := ExtendSpec(bs, p, size);
      WriteFreeChunk(p, size, m0, bs, fl);
      ghost var m1 := heap.mem;
      ExtendMerged(m1, es, |bs|);
      k := MergeLo(es, |bs|);
      bp := Coalesce(p, es, fl, |bs|);
      blocks, free := CoalesceSpec(es, |bs|), CoalesceList(es, |bs|, fl);
      ExtendLiveKept(m0, m1, heap.mem, bs, p, size);
    }

    /** extend_heap's stores once mem_sbrk has grown the heap by size bytes from bp: the state coalesce then settles. */
    method WriteFreeChunk(bp: int, size: int, ghost m0: Mem, ghost bs: seq<Blk>, ghost fl: seq<int>)
      requires Good(m0, explicitListp, bs, fl) && size % DSIZE == 0 && MIN_BLOCK <= size
      requires bp == m0.Brk() && heap.mem == m0.Grow(size / WSIZE) && heap.mem.Brk() <= WORD_LIMIT
      modifies heap
      ensures Pending(heap.mem, explicitListp, ExtendSpec(bs, bp, size), fl, |bs|)
      ensures LiveKept(m0, heap.mem, bs) && heap.mem.Brk() == old(heap.mem.Brk())
      ensures heap.fault == old(heap.fault)
    {
      ExtendOk(m0, heap.mem, explicitListp, bs, fl, size);
      WriteChunk(heap, bp, size);
    }

    /**
     * coalesce(bp) on a free block bs[k] that is off the list, the only block
     * that may be and the only one that may have a free neighbour: the
     * blocks become CoalesceSpec(bs, k), the list CoalesceList(bs, k, fl)
     * with the merged block in front, every allocated block keeps its
     * bytes, and the merged block's payload address is returned.
     */
    method Coalesce(bp: int, ghost bs: seq<Blk>, ghost fl: seq<int>, ghost k: int) returns (r: int)
      requires Pending(heap.mem, explicitListp, bs, fl, k) && bp == bs[k].bp
      modifies this, heap
      ensures Good(heap.mem, explicitListp, CoalesceSpec(bs, k), CoalesceList(bs, k, fl))
      ensures r == bs[MergeLo(bs, k)].bp && explicitListp == r
      ensures LiveKept(old(heap.mem), heap.mem, bs) && heap.mem.Brk() == old(heap.mem.Brk())
      ensures heap.mem.lo == old(heap.mem.lo)
      ensures heap.fault == old(heap.fault)
      ensures heapListp == old(heapListp) && blocks == old(blocks) && free == old(free)
    {
      ghost var m0 := heap.mem;
      ghost var lo, hi := MergeLo(bs, k), MergeHi(bs, k);
      ghost var cs, cl := CoalesceSpec(bs, k), CoalesceList(bs, k, fl);
      CoalesceKeepsShape(bs, FirstBp(m0), m0.Brk(), k, fl);
      CoalesceCovers(bs, FirstBp(m0), m0.Brk(), k);
      CoalesceRestMembers(bs, k, fl);
      var prevAlloc, nextAlloc, size := ReadNeighbours(heap, bp, bs, k);
      r := bp;
      ghost var f1: seq<int>;
      if prevAlloc != 0 && nextAlloc != 0 {
        CoalesceAlone(bs, k, fl);
        InsertInHead(r, bs, fl);
        LiveKeptTrans(m0, m0, heap.mem, bs);
        return;
      } else if prevAlloc != 0 {
        f1 := MergeNext(r, size, bs, fl, k);
      } else if nextAlloc != 0 {
        r, f1 := MergePrev(r, size, bs, fl, k);
      } else {
        r, f1 := MergeBoth(r, size, bs, fl, k);
      }
      ghost var m1 := heap.mem;
      InsertInHead(r, cs, f1);
      LiveKeptSub(m1, heap.mem, bs, cs);
      LiveKeptTrans(m0, m1, heap.mem, bs);
    }

    /**
     * coalesce's case 2: unlink the free next block, add its size and
     * rewrite bp's tags; what remains of the list is returned for the push.
     */
    method MergeNext(bp: int, size: u32, ghost bs: seq<Blk>, ghost fl: seq<int>, ghost k: int) returns (ghost f1: seq<int>)
      requires Pending(heap.mem, explicitListp, bs, fl, k) && bp == bs[k].bp && size as int == bs[k].size
      requires MergeLo(bs, k) == k && MergeHi(bs, k) == k + 2
      modifies this, heap
      ensures f1 == CoalesceRest(bs, k, fl)
      ensures Shape(heap.mem, LINKS, explicitListp, CoalesceSpec(bs, k), f1)
      ensures LiveKept(old(heap.mem), heap.mem, bs) && heap.mem.Brk() == old(heap.mem.Brk())
      ensures heap.fault == old(heap.fault)
      ensures heapListp == old(heapListp) && blocks == old(blocks) && free == old(free)
    {
      ghost var m0, h0 := heap.mem, explicitListp;
      CoalesceProbe(m0, bs, k, bp);
      MergeListed(m0, h0, bs, fl, k);
      var next := NextBlk(heap, bp);
      RemoveBlock(next, bs, fl);
      f1 := CoalesceRest(bs, k, fl);
      ghost var m1 := heap.mem;
      JoinNext(heap, bp, size, bs, k);
      MergeTagsShape(m0, m1, heap.mem, LINKS, explicitListp, bs, fl, k);
    }

    /**
     * coalesce's case 3: unlink the free previous block, add its size, step
     * bp back to it and rewrite its tags.
     */
    method MergePrev(bp: int, size: u32, ghost bs: seq<Blk>, ghost fl: seq<int>, ghost k: int) returns (r: int, ghost f1: seq<int>)
      requires Pending(heap.mem, explicitListp, bs, fl, k) && bp == bs[k].bp && size as int == bs[k].size
      requires MergeLo(bs, k) == k - 1 && MergeHi(bs, k) == k + 1
      modifies this, heap
      ensures r == bs[k - 1].bp && f1 == CoalesceRest(bs, k, fl)
      ensures Shape(heap.mem, LINKS, explicitListp, CoalesceSpec(bs, k), f1)
      ensures LiveKept(old(heap.mem), heap.mem, bs) && heap.mem.Brk() == old(heap.mem.Brk())
      ensures heap.fault == old(heap.fault)
      ensures heapListp == old(heapListp) && blocks == old(blocks) && free == old(free)
    {
      ghost var m0, h0 := heap.mem, explicitListp;
      CoalesceProbe(m0, bs, k, bp);
      MergeListed(m0, h0, bs, fl, k);
      var prev := PrevBlk(heap, bp);
      RemoveBlock(prev, bs, fl);
      f1 := CoalesceRest(bs, k, fl);
      ghost var m1 := heap.mem;
      r := JoinPrev(heap, bp, size, bs, k);
      MergeTagsShape(m0, m1, heap.mem, LINKS, explicitListp, bs, fl, k);
    }

    /**
     * coalesce's case 4: unlink both free neighbours, add their sizes, and
     * write the merged size into the previous block's header and the next
     * block's footer; bp steps back to the previous block.
     */
    method MergeBoth(bp: int, size: u32, ghost bs: seq<Blk>, ghost fl: seq<int>, ghost k: int) returns (r: int, ghost f1: seq<int>)
      requires Pending(heap.mem, explicitListp, bs, fl, k) && bp == bs[k].bp && size as int == bs[k].size
      requires MergeLo(bs, k) == k - 1 && MergeHi(bs, k) == k + 2
      modifies this, heap
      ensures r == bs[k - 1].bp && f1 == CoalesceRest(bs, k, fl)
      ensures Shape(heap.mem, LINKS, explicitListp, CoalesceSpec(bs, k), f1)
      ensures LiveKept(old(heap.mem), heap.mem, bs) && heap.mem.Brk() == old(heap.mem.Brk())
      ensures heap.fault == old(heap.fault)
      ensures heapListp == old(heapListp) && blocks == old(blocks) && free == old(free)
    {
      ghost var m0, h0 := heap.mem, explicitListp;
      f1 := UnlinkBoth(bp, bs, fl, k);
      ghost var m1 := heap.mem;
      r := JoinBoth(heap, bp, size, bs, k);
      MergeTagsShape(m0, m1, heap.mem, LINKS, explicitListp, bs, fl, k);
    }

    /** Case 4's two remove_block calls: the previous free neighbour first, then the next. */
    method UnlinkBoth(bp: int, ghost bs: seq<Blk>, ghost fl: seq<int>, ghost k: int) returns (ghost f1: seq<int>)
      requires Pending(heap.mem, explicitListp, bs, fl, k) && bp == bs[k].bp
      requires MergeLo(bs, k) == k - 1 && MergeHi(bs, k) == k + 2
      modifies this, heap
      ensures f1 == CoalesceRest(bs, k, fl)
      ensures Shape(heap.mem, LINKS, explicitListp, bs, f1)
      ensures LiveKept(old(heap.mem), heap.mem, bs) && heap.mem.Brk() == old(heap.mem.Brk())
      ensures heap.fault == old(heap.fault)
      ensures heapListp == old(heapListp) && blocks == old(blocks) && free == old(free)
    {
      ghost var m0 := heap.mem;
      CoalesceProbe(m0, bs, k, bp);
      MergeListed(m0, explicitListp, bs, fl, k);
      var prev := PrevBlk(heap, bp);
      RemoveBlock(prev, bs, fl);
      ghost var ma := heap.mem;
      CoalesceProbe(ma, bs, k, bp);
      var next := NextBlk(heap, bp);
      RemoveBlock(next, bs, Without(fl, bs[k - 1].bp));
      f1 := CoalesceRest(bs, k, fl);
      LiveKeptTrans(m0, ma, heap.mem, bs);
    }

    /**
     * mm_free: clear the allocated bit in the block's header and footer,
     * then coalesce it with its free neighbours. The block is no longer
     * allocated afterwards, every other allocated block keeps its place and
     * its bytes, and the merged free block heads the list.
     */
    method Free(bp: int, ghost k: int)
      requires Valid() && 0 <= k < |blocks| && blocks[k].bp == bp && blocks[k].alloc
      modifies this, heap
      ensures Valid() && heapListp == old(heapListp)
      ensures blocks == CoalesceSpec(FreeSpec(old(blocks), k), k)
      ensures free == CoalesceList(FreeSpec(old(blocks), k), k, old(free))
      ensures LiveKept(old(heap.mem), heap.mem, FreeSpec(old(blocks), k)) && heap.mem.Brk() == old(heap.mem.Brk())
      ensures NoAllocAt(blocks, bp)
      ensures AllocKept(old(blocks), k, blocks)
    {
      ghost var bs, m0 := blocks, heap.mem;
      Release(bp, k);
      FreeKeeps(m0, bs, k);
    }

    /** mm_free's stores and its call to coalesce. */
    method Release(bp: int, ghost k: int)
      requires Valid() && 0 <= k < |blocks| && blocks[k].bp == bp && blocks[k].alloc
      modifies this, heap
      ensures Valid() && heapListp == old(heapListp)
      ensures blocks == CoalesceSpec(FreeSpec(old(blocks), k), k)
      ensures free == CoalesceList(FreeSpec(old(blocks), k), k, old(free))
      ensures LiveKept(old(heap.mem), heap.mem, FreeSpec(old(blocks), k)) && heap.mem.Brk() == old(heap.mem.Brk())
    {
      ghost var bs, fl, m0 := blocks, free, heap.mem;
      MarkFree(bp, bs, fl, k);
      ghost var m1 := heap.mem;
      Settle(bp, FreeSpec(bs, k), fl, k);
      LiveKeptTrans(m0, m1, heap.mem, FreeSpec(bs, k));
    }

    /** The coalesce call that ends mm_free, and the ghost state it leaves. */
    method Settle(bp: int, ghost bs: seq<Blk>, ghost fl: seq<int>, ghost k: int)
      requires heap.Valid() && !heap.fault && heapListp == heap.mem.lo
      requires Pending(heap.mem, explicitListp, bs, fl, k) && bp == bs[k].bp
      modifies this, heap
      ensures Valid() && heapListp == old(heapListp)
      ensures blocks == CoalesceSpec(bs, k) && free == CoalesceList(bs, k, fl)
      ensures LiveKept(old(heap.mem), heap.mem, bs) && heap.mem.Brk() == old(heap.mem.Brk())
    {
      var _ := Coalesce(bp, bs, fl, k);
      blocks, free := CoalesceSpec(bs, k), CoalesceList(bs, k, fl);
    }

    /**
     * mm_realloc: a zero size frees the block and returns NULL. Otherwise
     * a new block is allocated (NULL, with nothing changed, when that
     * fails), min(size, header word - DSIZE) bytes are copied from the old
     * payload, and the old block is freed. The header word of an allocated
     * block is its size plus the allocated bit, so the copy takes up to one
     * byte past the old payload (the first byte of its footer); the new
     * block always has room for it.
     */
    method Realloc(bp: int, size: nat, ghost k: int) returns (r: int, ghost j: int)
      requires Valid() && 0 <= k < |blocks| && blocks[k].bp == bp && blocks[k].alloc
      modifies this, heap
      ensures Valid() && heapListp == old(heapListp)
      ensures LiveKept(old(heap.mem), heap.mem, FreeSpec(old(blocks), k))
      ensures size == 0 ==>
        && r == NULL
        && blocks == CoalesceSpec(FreeSpec(old(blocks), k), k)
        && free == CoalesceList(FreeSpec(old(blocks), k), k, old(free))
      ensures size > 0 && r == NULL ==> heap.mem == old(heap.mem) && blocks == old(blocks) && free == old(free)
      ensures r != NULL ==>
        && 0 <= j < |blocks| && blocks[j].bp == r && blocks[j].alloc && size + DSIZE <= blocks[j].size
        && NoAllocAt(old(blocks), r)
        && NoAllocAt(blocks, bp)
        && AllocKept(old(blocks), k, blocks)
        && SameBytes(old(heap.mem), bp, heap.mem, r, Min(size, old(blocks)[k].size - DSIZE + 1))
    {
      j := -1;
      if size == 0 {
        Free(bp, k);
        return NULL, j;
      }
      r, j := Resize(bp, size, k);
    }

    /** mm_realloc with a non-zero size: mm_malloc a new block; when one is returned, copy the payload over and free the old block. */
    method Resize(bp: int, size: nat, ghost k: int) returns (r: int, ghost j: int)
      requires Valid() && 0 <= k < |blocks| && blocks[k].bp == bp && blocks[k].alloc && size > 0
      modifies this, heap
      ensures Valid() && heapListp == old(heapListp)
      ensures LiveKept(old(heap.mem), heap.mem, FreeSpec(old(blocks), k))
      ensures r == NULL ==> heap.mem == old(heap.mem) && blocks == old(blocks) && free == old(free)
      ensures r != NULL ==>
        && 0 <= j < |blocks| && blocks[j].bp == r && blocks[j].alloc && size + DSIZE <= blocks[j].size
        && NoAllocAt(old(blocks), r)
        && NoAllocAt(blocks, bp)
        && AllocKept(old(blocks), k, blocks)
        && SameBytes(old(heap.mem), bp, heap.mem, r, Min(size, old(blocks)[k].size - DSIZE + 1))
    {
      ghost var bs0, m0 := blocks, heap.mem;
      r, j := MallocNew(size);
      if r == NULL {
        LiveKeptRefl(heap.mem, FreeSpec(bs0, k));
        return;
      }
      j := Move(bp, r, size, bs0, m0, k, j);
    }

    /** realloc's mm_malloc(size): a new allocated block that no allocated block was at, or NULL and nothing changed. */
    method MallocNew(size: nat) returns (bp: int, ghost k: int)
      requires Valid() && size > 0
      modifies this, heap
      ensures Valid() && heapListp == old(heapListp)
      ensures LiveKept(old(heap.mem), heap.mem, old(blocks)) && AllocIn(old(blocks), blocks)
      ensures bp == NULL ==> heap.mem == old(heap.mem) && blocks == old(blocks) && free == old(free)
      ensures bp != NULL ==>
        && 0 <= k < |blocks| && blocks[k].bp == bp && blocks[k].alloc && size + DSIZE <= blocks[k].size
        && NoAllocAt(old(blocks), bp)
    {
      bp, k := Malloc(size);
    }

    /** mm_realloc once mm_malloc returned the block r: copy the old payload over, then free the old block. */
    method Move(bp: int, r: int, size: nat, ghost bs0: seq<Blk>, ghost m0: Mem, ghost k: int, ghost j: int) returns (ghost j': int)
      requires Valid() && Heap(m0, bs0) && 0 <= k < |bs0| && bs0[k].bp == bp && bs0[k].alloc
      requires AllocIn(bs0, blocks) && NoAllocAt(bs0, r)
      requires LiveKept(m0, heap.mem, bs0)
      requires 0 <= j < |blocks| && blocks[j].bp == r && blocks[j].alloc && size + DSIZE <= blocks[j].size
      modifies this, heap
      ensures Valid() && heapListp == old(heapListp)
      ensures LiveKept(m0, heap.mem, FreeSpec(bs0, k))
      ensures 0 <= j' < |blocks| && blocks[j'].bp == r && blocks[j'].alloc && size + DSIZE <= blocks[j'].size
      ensures NoAllocAt(blocks, bp)
      ensures AllocKept(bs0, k, blocks)
      ensures SameBytes(m0, bp, heap.mem, r, Min(size, bs0[k].size - DSIZE + 1))
    {
      ghost var bs1, m1 := blocks, heap.mem;
      assert Heap(m1, bs1);
      assert bs0[k] in bs1;
      ghost var k1 :| 0 <= k1 < |bs1| && bs1[k1] == bs0[k];
      assert j != k1;
      var n := CopyOver(bp, r, size, k1, j);
      assert n == Min(size, bs0[k].size - DSIZE + 1);
      ghost var m2 := heap.mem;
      FreeOld(bp, bs1, k1);
      j' := MoveDone(m0, m1, m2, heap.mem, bs0, k, bs1, j, k1, n, blocks);
    }

    /** mm_realloc's mm_free(old_bp): only blocks[k] stops being allocated. */
    method FreeOld(bp: int, ghost bs: seq<Blk>, ghost k: int)
      requires Valid() && bs == blocks && 0 <= k < |bs| && bs[k].bp == bp && bs[k].alloc
      modifies this, heap
      ensures Valid() && heapListp == old(heapListp)
      ensures LiveKept(old(heap.mem), heap.mem, FreeSpec(bs, k))
      ensures NoAllocAt(blocks, bp)
      ensures AllocKept(bs, k, blocks)
    {
      Free(bp, k);
    }

    /** mm_realloc's memcpy from the old block blocks[k] into the new block blocks[j]. */
    method CopyOver(bp: int, r: int, size: nat, ghost k: int, ghost j: int) returns (n: int)
      requires Valid() && 0 <= k < |blocks| && blocks[k].bp == bp && blocks[k].alloc
      requires 0 <= j < |blocks| && j != k && blocks[j].bp == r && blocks[j].alloc && size + DSIZE <= blocks[j].size
      modifies heap
      ensures Valid() && heap.fault == old(heap.fault)
      ensures n == Min(size, blocks[k].size - DSIZE + 1) && heap.mem == old(heap.mem).Copied(r, bp, n)
      ensures LiveKept(old(heap.mem), heap.mem, FreeSpec(blocks, j))
    {
      ghost var m1 := heap.mem;
      n := CopyPayload(heap, bp, r, size, blocks, k, j);
      PayloadShape(m1, heap.mem, LINKS, explicitListp, blocks, free, j);
    }

    /** mm_free's header load and two tag stores: bs[k] reads as free, and coalesce has it to settle. */
    method MarkFree(bp: int, ghost bs: seq<Blk>, ghost fl: seq<int>, ghost k: int)
      requires Good(heap.mem, explicitListp, bs, fl) && 0 <= k < |bs| && bs[k].bp == bp && bs[k].alloc
      modifies heap
      ensures Pending(heap.mem, explicitListp, FreeSpec(bs, k), fl, k)
      ensures LiveKept(old(heap.mem), heap.mem, FreeSpec(bs, k)) && heap.mem.Brk() == old(heap.mem.Brk())
      ensures heap.mem.lo == old(heap.mem.lo) && heap.fault == old(heap.fault)
    {
      FreeOk(heap.mem, explicitListp, bs, fl, k);
      ClearTags(heap, bp);
    }

    /**
     * place(bp, asize) on the free listed block bs[k]: unlink it; when at
     * least a minimum block would be left over, allocate its first asize
     * bytes and push the rest on the list as a free block, otherwise
     * allocate it whole. The blocks become PlaceSpec(bs, k, asize) and the
     * list PlaceList(bs, k, asize, fl), and no allocated block changes.
     */
    method Place(bp: int, asize: int, ghost bs: seq<Blk>, ghost fl: seq<int>, ghost k: int)
      requires Good(heap.mem, explicitListp, bs, fl) && 0 <= k < |bs| && bs[k].bp == bp && !bs[k].alloc
      requires asize % DSIZE == 0 && MIN_BLOCK <= asize <= bs[k].size
      modifies this, heap
      ensures Good(heap.mem, explicitListp, PlaceSpec(bs, k, asize), PlaceList(bs, k, asize, fl))
      ensures LiveKept(old(heap.mem), heap.mem, bs) && heap.mem.Brk() == old(heap.mem.Brk())
      ensures heap.fault == old(heap.fault)
      ensures heapListp == old(heapListp) && blocks == old(blocks) && free == old(free)
    {
      ghost var m0, h0 := heap.mem, explicitListp;
      ghost var rest := Without(fl, bp);
      PlaceReady(m0, h0, bs, fl, k);
      Decode(m0, bs, k);
      var w := heap.Load(Hdrp(bp));
      var fsize := GetSize(w) as int;
      RemoveBlock(bp, bs, fl);
      ghost var m1 := heap.mem;
      if fsize - asize >= 2 * DSIZE {
        PlaceSplit(bp, asize, fsize, bs, rest, k);
      } else {
        PlaceWhole(bp, asize, fsize, bs, rest, k);
      }
      PlaceGood(m0, h0, heap.mem, explicitListp, bs, fl, k, asize);
      LiveKeptTrans(m0, m1, heap.mem, bs);
    }

    /** place's first branch: bs[k], already off the list, is split and its remainder pushed. */
    method PlaceSplit(bp: int, asize: int, fsize: int, ghost bs: seq<Blk>, ghost rest: seq<int>, ghost k: int)
      requires Shape(heap.mem, LINKS, explicitListp, bs, rest) && 0 <= k < |bs| && !bs[k].alloc
      requires bs[k].bp == bp && fsize == bs[k].size && bp !in rest
      requires asize % DSIZE == 0 && MIN_BLOCK <= asize && Splits(bs[k], asize)
      modifies this, heap
      ensures explicitListp == bp + asize
      ensures Shape(heap.mem, LINKS, explicitListp, PlaceSpec(bs, k, asize), [explicitListp] + rest)
      ensures LiveKept(old(heap.mem), heap.mem, bs) && heap.mem.Brk() == old(heap.mem.Brk())
      ensures heap.fault == old(heap.fault)
      ensures heapListp == old(heapListp) && blocks == old(blocks) && free == old(free)
    {
      ghost var m1 := heap.mem;
      ghost var ps := PlaceSpec(bs, k, asize);
      var next := CutBlock(bp, asize, fsize, bs, rest, k);
      ghost var m2 := heap.mem;
      InsertInHead(next, ps, rest);
      PlaceLiveKept(m1, m2, heap.mem, bs, k, asize);
    }

    /**
     * The stores of place's first branch: bs[k], off the list, becomes an
     * allocated block of asize bytes followed by a free remainder that is
     * not yet on the list.
     */
    method CutBlock(bp: int, asize: int, fsize: int, ghost bs: seq<Blk>, ghost rest: seq<int>, ghost k: int)
      returns (next: int)
      requires Shape(heap.mem, LINKS, explicitListp, bs, rest) && 0 <= k < |bs| && !bs[k].alloc
      requires bs[k].bp == bp && fsize == bs[k].size && bp !in rest
      requires asize % DSIZE == 0 && MIN_BLOCK <= asize && Splits(bs[k], asize)
      modifies heap
      ensures next == bp + asize
      ensures Shape(heap.mem, LINKS, explicitListp, PlaceSpec(bs, k, asize), rest)
      ensures IsFreeBp(PlaceSpec(bs, k, asize), next) && next !in rest
      ensures LiveKept(old(heap.mem), heap.mem, bs) && heap.mem.Brk() == old(heap.mem.Brk())
      ensures heap.fault == old(heap.fault)
    {
      ghost var m1 := heap.mem;
      next := SplitBlock(heap, bp, asize, fsize, bs, k);
      PlaceTagsShape(m1, heap.mem, LINKS, explicitListp, bs, rest, k, asize);
      RemainderFree(m1, bs, rest, k, asize);
    }

    /** place's second branch: bs[k], already off the list, is allocated whole. */
    method PlaceWhole(bp: int, asize: int, fsize: int, ghost bs: seq<Blk>, ghost rest: seq<int>, ghost k: int)
      requires Shape(heap.mem, LINKS, explicitListp, bs, rest) && 0 <= k < |bs| && !bs[k].alloc
      requires bs[k].bp == bp && fsize == bs[k].size && bp !in rest
      requires asize % DSIZE == 0 && MIN_BLOCK <= asize <= fsize && !Splits(bs[k], asize)
      modifies heap
      ensures Shape(heap.mem, LINKS, explicitListp, PlaceSpec(bs, k, asize), rest)
      ensures LiveKept(old(heap.mem), heap.mem, bs) && heap.mem.Brk() == old(heap.mem.Brk())
      ensures heap.fault == old(heap.fault)
    {
      ghost var m1 := heap.mem;
      TakeWhole(heap, bp, fsize, bs, k);
      assert TagsMatch(heap.mem, PlacePieces(bs[k], asize));
      PlaceTagsShape(m1, heap.mem, LINKS, explicitListp, bs, rest, k, asize);
    }

  }
}
