/**
 * mm_todo_debug.c: the in-progress variant of the explicit free-list
 * allocator, modelled as it is written.
 *
 * It shares mm.c's block layout, macros, tag stores, mm_malloc, mm_free,
 * mm_realloc and extend_heap, and the module reuses ExplicitList's methods
 * for those stores. It differs in four places:
 *   - a free block keeps its successor link at bp and its predecessor link
 *     at bp + 4 (the reverse of mm.c);
 *   - coalesce's first case (both neighbours allocated) returns without
 *     pushing the block on the list;
 *   - case 3 writes the merged footer before the merged header;
 *   - mm_init pushes the prologue itself after extending the heap, and
 *     remove_block loads three words for its printf calls.
 *
 * A free block can therefore be off the list. The invariant Sound allows
 * that, and the fault flag records each load or store that leaves the heap.
 * remove_block on a block that is off the list reads its link words as list
 * pointers. When those words hold NULL, as they do in memory the break has
 * just uncovered, every access through them misses the heap: the model
 * proves the fault and that nothing is written. When they hold stale
 * payload bytes, the stores go wherever those bytes point; the methods'
 * preconditions (Detachable) exclude that case.
 */
module TodoDebug {
  import opened MemLib
  import opened Codec
  import opened HeapShape
  import EL = ExplicitList

  /** mm_todo_debug.c keeps a free block's successor link at bp and its predecessor link at bp + 4. */
  const DLINKS: Layout := Layout(WSIZE, 0)

  // ---------------------------------------------------------------------
  // insert_in_head

  /**
   * insert_in_head(bp): pred(bp) := NULL, succ(bp) := head, pred(head) := bp,
   * and bp becomes the head. When bp is the head itself (mm_init's call on
   * the prologue) the third store overwrites the first.
   */
  function InsertRun(m: Mem, head: int, bp: int): (o: EL.Run) {
    var m1 := m.Put(bp + WSIZE, EL.Trunc(NULL));
    var m2 := m1.Put(bp, EL.Trunc(head));
    var m3 := m2.Put(head + WSIZE, EL.Trunc(bp));
    EL.Run(m3, bp, m.InRange(bp + WSIZE) && m1.InRange(bp) && m2.InRange(head + WSIZE))
  }

  /** Pushing a free block that is not on the list puts it in front, and changes no tag and no allocated block. */
  lemma InsertOk(m: Mem, head: int, bs: seq<Blk>, fl: seq<int>, x: int)
    requires Shape(m, DLINKS, head, bs, fl) && IsFreeBp(bs, x) && x !in fl
    ensures var o := InsertRun(m, head, x);
      && o.ok && o.head == x && Shape(o.mem, DLINKS, x, bs, [x] + fl)
      && LiveKept(m, o.mem, bs) && o.mem.Brk() == m.Brk()
  {
    assert head == Prologue(m) || head in fl;
    InsertHeap(m, bs, head, x);
    InsertLinks(m, head, fl, x);
    EL.ListedCons(bs, fl, x);
  }

  /** insert_in_head's stores stay inside the heap and keep the blocks. */
  lemma InsertHeap(m: Mem, bs: seq<Blk>, head: int, x: int)
    requires Heap(m, bs) && IsFreeBp(bs, x) && (IsFreeBp(bs, head) || head == Prologue(m))
    requires head == Prologue(m) || head != x
    ensures m.InRange(x) && m.InRange(x + WSIZE) && m.InRange(head + WSIZE)
    ensures 0 < x < WORD_LIMIT && 0 <= head < WORD_LIMIT && x % 8 == 0 && head % 8 == 0
    ensures x != Prologue(m) && x != head
    ensures var o := InsertRun(m, head, x);
      o.ok && Heap(o.mem, bs) && LiveKept(m, o.mem, bs) && o.mem.Brk() == m.Brk()
  {
    InsertSlots(m, bs, head, x);
    EL.HeapPuts3(m, bs, x + WSIZE, EL.Trunc(NULL), x, EL.Trunc(head), head + WSIZE, EL.Trunc(x));
  }

  /** After insert_in_head's stores the list, read from x, is x followed by the old list. */
  lemma InsertLinks(m: Mem, head: int, fl: seq<int>, x: int)
    requires Links(m, DLINKS, Prologue(m), head, fl) && x !in fl && x != Prologue(m)
    requires x % 8 == 0 && head % 8 == 0 && m.InRange(x) && m.InRange(x + WSIZE) && m.InRange(head + WSIZE)
    requires 0 < x < WORD_LIMIT && 0 <= head < WORD_LIMIT
    ensures var o := InsertRun(m, head, x); Links(o.mem, DLINKS, Prologue(o.mem), x, [x] + fl)
  {
    InsertStores(m, head, x);
    LinksInsert(m, InsertRun(m, head, x).mem, DLINKS, Prologue(m), head, fl, x, x, x + WSIZE, head + WSIZE, Prologue(m));
  }

  /** The three words insert_in_head writes, and the values they end up holding. */
  lemma InsertStores(m: Mem, head: int, x: int)
    requires x % 8 == 0 && head % 8 == 0 && x != head
    requires m.InRange(x) && m.InRange(x + WSIZE) && m.InRange(head + WSIZE)
    requires 0 < x < WORD_LIMIT && 0 <= head < WORD_LIMIT
    ensures var m3 := InsertRun(m, head, x).mem;
      && Changed(m, m3, {x, x + WSIZE, head + WSIZE}) && Prologue(m3) == Prologue(m)
      && m3.Get(x) as int == head && m3.Get(x + WSIZE) as int == NULL && m3.Get(head + WSIZE) as int == x
  {
    Apart(x, head);
    var m3 := InsertRun(m, head, x).mem;
    EL.ThreePuts(m, x + WSIZE, EL.Trunc(NULL), x, EL.Trunc(head), head + WSIZE, EL.Trunc(x));
    assert {x + WSIZE, x, head + WSIZE} == {x, x + WSIZE, head + WSIZE};
  }

  /** The three words insert_in_head writes: in the heap, apart, and free for the list to use. */
  lemma InsertSlots(m: Mem, bs: seq<Blk>, head: int, x: int)
    requires Heap(m, bs) && IsFreeBp(bs, x) && (IsFreeBp(bs, head) || head == Prologue(m))
    requires head == Prologue(m) || head != x
    ensures m.InRange(x) && m.InRange(x + WSIZE) && m.InRange(head + WSIZE)
    ensures 0 < x < WORD_LIMIT && 0 <= head < WORD_LIMIT && x % 8 == 0 && head % 8 == 0
    ensures x != Prologue(m) && x != head && x != head + WSIZE
    ensures Spare(m, bs, x) && Spare(m, bs, x + WSIZE) && Spare(m, bs, head + WSIZE)
  {
    SlotWords(m, bs, x, x);
    SlotWords(m, bs, x, x + WSIZE);
    SlotWords(m, bs, head, head + WSIZE);
    Apart(x, head);
  }

  /**
   * mm_init's insert_in_head(heap_listp + DSIZE) while the list is empty and
   * headed by the prologue: the prologue is pushed in front of itself. Its
   * successor and predecessor words both end up holding its own address,
   * the list stays empty, and no other word changes.
   */
  lemma InsertSelf(m: Mem, bs: seq<Blk>)
    requires Shape(m, DLINKS, Prologue(m), bs, [])
    ensures var pro := Prologue(m); var o := InsertRun(m, pro, pro);
      && o.ok && o.head == pro && Shape(o.mem, DLINKS, pro, bs, [])
      && o.mem.Get(pro) as int == pro && o.mem.Get(pro + WSIZE) as int == pro
      && Changed(m, o.mem, {pro, pro + WSIZE}) && LiveKept(m, o.mem, bs)
  {
    var pro := Prologue(m);
    SlotWords(m, bs, pro, pro);
    SlotWords(m, bs, pro, pro + WSIZE);
    var o := InsertRun(m, pro, pro);
    assert Changed(m, o.mem, {pro, pro + WSIZE});
    ChangedKeepsHeap(m, o.mem, bs, {pro, pro + WSIZE});
  }

  // ---------------------------------------------------------------------
  // remove_block

  /** remove_block(bp): unlinking the head, or a block further down the list. */
  function RemoveRun(m: Mem, head: int, bp: int): (o: EL.Run) {
    if bp == head then RemoveHeadRun(m, bp) else RemoveInnerRun(m, head, bp)
  }

  /** pred(succ(bp)) := NULL, then the head becomes succ(bp), read again. */
  function RemoveHeadRun(m: Mem, bp: int): (o: EL.Run) {
    var s := m.Get(bp);
    var m1 := m.Put(s as int + WSIZE, EL.Trunc(NULL));
    EL.Run(m1, m1.Get(bp) as int, m.InRange(bp) && m.InRange(s as int + WSIZE) && m1.InRange(bp))
  }

  /**
   * The loads of the three printf calls (pred(bp), succ(pred(bp)) and
   * succ(bp)), then succ(pred(bp)) := succ(bp) and pred(succ(bp)) :=
   * pred(bp), both links of bp read again after the first store.
   */
  function RemoveInnerRun(m: Mem, head: int, bp: int): (o: EL.Run) {
    var p := m.Get(bp + WSIZE);
    var s := m.Get(bp);
    var m1 := m.Put(p as int, s);
    var s2 := m1.Get(bp);
    var p2 := m1.Get(bp + WSIZE);
    var m2 := m1.Put(s2 as int + WSIZE, p2);
    EL.Run(m2, head, && m.InRange(bp + WSIZE) && m.InRange(p as int) && m.InRange(bp)
                     && m1.InRange(bp) && m1.InRange(bp + WSIZE) && m1.InRange(s2 as int + WSIZE))
  }

  /** When the first store misses bp's own links, the second store writes what bp's links held at the start. */
  lemma InnerStores(m: Mem, head: int, x: int)
    requires m.InRange(x) && m.InRange(x + WSIZE)
    requires m.Get(x + WSIZE) as int != x && m.Get(x + WSIZE) as int != x + WSIZE
    ensures var p, s := m.Get(x + WSIZE), m.Get(x); var m1 := m.Put(p as int, s);
      && RemoveInnerRun(m, head, x).mem == m1.Put(s as int + WSIZE, p)
      && RemoveInnerRun(m, head, x).head == head
      && RemoveInnerRun(m, head, x).ok == (m.InRange(p as int) && m1.InRange(s as int + WSIZE))
  {
  }

  /** InnerStores with bp's two links named: p is its predecessor, s its successor. */
  lemma InnerStoresAt(m: Mem, head: int, x: int, p: int, s: int)
    requires m.InRange(x) && m.InRange(x + WSIZE) && m.Get(x + WSIZE) as int == p && m.Get(x) as int == s
    requires p != x && p != x + WSIZE
    ensures var o := RemoveInnerRun(m, head, x); var m1 := m.Put(p, m.Get(x));
      && o.mem == m1.Put(s + WSIZE, m.Get(x + WSIZE)) && o.head == head
      && o.ok == (m.InRange(p) && m1.InRange(s + WSIZE))
  {
    InnerStores(m, head, x);
  }

  /** Unlinking a listed block drops it from the list, and changes no tag and no allocated block. */
  lemma RemoveOk(m: Mem, head: int, bs: seq<Blk>, fl: seq<int>, x: int)
    requires Shape(m, DLINKS, head, bs, fl) && x in fl
    ensures var o := RemoveRun(m, head, x);
      && o.ok && Shape(o.mem, DLINKS, o.head, bs, Without(fl, x))
      && LiveKept(m, o.mem, bs) && o.mem.Brk() == m.Brk()
  {
    var i :| 0 <= i < |fl| && fl[i] == x;
    EL.NoEarlier(fl, i);
    WithoutAt(fl, i);
    if x == head {
      RemoveHeadOk(m, bs, fl, i);
      assert fl[..0] + fl[1..] == fl[1..];
    } else {
      RemoveInnerOk(m, head, bs, fl, i);
    }
  }

  lemma RemoveHeadOk(m: Mem, bs: seq<Blk>, fl: seq<int>, i: int)
    requires 0 <= i < |fl| && Shape(m, DLINKS, fl[i], bs, fl)
    ensures i == 0
    ensures var o := RemoveRun(m, fl[0], fl[0]);
      && o.ok && Shape(o.mem, DLINKS, o.head, bs, fl[1..])
      && LiveKept(m, o.mem, bs) && o.mem.Brk() == m.Brk()
  {
    assert i == 0 || Differ(fl, 0, i);
    RemoveHeadShape(m, bs, fl);
  }

  /** remove_block's store for the head fl[0]: the structure holds with fl[0] dropped and its successor as head. */
  lemma RemoveHeadShape(m: Mem, bs: seq<Blk>, fl: seq<int>)
    requires |fl| > 0 && Shape(m, DLINKS, fl[0], bs, fl)
    ensures var x := fl[0]; var m1 := m.Put(m.Get(x) as int + WSIZE, EL.Trunc(NULL));
      && m.InRange(x) && m.InRange(m.Get(x) as int + WSIZE) && m1.InRange(x)
      && Shape(m1, DLINKS, m1.Get(x) as int, bs, fl[1..])
      && LiveKept(m, m1, bs) && m1.Brk() == m.Brk()
  {
    var s := Next(fl, 0, Prologue(m));
    RemoveHeadNext(m, bs, fl);
    RemoveHeadHeap(m, bs, s);
    RemoveHeadLinks(m, fl, s);
    assert forall y :: y in fl[1..] ==> y in fl;
  }

  /** The successor s of the head fl[0]: a free block or the prologue, linked from fl[0], with its predecessor word apart from fl[0]'s successor word. */
  lemma RemoveHeadNext(m: Mem, bs: seq<Blk>, fl: seq<int>)
    requires |fl| > 0 && Shape(m, DLINKS, fl[0], bs, fl)
    ensures var x, s := fl[0], Next(fl, 0, Prologue(m));
      && (IsFreeBp(bs, s) || s == Prologue(m)) && m.InRange(x) && m.InRange(s + WSIZE)
      && m.Get(x) as int == s && x != s + WSIZE
  {
    var pro := Prologue(m);
    var x, s := fl[0], Next(fl, 0, pro);
    assert LinkOk(m, DLINKS, pro, fl, 0);
    if |fl| > 1 {
      assert Differ(fl, 0, 1);
    }
    assert x in fl;
    EL.NeighbourSlot(m, bs, fl, 1);
    SlotWords(m, bs, s, s + WSIZE);
    Apart(x, s);
  }

  /** A NULL store into the predecessor word of a free block or of the prologue keeps the heap and every allocated block. */
  lemma RemoveHeadHeap(m: Mem, bs: seq<Blk>, s: int)
    requires Heap(m, bs) && (IsFreeBp(bs, s) || s == Prologue(m))
    ensures var m1 := m.Put(s + WSIZE, EL.Trunc(NULL));
      && Changed(m, m1, {s + WSIZE}) && Heap(m1, bs) && LiveKept(m, m1, bs) && m1.Brk() == m.Brk()
  {
    SlotWords(m, bs, s, s + WSIZE);
    var m1 := m.Put(s + WSIZE, EL.Trunc(NULL));
    EL.PutChanged(m, s + WSIZE, EL.Trunc(NULL));
    ChangedKeepsHeap(m, m1, bs, {s + WSIZE});
  }

  /** After remove_block's store for the head fl[0], the list read from fl[0]'s successor is fl[1..]. */
  lemma RemoveHeadLinks(m: Mem, fl: seq<int>, s: int)
    requires |fl| > 0 && Links(m, DLINKS, Prologue(m), fl[0], fl) && s == Next(fl, 0, Prologue(m))
    requires m.Get(fl[0]) as int == s && fl[0] != s + WSIZE
    ensures var m1 := m.Put(s + WSIZE, EL.Trunc(NULL)); Links(m1, DLINKS, Prologue(m1), m1.Get(fl[0]) as int, fl[1..])
  {
    var m1 := m.Put(s + WSIZE, EL.Trunc(NULL));
    EL.PutChanged(m, s + WSIZE, EL.Trunc(NULL));
    LinksRemoveHead(m, m1, DLINKS, Prologue(m), fl, s + WSIZE, Prologue(m1), m1.Get(fl[0]) as int);
  }

  lemma RemoveInnerOk(m: Mem, head: int, bs: seq<Blk>, fl: seq<int>, i: int)
    requires 0 <= i < |fl| && Shape(m, DLINKS, head, bs, fl) && fl[i] != head
    ensures 0 < i
    ensures var o := RemoveRun(m, head, fl[i]);
      && o.ok && o.head == head && Shape(o.mem, DLINKS, head, bs, fl[..i] + fl[i + 1..])
      && LiveKept(m, o.mem, bs) && o.mem.Brk() == m.Brk()
  {
    RemoveInnerShape(m, head, bs, fl, i);
  }

  /** remove_block's two stores for fl[i], i > 0, keep the structure, with fl[i] dropped from the list. */
  lemma RemoveInnerShape(m: Mem, head: int, bs: seq<Blk>, fl: seq<int>, i: int)
    requires 0 <= i < |fl| && Shape(m, DLINKS, head, bs, fl) && fl[i] != head
    ensures 0 < i
    ensures var o := RemoveInnerRun(m, head, fl[i]);
      && o.ok && o.head == head && Shape(o.mem, DLINKS, head, bs, fl[..i] + fl[i + 1..])
      && LiveKept(m, o.mem, bs) && o.mem.Brk() == m.Brk()
  {
    RemoveInnerKeeps(m, head, bs, fl, i);
    RemoveInnerSkips(m, head, bs, fl, i);
    ListedRemove(bs, fl, i);
  }

  /** remove_block's two stores for fl[i], i > 0, stay in the heap and keep the blocks. */
  lemma RemoveInnerKeeps(m: Mem, head: int, bs: seq<Blk>, fl: seq<int>, i: int)
    requires 0 <= i < |fl| && Shape(m, DLINKS, head, bs, fl) && fl[i] != head
    ensures 0 < i
    ensures var o := RemoveInnerRun(m, head, fl[i]);
      && o.ok && o.head == head && Heap(o.mem, bs) && LiveKept(m, o.mem, bs) && o.mem.Brk() == m.Brk()
  {
    InnerNeighbours(m, head, bs, fl, i);
    RemoveInnerHeap(m, head, bs, fl[i], fl[i - 1], Next(fl, i, Prologue(m)));
  }

  /** After remove_block's two stores for fl[i], i > 0, the list skips fl[i]. */
  lemma RemoveInnerSkips(m: Mem, head: int, bs: seq<Blk>, fl: seq<int>, i: int)
    requires 0 < i < |fl| && Shape(m, DLINKS, head, bs, fl) && fl[i] != head
    ensures var o := RemoveInnerRun(m, head, fl[i]);
      Links(o.mem, DLINKS, Prologue(o.mem), head, fl[..i] + fl[i + 1..])
  {
    var x, p, s := fl[i], fl[i - 1], Next(fl, i, Prologue(m));
    InnerNeighbours(m, head, bs, fl, i);
    SlotWords(m, bs, p, p);
    SlotWords(m, bs, s, s + WSIZE);
    RemoveInnerLinks(m, head, fl, i, x, p, s);
  }

  /** The neighbours of fl[i], i > 0: three different list slots, linked to fl[i]. */
  lemma InnerNeighbours(m: Mem, head: int, bs: seq<Blk>, fl: seq<int>, i: int)
    requires 0 <= i < |fl| && Shape(m, DLINKS, head, bs, fl) && fl[i] != head
    ensures 0 < i
    ensures var x, p, s := fl[i], fl[i - 1], Next(fl, i, Prologue(m));
      && IsFreeBp(bs, x) && IsFreeBp(bs, p) && (IsFreeBp(bs, s) || s == Prologue(m))
      && x != p && x != s && p != s && p != x + WSIZE && p != s + WSIZE && s + WSIZE != x
      && m.InRange(x) && m.InRange(x + WSIZE) && m.Get(x + WSIZE) as int == p && m.Get(x) as int == s
  {
    var pro := Prologue(m);
    assert LinkOk(m, DLINKS, pro, fl, i);
    assert LinkOk(m, DLINKS, pro, fl, i - 1);
    EL.NeighbourSlot(m, bs, fl, i - 1);
    EL.NeighbourSlot(m, bs, fl, i + 1);
    assert fl[i] in fl;
    assert Differ(fl, i - 1, i);
    if i + 1 < |fl| {
      assert Differ(fl, i - 1, i + 1);
      assert Differ(fl, i, i + 1);
      assert LinkOk(m, DLINKS, pro, fl, i + 1);
    }
    Apart(fl[i - 1], fl[i]);
    Apart(fl[i - 1], Next(fl, i, pro));
    Apart(fl[i], Next(fl, i, pro));
  }

  /** remove_block's two stores for an inner block x, between p and s: inside the heap, keeping the blocks. */
  lemma RemoveInnerHeap(m: Mem, head: int, bs: seq<Blk>, x: int, p: int, s: int)
    requires Heap(m, bs) && IsFreeBp(bs, x) && IsFreeBp(bs, p) && (IsFreeBp(bs, s) || s == Prologue(m))
    requires x != p && x != s && p != s + WSIZE && p != x && p != x + WSIZE
    requires m.InRange(x) && m.InRange(x + WSIZE) && m.Get(x + WSIZE) as int == p && m.Get(x) as int == s
    ensures m.InRange(p) && m.InRange(s + WSIZE)
    ensures var o := RemoveInnerRun(m, head, x);
      && o.ok && o.head == head && Heap(o.mem, bs) && LiveKept(m, o.mem, bs) && o.mem.Brk() == m.Brk()
  {
    InnerStoresAt(m, head, x, p, s);
    SlotWords(m, bs, p, p);
    SlotWords(m, bs, s, s + WSIZE);
    EL.HeapPuts2(m, bs, p, m.Get(x), s + WSIZE, m.Get(x + WSIZE));
  }

  /** After remove_block's two stores for fl[i], i > 0, the list skips it. */
  lemma RemoveInnerLinks(m: Mem, head: int, fl: seq<int>, i: int, x: int, p: int, s: int)
    requires Links(m, DLINKS, Prologue(m), head, fl) && 0 < i < |fl|
    requires x == fl[i] && p == fl[i - 1] && s == Next(fl, i, Prologue(m))
    requires x != p && x != s && p != s && p != s + WSIZE && p != x && p != x + WSIZE
    requires m.InRange(x) && m.InRange(x + WSIZE) && m.InRange(p) && m.InRange(s + WSIZE)
    ensures Links(RemoveInnerRun(m, head, x).mem, DLINKS, Prologue(m), head, fl[..i] + fl[i + 1..])
  {
    var pro := Prologue(m);
    assert LinkOk(m, DLINKS, pro, fl, i);
    InnerStoresAt(m, head, x, p, s);
    EL.TwoPuts(m, p, m.Get(x), s + WSIZE, m.Get(x + WSIZE));
    var m2 := RemoveInnerRun(m, head, x).mem;
    LinksRemoveInner(m, m2, DLINKS, pro, head, fl, i, p, s + WSIZE, Prologue(m2));
  }

  /**
   * remove_block on a free block that is off the list and whose link words
   * hold NULL: it is not the head, so the second branch runs; the printf
   * load through the predecessor link reads address 0, and both stores
   * (at 0 and at 4) miss the heap. Memory and head are left as they were,
   * and the run faults.
   */
  lemma StrayRemove(m: Mem, head: int, bs: seq<Blk>, fl: seq<int>, x: int)
    requires Shape(m, DLINKS, head, bs, fl) && IsFreeBp(bs, x) && x !in fl && NullLinks(m, x)
    ensures RemoveRun(m, head, x) == EL.Run(m, head, false)
  {
    SlotWords(m, bs, x, x);
    WordIn(m, NULL);
    WordIn(m, NULL + WSIZE);
  }

  /**
   * Unlinking a listed block writes only link words of list members and of
   * the prologue: a free block that is off the list keeps both link words.
   */
  lemma UnlistedKept(m: Mem, head: int, bs: seq<Blk>, fl: seq<int>, x: int, y: int)
    requires Shape(m, DLINKS, head, bs, fl) && x in fl && IsFreeBp(bs, y) && y !in fl
    ensures var m' := RemoveRun(m, head, x).mem;
      m'.Get(y) == m.Get(y) && m'.Get(y + WSIZE) == m.Get(y + WSIZE)
  {
    var i :| 0 <= i < |fl| && fl[i] == x;
    SlotWords(m, bs, y, y);
    if x == head {
      UnlistedKeptHead(m, bs, fl, y);
    } else {
      UnlistedKeptInner(m, head, bs, fl, i, y);
    }
  }

  lemma UnlistedKeptHead(m: Mem, bs: seq<Blk>, fl: seq<int>, y: int)
    requires |fl| > 0 && Shape(m, DLINKS, fl[0], bs, fl) && IsFreeBp(bs, y) && y !in fl
    requires y % 8 == 0 && y != Prologue(m)
    ensures var m' := RemoveHeadRun(m, fl[0]).mem;
      m'.Get(y) == m.Get(y) && m'.Get(y + WSIZE) == m.Get(y + WSIZE)
  {
    var s := Next(fl, 0, Prologue(m));
    RemoveHeadNext(m, bs, fl);
    SlotWords(m, bs, s, s);
    assert s != y by {
      if |fl| > 1 {
        assert fl[1] in fl;
      }
    }
    Apart(y, s);
    EL.PutChanged(m, s + WSIZE, EL.Trunc(NULL));
  }

  lemma UnlistedKeptInner(m: Mem, head: int, bs: seq<Blk>, fl: seq<int>, i: int, y: int)
    requires 0 <= i < |fl| && Shape(m, DLINKS, head, bs, fl) && fl[i] != head
    requires IsFreeBp(bs, y) && y !in fl && y % 8 == 0 && y != Prologue(m)
    ensures var m' := RemoveInnerRun(m, head, fl[i]).mem;
      m'.Get(y) == m.Get(y) && m'.Get(y + WSIZE) == m.Get(y + WSIZE)
  {
    var x := fl[i];
    InnerNeighbours(m, head, bs, fl, i);
    var p, s := fl[i - 1], Next(fl, i, Prologue(m));
    SlotWords(m, bs, p, p);
    SlotWords(m, bs, s, s);
    assert p != y && s != y by {
      assert fl[i - 1] in fl;
      if i + 1 < |fl| {
        assert fl[i + 1] in fl;
      }
    }
    SlotWords(m, bs, s, s + WSIZE);
    Apart(y, p);
    Apart(y, s);
    InnerMisses(m, head, x, y);
  }

  /** remove_block's two stores for an inner block x miss the words y and y + 4 when neither is one of them. */
  lemma InnerMisses(m: Mem, head: int, x: int, y: int)
    requires m.InRange(x) && m.InRange(x + WSIZE)
    requires var p, s := m.Get(x + WSIZE) as int, m.Get(x) as int;
      && p != x && p != x + WSIZE && m.InRange(p) && m.InRange(s + WSIZE) && p != s + WSIZE
      && y != p && y != s + WSIZE && y + WSIZE != p && y + WSIZE != s + WSIZE
    ensures var m' := RemoveInnerRun(m, head, x).mem;
      m'.Get(y) == m.Get(y) && m'.Get(y + WSIZE) == m.Get(y + WSIZE)
  {
    InnerStores(m, head, x);
    EL.TwoPuts(m, m.Get(x + WSIZE) as int, m.Get(x), m.Get(x) as int + WSIZE, m.Get(x + WSIZE));
  }

  // ---------------------------------------------------------------------
  // Free blocks off the list

  /** Both link words of x hold NULL, as in memory the break has just uncovered. */
  ghost predicate NullLinks(m: Mem, x: int) {
    m.Get(x) == 0 && m.Get(x + WSIZE) == 0
  }

  /**
   * remove_block(x) does no harm: x is on the list, or its link words hold
   * NULL so that every access through them misses the heap.
   */
  ghost predicate Detachable(m: Mem, fl: seq<int>, x: int) {
    x in fl || NullLinks(m, x)
  }

  /** Both free neighbours of bs[k], if any, are Detachable. */
  ghost predicate NeighboursDetachable(m: Mem, bs: seq<Blk>, fl: seq<int>, k: int)
    requires 0 <= k < |bs|
  {
    && (k > 0 && !bs[k - 1].alloc ==> Detachable(m, fl, bs[k - 1].bp))
    && (k + 1 < |bs| && !bs[k + 1].alloc ==> Detachable(m, fl, bs[k + 1].bp))
  }

  /** A free neighbour of bs[k] that coalesce would unlink is off the list. */
  ghost predicate StrayNeighbour(bs: seq<Blk>, fl: seq<int>, k: int)
    requires 0 <= k < |bs|
  {
    || (MergeLo(bs, k) < k && bs[k - 1].bp !in fl)
    || (MergeHi(bs, k) > k + 1 && bs[k + 1].bp !in fl)
  }

  /** remove_block(x) keeps another free block y Detachable. */
  lemma StillDetachable(m: Mem, m': Mem, head: int, bs: seq<Blk>, fl: seq<int>, x: int, y: int)
    requires Shape(m, DLINKS, head, bs, fl) && IsFreeBp(bs, y) && x != y && Detachable(m, fl, y)
    requires m' == RemoveRun(m, head, x).mem && (x !in fl ==> m' == m)
    ensures Detachable(m', Without(fl, x), y)
  {
    WithoutMembers(fl, x);
    if y !in fl && x in fl {
      UnlistedKept(m, head, bs, fl, x, y);
    }
  }

  // ---------------------------------------------------------------------
  // The invariant

  /**
   * The structure the routines keep: the blocks, a well-linked list of free
   * blocks, and no two neighbouring blocks both free. Unlike mm.c's
   * invariant it lets free blocks stay off the list.
   */
  ghost predicate Sound(m: Mem, head: int, bs: seq<Blk>, fl: seq<int>) {
    Shape(m, DLINKS, head, bs, fl) && CoalescedExcept(bs, -1)
  }

  /** The state coalesce expects: bs[k] free and off the list, the only block that may have a free neighbour. */
  ghost predicate Pending(m: Mem, head: int, bs: seq<Blk>, fl: seq<int>, k: int) {
    && Shape(m, DLINKS, head, bs, fl) && 0 <= k < |bs| && !bs[k].alloc && bs[k].bp !in fl
    && CoalescedExcept(bs, k) && NeighboursDetachable(m, bs, fl, k)
  }

  /** coalesce's first case: both neighbours of bs[k] are allocated. */
  predicate Alone(bs: seq<Blk>, k: int)
    requires 0 <= k < |bs|
  {
    MergeLo(bs, k) == k && MergeHi(bs, k) == k + 1
  }

  /** The list after coalesce as written: untouched in the first case, the merged block pushed in the others. */
  function AfterCoalesce(bs: seq<Blk>, k: int, fl: seq<int>): (r: seq<int>)
    requires 0 <= k < |bs|
    ensures !Alone(bs, k) ==> |r| > 0 && r[0] == bs[MergeLo(bs, k)].bp
  {
    if Alone(bs, k) then fl else CoalesceList(bs, k, fl)
  }

  /**
   * What mm_free leaves behind, on the blocks and the list: a freed block
   * with no free neighbour is free but off the list; and when every free
   * block was listed, no neighbour is stray, and every free block is still
   * listed exactly when the freed block had a free neighbour.
   */
  lemma FreeOutcome(m: Mem, head: int, bs: seq<Blk>, fl: seq<int>, k: int)
    requires Sound(m, head, bs, fl) && 0 <= k < |bs| && bs[k].alloc
    ensures var fs := FreeSpec(bs, k); var cs, nl := CoalesceSpec(fs, k), AfterCoalesce(fs, k, fl);
      && (Alone(fs, k) ==> IsFreeBp(cs, bs[k].bp) && bs[k].bp !in nl)
      && (ExactExcept(bs, fl, -1) ==> !StrayNeighbour(fs, fl, k) && (ExactExcept(cs, nl, -1) <==> !Alone(fs, k)))
  {
    AllocUnlisted(m, bs, fl, k);
    FreeLeak(bs, fl, k);
    if ExactExcept(bs, fl, -1) {
      FreeListed(bs, FirstBp(m), m.Brk(), fl, k);
    }
  }

  /** A freed block with no free neighbour stays as it is: free, and still off the list. */
  lemma FreeLeak(bs: seq<Blk>, fl: seq<int>, k: int)
    requires 0 <= k < |bs| && bs[k].bp !in fl
    ensures var fs := FreeSpec(bs, k);
      Alone(fs, k) ==> IsFreeBp(CoalesceSpec(fs, k), bs[k].bp) && bs[k].bp !in AfterCoalesce(fs, k, fl)
  {
    var fs := FreeSpec(bs, k);
    if Alone(fs, k) {
      CoalesceAlone(fs, k, fl);
      assert fs[k].bp == bs[k].bp && !fs[k].alloc;
    }
  }

  /** Freeing with every free block listed: no stray neighbour, and all stay listed exactly when one was free. */
  lemma FreeListed(bs: seq<Blk>, start: int, end: int, fl: seq<int>, k: int)
    requires Tiles(bs, start, end) && 0 <= k < |bs| && bs[k].alloc
    requires Listed(bs, fl) && Distinct(fl) && ExactExcept(bs, fl, -1) && CoalescedExcept(bs, -1)
    ensures var fs := FreeSpec(bs, k);
      && !StrayNeighbour(fs, fl, k)
      && (ExactExcept(CoalesceSpec(fs, k), AfterCoalesce(fs, k, fl), -1) <==> !Alone(fs, k))
  {
    var fs := FreeSpec(bs, k);
    FreePending(bs, start, end, k, fl);
    assert k > 0 ==> fs[k - 1] == bs[k - 1];
    assert k + 1 < |bs| ==> fs[k + 1] == bs[k + 1];
    if !Alone(fs, k) {
      CoalesceExact(fs, start, end, k, fl);
    } else {
      FreeLeak(bs, fl, k);
    }
  }

  /** The last block of the heap is free. */
  predicate EndFree(bs: seq<Blk>) {
    |bs| > 0 && !bs[|bs| - 1].alloc
  }

  /** Marking a block free in a coalesced heap leaves only that block next to free ones. */
  lemma CoalescedFree(bs: seq<Blk>, k: int)
    requires 0 <= k < |bs| && CoalescedExcept(bs, -1)
    ensures CoalescedExcept(FreeSpec(bs, k), k)
  {
    var fs := FreeSpec(bs, k);
    forall i | 0 <= i < |fs| - 1 && i != k && i + 1 != k
      ensures fs[i].alloc || fs[i + 1].alloc
    {
      assert fs[i] == bs[i] && fs[i + 1] == bs[i + 1];
    }
  }

  /** A block appended to a coalesced heap is the only one that may sit next to a free block. */
  lemma CoalescedExtend(bs: seq<Blk>, bp: int, size: int)
    requires CoalescedExcept(bs, -1)
    ensures CoalescedExcept(ExtendSpec(bs, bp, size), |bs|)
  {
    var es := ExtendSpec(bs, bp, size);
    forall i | 0 <= i < |es| - 1 && i + 1 != |bs|
      ensures es[i].alloc || es[i + 1].alloc
    {
      assert es[i] == bs[i] && es[i + 1] == bs[i + 1];
    }
  }

  /**
   * Stores confined to bs[k]'s own bytes keep the link words of its
   * neighbours, and so whether each of them is Detachable.
   */
  lemma NeighboursKept(m: Mem, m': Mem, bs: seq<Blk>, fl: seq<int>, k: int)
    requires Heap(m, bs) && 0 <= k < |bs| && NeighboursDetachable(m, bs, fl, k)
    requires AgreeOutside(m, m', bs[k].bp - WSIZE, End(bs[k]) - WSIZE)
    ensures NeighboursDetachable(m', bs, fl, k)
  {
    if k > 0 {
      assert End(bs[k - 1]) == bs[k].bp && MIN_BLOCK <= bs[k - 1].size;
    }
  }

  /** When the one free block off the list is the block place takes, every free block is on the list afterwards. */
  lemma PlaceExactExcept(bs: seq<Blk>, start: int, end: int, k: int, asize: int, fl: seq<int>)
    requires Tiles(bs, start, end) && 0 <= k < |bs| && !bs[k].alloc
    requires asize % DSIZE == 0 && MIN_BLOCK <= asize <= bs[k].size
    requires Distinct(fl) && ExactExcept(bs, fl, k)
    ensures ExactExcept(PlaceSpec(bs, k, asize), PlaceList(bs, k, asize, fl), -1)
  {
    var x := bs[k].bp;
    if x in fl {
      PlaceExact(bs, start, end, k, asize, fl);
    } else {
      DistinctCons(x, fl);
      WithoutAbsent(fl, x);
      assert Without([x] + fl, x) == fl;
      PlaceExact(bs, start, end, k, asize, [x] + fl);
    }
  }

  // ---------------------------------------------------------------------
  // coalesce's case 3, footer first

  /**
   * Case 3's loads and stores once the previous block is unlinked: the
   * merged size is written into bp's footer, which FTRP(bp) finds through
   * bp's unchanged header, and then into the header of the block
   * PREV_BLKP(bp) still finds. Both stores stay inside the heap and make
   * the merged block.
   */
  lemma FooterFirstTags(m1: Mem, bs: seq<Blk>, k: int, bp: int, sz: u32)
    requires Heap(m1, bs) && 0 <= k < |bs| && MergeLo(bs, k) == k - 1 && MergeHi(bs, k) == k + 1 && bp == bs[k].bp
    requires sz == EL.Trunc(bs[k].size + GetSize(m1.Get(Hdrp(PrevBlkp(m1, bp)))) as int)
    ensures m1.InRange(bp - DSIZE) && PrevBlkp(m1, bp) == bs[k - 1].bp && m1.InRange(Hdrp(bs[k - 1].bp))
    ensures m1.InRange(Hdrp(bp)) && Ftrp(m1, bp) == End(bs[k]) - DSIZE && m1.InRange(End(bs[k]) - DSIZE)
    ensures var w := Pack(sz, 0); var m2 := m1.Put(End(bs[k]) - DSIZE, w);
      && m2.InRange(bp - DSIZE) && PrevBlkp(m2, bp) == bs[k - 1].bp && m2.InRange(Hdrp(bs[k - 1].bp))
      && var m3 := m2.Put(Hdrp(bs[k - 1].bp), w);
      && m3.InRange(bp - DSIZE) && PrevBlkp(m3, bp) == bs[k - 1].bp
      && TagOk(m3, Merged(bs, k - 1, k + 1))
      && AgreeOutside(m1, m3, bs[k - 1].bp - WSIZE, End(bs[k]) - WSIZE)
  {
    CoalesceProbe(m1, bs, k, bp);
    Decode(m1, bs, k - 1);
    Decode(m1, bs, k);
    MergeReady(m1, bs, k);
    var c := Merged(bs, k - 1, k + 1);
    assert c.bp == bs[k - 1].bp && sz as int == c.size && End(c) == End(bs[k]);
    assert End(bs[k - 1]) == bp && MIN_BLOCK <= bs[k - 1].size && MIN_BLOCK <= bs[k].size;
    FooterFirst(m1, c, sz, bp);
  }

  /** The two stores of case 3 on the merged block c, footer first: they make c's tags and miss the word at r - DSIZE. */
  lemma FooterFirst(m: Mem, c: Blk, sz: u32, r: int)
    requires m.InRange(c.bp - WSIZE) && m.InRange(End(c) - DSIZE) && m.InRange(r - DSIZE)
    requires DSIZE <= c.size && sz as int == c.size && !c.alloc
    requires r - DSIZE != c.bp - WSIZE && r - DSIZE != End(c) - DSIZE
    ensures var w := Pack(sz, 0); var m2 := m.Put(End(c) - DSIZE, w); var m3 := m2.Put(c.bp - WSIZE, w);
      && m2.InRange(r - DSIZE) && m2.Get(r - DSIZE) == m.Get(r - DSIZE) && m2.InRange(c.bp - WSIZE)
      && m3.InRange(r - DSIZE) && m3.Get(r - DSIZE) == m.Get(r - DSIZE)
      && TagOk(m3, c) && AgreeOutside(m, m3, c.bp - WSIZE, End(c) - WSIZE)
  {
    EL.TwoPuts(m, End(c) - DSIZE, Pack(sz, 0), c.bp - WSIZE, Pack(sz, 0));
  }

  // ---------------------------------------------------------------------
  // extend_heap and mm_free on the invariant

  /** extend_heap's three stores leave the link words of the new block as mem_sbrk left them: NULL. */
  lemma ExtendFresh(m: Mem, g: Mem, size: int)
    requires Sentinels(m) && size % 8 == 0 && MIN_BLOCK <= size
    requires g == m.Grow(size / WSIZE) && g.Brk() <= WORD_LIMIT
    ensures NullLinks(EL.ExtendStores(g, m.Brk(), size).mem, m.Brk())
  {
    var bp := m.Brk();
    EL.ExtendWords(m, g, size);
    WordIn(m, bp);
    WordIn(m, bp + WSIZE);
    WordIn(g, bp);
    WordIn(g, bp + WSIZE);
    var t := EL.TagStores(g, bp, Pack(EL.Trunc(size), 0));
    PackRoundTrip(size as u32, 0);
    assert Ftrp(g.Put(Hdrp(bp), Pack(EL.Trunc(size), 0)), bp) == bp + size - DSIZE;
    assert NextBlkp(t.mem, bp) == bp + size;
  }

  /**
   * mm_free's loads and stores on allocated block bs[k]: bs[k] becomes a
   * free block off the list, the one block coalesce has to settle, and
   * its neighbours stay as Detachable as they were.
   */
  lemma FreeOk(m: Mem, head: int, bs: seq<Blk>, fl: seq<int>, k: int)
    requires Sound(m, head, bs, fl) && 0 <= k < |bs| && bs[k].alloc && NeighboursDetachable(m, bs, fl, k)
    ensures m.InRange(Hdrp(bs[k].bp))
    ensures var t := EL.TagStores(m, bs[k].bp, Pack(GetSize(m.Get(Hdrp(bs[k].bp))), 0));
      && t.ok && Pending(t.mem, head, FreeSpec(bs, k), fl, k)
      && LiveKept(m, t.mem, FreeSpec(bs, k)) && t.mem.Brk() == m.Brk()
  {
    Decode(m, bs, k);
    Bounds(bs, FirstBp(m), m.Brk(), k);
    var fs := FreeSpec(bs, k);
    EL.SetTagsOk(m, fs[k]);
    var t := EL.TagStores(m, bs[k].bp, Pack(GetSize(m.Get(Hdrp(bs[k].bp))), 0));
    FreeShape(m, t.mem, DLINKS, head, bs, fl, k);
    AllocUnlisted(m, bs, fl, k);
    CoalescedFree(bs, k);
    NeighboursKept(m, t.mem, bs, fl, k);
    assert k > 0 ==> fs[k - 1] == bs[k - 1];
    assert k + 1 < |bs| ==> fs[k + 1] == bs[k + 1];
  }

  /**
   * extend_heap's stores after mem_sbrk grew the heap by size bytes: one
   * new free block at the old break, off the list and with NULL links,
   * the only block that may have a free neighbour. That neighbour, the old
   * last block, keeps its link words.
   */
  lemma ExtendOk(m: Mem, g: Mem, head: int, bs: seq<Blk>, fl: seq<int>, size: int)
    requires Sound(m, head, bs, fl) && size % DSIZE == 0 && MIN_BLOCK <= size
    requires g == m.Grow(size / WSIZE) && g.Brk() <= WORD_LIMIT
    requires EndFree(bs) ==> Detachable(m, fl, bs[|bs| - 1].bp)
    ensures var t := EL.ExtendStores(g, m.Brk(), size);
      && t.ok && Pending(t.mem, head, ExtendSpec(bs, m.Brk(), size), fl, |bs|)
      && NullLinks(t.mem, m.Brk()) && LiveKept(m, t.mem, bs) && t.mem.Brk() == g.Brk()
  {
    ExtendBase(m, g, head, bs, fl, size);
    var t := EL.ExtendStores(g, m.Brk(), size);
    ExtendTiles(bs, FirstBp(m), m.Brk(), size, fl);
    CoalescedExtend(bs, m.Brk(), size);
    if EndFree(bs) {
      LastKept(m, g, t.mem, bs, fl, size);
    }
  }

  /** extend_heap's three stores keep the structure, with the new block appended and its link words NULL. */
  lemma ExtendBase(m: Mem, g: Mem, head: int, bs: seq<Blk>, fl: seq<int>, size: int)
    requires Shape(m, DLINKS, head, bs, fl) && size % DSIZE == 0 && MIN_BLOCK <= size
    requires g == m.Grow(size / WSIZE) && g.Brk() <= WORD_LIMIT
    ensures var t := EL.ExtendStores(g, m.Brk(), size);
      && t.ok && Shape(t.mem, DLINKS, head, ExtendSpec(bs, m.Brk(), size), fl)
      && NullLinks(t.mem, m.Brk()) && LiveKept(m, t.mem, bs) && t.mem.Brk() == g.Brk()
      && AgreeOutside(g, t.mem, m.Brk() - WSIZE, g.Brk())
  {
    EL.ExtendWords(m, g, size);
    EL.ExtendWrites(g, m.Brk(), size);
    var t := EL.ExtendStores(g, m.Brk(), size);
    assert WSIZE * (size / WSIZE) == size;
    ExtendShape(m, g, t.mem, DLINKS, head, bs, fl, size / WSIZE);
    ExtendFresh(m, g, size);
  }

  /** The old last block's link words lie below the old epilogue, which is all extend_heap can change of the old heap. */
  lemma LastKept(m: Mem, g: Mem, m': Mem, bs: seq<Blk>, fl: seq<int>, size: int)
    requires Heap(m, bs) && EndFree(bs) && size % DSIZE == 0 && MIN_BLOCK <= size
    requires g == m.Grow(size / WSIZE) && AgreeOutside(g, m', m.Brk() - WSIZE, g.Brk())
    ensures var x := bs[|bs| - 1].bp; m'.Get(x) == m.Get(x) && m'.Get(x + WSIZE) == m.Get(x + WSIZE)
  {
    var n := |bs| - 1;
    var x := bs[n].bp;
    GrowKeptBelow(m, g, m', size / WSIZE);
    assert IsFreeBp(bs, x) by {
      assert bs[n].bp == x && !bs[n].alloc;
    }
    SlotWords(m, bs, x, x);
    assert x + bs[n].size == m.Brk() && MIN_BLOCK <= bs[n].size;
  }

  /** The last block is free and off the list: extend_heap's coalesce will unlink it all the same. */
  ghost predicate StrayTail(bs: seq<Blk>, fl: seq<int>) {
    EndFree(bs) && bs[|bs| - 1].bp !in fl
  }

  /** The last block is free and on the list, the one case in which a block from a heap extension is on the list. */
  ghost predicate ListedTail(bs: seq<Blk>, fl: seq<int>) {
    EndFree(bs) && bs[|bs| - 1].bp in fl
  }

  /** When every free block is on the list, every free neighbour of bs[k] is Detachable and none is stray. */
  lemma ExactDetachable(m: Mem, bs: seq<Blk>, fl: seq<int>, k: int)
    requires ExactExcept(bs, fl, -1) && 0 <= k < |bs|
    ensures NeighboursDetachable(m, bs, fl, k) && !StrayNeighbour(bs, fl, k)
  {
  }

  /** When every free block is on the list, so is a free last block. */
  lemma ExactTail(m: Mem, bs: seq<Blk>, fl: seq<int>)
    requires ExactExcept(bs, fl, -1)
    ensures EndFree(bs) ==> Detachable(m, fl, bs[|bs| - 1].bp)
    ensures !StrayTail(bs, fl) && (ListedTail(bs, fl) <==> EndFree(bs))
  {
  }

  /**
   * coalesce on the block extend_heap appends: it merges with the old last
   * block exactly when that block is free, and so is the first case exactly
   * when the old last block is allocated. Then the blocks and the list stay
   * as they are and the new block is left off the list; otherwise an old
   * last block off the list is the neighbour coalesce unlinks by mistake.
   * When every free block was on the list, after it every free block is on
   * the list but, in the first case, the new one.
   */
  lemma ExtendSettled(bs: seq<Blk>, start: int, end: int, size: int, fl: seq<int>)
    requires Tiles(bs, start, end) && size % DSIZE == 0 && MIN_BLOCK <= size
    requires Listed(bs, fl) && Distinct(fl) && CoalescedExcept(bs, -1)
    ensures var es, n := ExtendSpec(bs, end, size), |bs|;
      && MergeLo(es, n) == (if EndFree(bs) then n - 1 else n) && MergeHi(es, n) == n + 1
      && (Alone(es, n) <==> !EndFree(bs))
      && (StrayNeighbour(es, fl, n) <==> StrayTail(bs, fl))
      && end !in fl
      && (!EndFree(bs) ==> CoalesceSpec(es, n) == es && AfterCoalesce(es, n, fl) == fl)
      && (ExactExcept(bs, fl, -1) ==>
            ExactExcept(CoalesceSpec(es, n), AfterCoalesce(es, n, fl), if EndFree(bs) then -1 else n))
  {
    var es, n := ExtendSpec(bs, end, size), |bs|;
    ExtendTiles(bs, start, end, size, fl);
    assert n > 0 ==> es[n - 1] == bs[n - 1];
    if !EndFree(bs) {
      CoalesceAlone(es, n, fl);
    }
    if ExactExcept(bs, fl, -1) {
      ExtendPending(bs, start, end, size, fl);
      if EndFree(bs) {
        CoalesceExact(es, start, end + size, n, fl);
      }
    }
  }

  // ---------------------------------------------------------------------
  // mm_init

  /** mm_init's six words form a heap with no block and an empty list headed by the prologue. */
  lemma InitSound(m: Mem)
    requires 0 < m.lo && m.lo % 8 == 0 && m.Wf() && m.Brk() == m.lo + 6 * WSIZE <= WORD_LIMIT
    ensures Sound(EL.PrologueStores(m, m.lo), Prologue(m), [], [])
  {
    EL.InitShape(m);
  }

  // ---------------------------------------------------------------------
  // The store sequence that differs from mm.c's

  /**
   * Case 3's loads and stores once the previous block is unlinked: its
   * size added to bp's, written first into bp's footer and then into the
   * header of the previous block, which bp then steps back to.
   */
  method JoinPrev(heap: Memory, bp: int, size: u32, ghost bs: seq<Blk>, ghost k: int) returns (r: int)
    requires Heap(heap.mem, bs) && 0 <= k < |bs| && bp == bs[k].bp && size as int == bs[k].size
    requires MergeLo(bs, k) == k - 1 && MergeHi(bs, k) == k + 1
    modifies heap
    ensures r == bs[k - 1].bp && TagOk(heap.mem, Merged(bs, k - 1, k + 1))
    ensures AgreeOutside(old(heap.mem), heap.mem, bs[k - 1].bp - WSIZE, End(bs[k]) - WSIZE)
    ensures heap.fault == old(heap.fault)
  {
    ghost var m1 := heap.mem;
    var prev := EL.PrevBlk(heap, bp);
    var w := heap.Load(Hdrp(prev));
    var sz := EL.Trunc(size as int + GetSize(w) as int);
    FooterFirstTags(m1, bs, k, bp, sz);
    var f := EL.Ftr(heap, bp);
    heap.Store(f, Pack(sz, 0));
    prev := EL.PrevBlk(heap, bp);
    heap.Store(Hdrp(prev), Pack(sz, 0));
    r := EL.PrevBlk(heap, bp);
  }

  // ---------------------------------------------------------------------
  // The allocator

  class Allocator {
    const heap: Memory
    var heapListp: int
    var explicitListp: int
    ghost var blocks: seq<Blk>
    ghost var free: seq<int>

    /** The heap matches the blocks and the list; a load or store outside the heap may already have happened. */
    ghost predicate Valid()
      reads this, heap
    {
      && heap.Valid()
      && heapListp == heap.mem.lo
      && Sound(heap.mem, explicitListp, blocks, free)
    }

    /** Every free block is on the list, as mm.c keeps it. */
    ghost predicate AllListed()
      reads this
    {
      ExactExcept(blocks, free, -1)
    }

    /** A free last block, which extend_heap's coalesce unlinks, is on the list or has NULL links. */
    ghost predicate TailReady()
      reads this, heap
    {
      EndFree(blocks) ==> Detachable(heap.mem, free, blocks[|blocks| - 1].bp)
    }

    constructor (heap: Memory)
      ensures this.heap == heap && explicitListp == NULL && heapListp == NULL
    {
      this.heap := heap;
      explicitListp := NULL;
      heapListp := NULL;
    }

    /** insert_in_head, whatever bp is: its three stores and the new head, faulting when a store misses the heap. */
    method InsertInHead(bp: int)
      modifies this, heap
      ensures var o := InsertRun(old(heap.mem), old(explicitListp), bp);
        heap.mem == o.mem && explicitListp == o.head && heap.fault == (old(heap.fault) || !o.ok)
      ensures heapListp == old(heapListp) && blocks == old(blocks) && free == old(free)
    {
      heap.Store(bp + WSIZE, EL.Trunc(NULL));
      heap.Store(bp, EL.Trunc(explicitListp));
      heap.Store(explicitListp + WSIZE, EL.Trunc(bp));
      explicitListp := bp;
    }

    /**
     * remove_block on a free block that is on the list, or off it with NULL
     * links. A listed block leaves the list; an unlisted one faults and
     * changes nothing.
     */
    method RemoveBlock(bp: int, ghost bs: seq<Blk>, ghost fl: seq<int>)
      requires Shape(heap.mem, DLINKS, explicitListp, bs, fl) && IsFreeBp(bs, bp) && Detachable(heap.mem, fl, bp)
      modifies this, heap
      ensures heap.mem == RemoveRun(old(heap.mem), old(explicitListp), bp).mem
      ensures Shape(heap.mem, DLINKS, explicitListp, bs, Without(fl, bp))
      ensures heap.fault == (old(heap.fault) || bp !in fl)
      ensures bp !in fl ==> heap.mem == old(heap.mem) && explicitListp == old(explicitListp)
      ensures LiveKept(old(heap.mem), heap.mem, bs) && heap.mem.Brk() == old(heap.mem.Brk())
      ensures heapListp == old(heapListp) && blocks == old(blocks) && free == old(free)
    {
      ghost var m0, h0 := heap.mem, explicitListp;
      if bp == explicitListp {
        RemoveHead(bp);
      } else {
        RemoveInner(bp);
      }
      if bp in fl {
        RemoveOk(m0, h0, bs, fl, bp);
      } else {
        StrayRemove(m0, h0, bs, fl, bp);
        WithoutAbsent(fl, bp);
        LiveKeptRefl(m0, bs);
      }
    }

    /** remove_block's first branch: bp is the head. */
    method RemoveHead(bp: int)
      modifies this, heap
      ensures heap.mem == RemoveHeadRun(old(heap.mem), bp).mem && explicitListp == RemoveHeadRun(old(heap.mem), bp).head
      ensures heap.fault == (old(heap.fault) || !RemoveHeadRun(old(heap.mem), bp).ok)
      ensures heapListp == old(heapListp) && blocks == old(blocks) && free == old(free)
    {
      var s := heap.Load(bp);
      heap.Store(s as int + WSIZE, EL.Trunc(NULL));
      var s2 := heap.Load(bp);
      explicitListp := s2 as int;
    }

    /** remove_block's second branch: the loads of the three printf calls, then the two stores. */
    method RemoveInner(bp: int)
      modifies heap
      ensures heap.mem == RemoveInnerRun(old(heap.mem), explicitListp, bp).mem
      ensures heap.fault == (old(heap.fault) || !RemoveInnerRun(old(heap.mem), explicitListp, bp).ok)
    {
      var shownPred := heap.Load(bp + WSIZE);
      var pred := heap.Load(bp + WSIZE);
      var shownPredSucc := heap.Load(pred as int);
      var shownSucc := heap.Load(bp);
      var p := heap.Load(bp + WSIZE);
      var s := heap.Load(bp);
      heap.Store(p as int, s);
      var s2 := heap.Load(bp);
      var p2 := heap.Load(bp + WSIZE);
      heap.Store(s2 as int + WSIZE, p2);
    }

    /**
     * coalesce(bp) on a free block bs[k] that is off the list, the only
     * block that may have a free neighbour. With both neighbours allocated
     * it returns bp and changes nothing: the block stays off the list.
     * Otherwise the blocks become CoalesceSpec(bs, k) and the merged block
     * heads the list. Unlinking a neighbour that is off the list faults and
     * leaves the list as it was.
     */
    method Coalesce(bp: int, ghost bs: seq<Blk>, ghost fl: seq<int>, ghost k: int) returns (r: int)
      requires Pending(heap.mem, explicitListp, bs, fl, k) && bp == bs[k].bp
      modifies this, heap
      ensures r == bs[MergeLo(bs, k)].bp
      ensures Sound(heap.mem, explicitListp, CoalesceSpec(bs, k), AfterCoalesce(bs, k, fl))
      ensures Alone(bs, k) ==> heap.mem == old(heap.mem) && explicitListp == old(explicitListp)
      ensures !Alone(bs, k) ==> explicitListp == r
      ensures heap.fault == (old(heap.fault) || StrayNeighbour(bs, fl, k))
      ensures LiveKept(old(heap.mem), heap.mem, bs) && heap.mem.Brk() == old(heap.mem.Brk())
      ensures heapListp == old(heapListp) && blocks == old(blocks) && free == old(free)
    {
      ghost var m0 := heap.mem;
      ghost var cs := CoalesceSpec(bs, k);
      CoalesceCovers(bs, FirstBp(m0), m0.Brk(), k);
      CoalesceTiles(bs, FirstBp(m0), m0.Brk(), k);
      CoalesceRestMembers(bs, k, fl);
      CoalesceCoalesced(bs, k);
      var prevAlloc, nextAlloc, size := EL.ReadNeighbours(heap, bp, bs, k);
      r := bp;
      if prevAlloc != 0 && nextAlloc != 0 {
        CoalesceAlone(bs, k, fl);
        LiveKeptRefl(m0, bs);
        return;
      }
      ghost var f1: seq<int>;
      if prevAlloc != 0 {
        f1 := MergeNext(r, size, bs, fl, k);
      } else if nextAlloc != 0 {
        r, f1 := MergePrev(r, size, bs, fl, k);
      } else {
        r, f1 := MergeBoth(r, size, bs, fl, k);
      }
      ghost var m1 := heap.mem;
      assert IsFreeBp(cs, r) by {
        assert cs[MergeLo(bs, k)].bp == r;
      }
      InsertOk(m1, explicitListp, cs, f1, r);
      InsertInHead(r);
      LiveKeptSub(m1, heap.mem, bs, cs);
      LiveKeptTrans(m0, m1, heap.mem, bs);
    }

    /** coalesce's case 2: unlink the free next block, add its size and rewrite bp's tags. */
    method MergeNext(bp: int, size: u32, ghost bs: seq<Blk>, ghost fl: seq<int>, ghost k: int) returns (ghost f1: seq<int>)
      requires Pending(heap.mem, explicitListp, bs, fl, k) && bp == bs[k].bp && size as int == bs[k].size
      requires MergeLo(bs, k) == k && MergeHi(bs, k) == k + 2
      modifies this, heap
      ensures f1 == CoalesceRest(bs, k, fl)
      ensures Shape(heap.mem, DLINKS, explicitListp, CoalesceSpec(bs, k), f1)
      ensures heap.fault == (old(heap.fault) || bs[k + 1].bp !in fl)
      ensures LiveKept(old(heap.mem), heap.mem, bs) && heap.mem.Brk() == old(heap.mem.Brk())
      ensures heapListp == old(heapListp) && blocks == old(blocks) && free == old(free)
    {
      ghost var m0 := heap.mem;
      CoalesceProbe(m0, bs, k, bp);
      var next := EL.NextBlk(heap, bp);
      assert IsFreeBp(bs, next) by {
        assert bs[k + 1].bp == next;
      }
      RemoveBlock(next, bs, fl);
      f1 := CoalesceRest(bs, k, fl);
      ghost var m1 := heap.mem;
      EL.JoinNext(heap, bp, size, bs, k);
      EL.MergeTagsShape(m0, m1, heap.mem, DLINKS, explicitListp, bs, fl, k);
    }

    /** coalesce's case 3: unlink the free previous block, add its size, write the merged tags footer first, step back. */
    method MergePrev(bp: int, size: u32, ghost bs: seq<Blk>, ghost fl: seq<int>, ghost k: int) returns (r: int, ghost f1: seq<int>)
      requires Pending(heap.mem, explicitListp, bs, fl, k) && bp == bs[k].bp && size as int == bs[k].size
      requires MergeLo(bs, k) == k - 1 && MergeHi(bs, k) == k + 1
      modifies this, heap
      ensures r == bs[k - 1].bp && f1 == CoalesceRest(bs, k, fl)
      ensures Shape(heap.mem, DLINKS, explicitListp, CoalesceSpec(bs, k), f1)
      ensures heap.fault == (old(heap.fault) || bs[k - 1].bp !in fl)
      ensures LiveKept(old(heap.mem), heap.mem, bs) && heap.mem.Brk() == old(heap.mem.Brk())
      ensures heapListp == old(heapListp) && blocks == old(blocks) && free == old(free)
    {
      ghost var m0 := heap.mem;
      CoalesceProbe(m0, bs, k, bp);
      var prev := EL.PrevBlk(heap, bp);
      assert IsFreeBp(bs, prev) by {
        assert bs[k - 1].bp == prev;
      }
      RemoveBlock(prev, bs, fl);
      f1 := CoalesceRest(bs, k, fl);
      ghost var m1 := heap.mem;
      r := JoinPrev(heap, bp, size, bs, k);
      EL.MergeTagsShape(m0, m1, heap.mem, DLINKS, explicitListp, bs, fl, k);
    }

    /** coalesce's case 4: unlink both free neighbours, add the three sizes, write the merged tags, step back. */
    method MergeBoth(bp: int, size: u32, ghost bs: seq<Blk>, ghost fl: seq<int>, ghost k: int) returns (r: int, ghost f1: seq<int>)
      requires Pending(heap.mem, explicitListp, bs, fl, k) && bp == bs[k].bp && size as int == bs[k].size
      requires MergeLo(bs, k) == k - 1 && MergeHi(bs, k) == k + 2
      modifies this, heap
      ensures r == bs[k - 1].bp && f1 == CoalesceRest(bs, k, fl)
      ensures Shape(heap.mem, DLINKS, explicitListp, CoalesceSpec(bs, k), f1)
      ensures heap.fault == (old(heap.fault) || bs[k - 1].bp !in fl || bs[k + 1].bp !in fl)
      ensures LiveKept(old(heap.mem), heap.mem, bs) && heap.mem.Brk() == old(heap.mem.Brk())
      ensures heapListp == old(heapListp) && blocks == old(blocks) && free == old(free)
    {
      ghost var m0 := heap.mem;
      f1 := UnlinkBoth(bp, bs, fl, k);
      ghost var m1 := heap.mem;
      r := EL.JoinBoth(heap, bp, size, bs, k);
      EL.MergeTagsShape(m0, m1, heap.mem, DLINKS, explicitListp, bs, fl, k);
    }

    /** Case 4's two remove_block calls: the previous free neighbour first, then the next. */
    method UnlinkBoth(bp: int, ghost bs: seq<Blk>, ghost fl: seq<int>, ghost k: int) returns (ghost f1: seq<int>)
      requires Pending(heap.mem, explicitListp, bs, fl, k) && bp == bs[k].bp
      requires MergeLo(bs, k) == k - 1 && MergeHi(bs, k) == k + 2
      modifies this, heap
      ensures f1 == CoalesceRest(bs, k, fl)
      ensures Shape(heap.mem, DLINKS, explicitListp, bs, f1)
      ensures heap.fault == (old(heap.fault) || bs[k - 1].bp !in fl || bs[k + 1].bp !in fl)
      ensures LiveKept(old(heap.mem), heap.mem, bs) && heap.mem.Brk() == old(heap.mem.Brk())
      ensures heapListp == old(heapListp) && blocks == old(blocks) && free == old(free)
    {
      ghost var m0 := heap.mem;
      ghost var a, n := bs[k - 1].bp, bs[k + 1].bp;
      UnlinkLower(bp, bs, fl, k);
      ghost var ma := heap.mem;
      WithoutMembers(fl, a);
      CoalesceProbe(ma, bs, k, bp);
      var next := EL.NextBlk(heap, bp);
      assert IsFreeBp(bs, n) by {
        assert bs[k + 1].bp == n;
      }
      RemoveBlock(next, bs, Without(fl, a));
      f1 := CoalesceRest(bs, k, fl);
      LiveKeptTrans(m0, ma, heap.mem, bs);
    }

    /** The first remove_block of coalesce's fourth case: the lower neighbour leaves the list, the upper one stays detachable. */
    method UnlinkLower(bp: int, ghost bs: seq<Blk>, ghost fl: seq<int>, ghost k: int)
      requires Pending(heap.mem, explicitListp, bs, fl, k) && bp == bs[k].bp
      requires MergeLo(bs, k) == k - 1 && MergeHi(bs, k) == k + 2
      modifies this, heap
      ensures Shape(heap.mem, DLINKS, explicitListp, bs, Without(fl, bs[k - 1].bp))
      ensures Detachable(heap.mem, Without(fl, bs[k - 1].bp), bs[k + 1].bp)
      ensures bs[k - 1].bp != bs[k + 1].bp
      ensures heap.fault == (old(heap.fault) || bs[k - 1].bp !in fl)
      ensures LiveKept(old(heap.mem), heap.mem, bs) && heap.mem.Brk() == old(heap.mem.Brk())
      ensures heapListp == old(heapListp) && blocks == old(blocks) && free == old(free)
    {
      ghost var m0, h0 := heap.mem, explicitListp;
      ghost var a, n := bs[k - 1].bp, bs[k + 1].bp;
      CoalesceProbe(m0, bs, k, bp);
      UniqueBpNe(bs, FirstBp(m0), m0.Brk(), k - 1, k + 1);
      var prev := EL.PrevBlk(heap, bp);
      assert IsFreeBp(bs, a) && IsFreeBp(bs, n) by {
        assert bs[k - 1].bp == a && bs[k + 1].bp == n;
      }
      RemoveBlock(prev, bs, fl);
      StillDetachable(m0, heap.mem, h0, bs, fl, a, n);
    }

    /** mm_free's header load and two tag stores: bs[k] reads as free, and coalesce has it to settle. */
    method MarkFree(bp: int, ghost bs: seq<Blk>, ghost fl: seq<int>, ghost k: int)
      requires Sound(heap.mem, explicitListp, bs, fl) && 0 <= k < |bs| && bs[k].bp == bp && bs[k].alloc
      requires NeighboursDetachable(heap.mem, bs, fl, k)
      modifies heap
      ensures Pending(heap.mem, explicitListp, FreeSpec(bs, k), fl, k)
      ensures LiveKept(old(heap.mem), heap.mem, FreeSpec(bs, k)) && heap.mem.Brk() == old(heap.mem.Brk())
      ensures heap.fault == old(heap.fault)
    {
      FreeOk(heap.mem, explicitListp, bs, fl, k);
      EL.ClearTags(heap, bp);
    }

    /** mm_free's stores and its call to coalesce. */
    method Release(bp: int, ghost k: int)
      requires Valid() && 0 <= k < |blocks| && blocks[k].bp == bp && blocks[k].alloc
      requires NeighboursDetachable(heap.mem, blocks, free, k)
      modifies this, heap
      ensures Valid() && heapListp == old(heapListp)
      ensures blocks == CoalesceSpec(FreeSpec(old(blocks), k), k)
      ensures free == AfterCoalesce(FreeSpec(old(blocks), k), k, old(free))
      ensures heap.fault == (old(heap.fault) || StrayNeighbour(FreeSpec(old(blocks), k), old(free), k))
      ensures LiveKept(old(heap.mem), heap.mem, FreeSpec(old(blocks), k)) && heap.mem.Brk() == old(heap.mem.Brk())
    {
      ghost var bs, fl, m0 := blocks, free, heap.mem;
      MarkFree(bp, bs, fl, k);
      ghost var m1 := heap.mem;
      var _ := Coalesce(bp, FreeSpec(bs, k), fl, k);
      blocks, free := CoalesceSpec(FreeSpec(bs, k), k), AfterCoalesce(FreeSpec(bs, k), k, fl);
      LiveKeptTrans(m0, m1, heap.mem, FreeSpec(bs, k));
    }

    /**
     * mm_free: clear the allocated bit in the block's header and footer,
     * then coalesce. No allocated block is left at bp, and every other
     * allocated block keeps its place and its bytes. When both neighbours
     * are allocated the freed block is never put on the list: find_fit
     * cannot return it again. When every free block was on the list, it
     * still is exactly when the freed block had a free neighbour, and no
     * access leaves the heap.
     */
    method Free(bp: int, ghost k: int)
      requires Valid() && 0 <= k < |blocks| && blocks[k].bp == bp && blocks[k].alloc
      requires NeighboursDetachable(heap.mem, blocks, free, k)
      modifies this, heap
      ensures Valid() && heapListp == old(heapListp)
      ensures blocks == CoalesceSpec(FreeSpec(old(blocks), k), k)
      ensures free == AfterCoalesce(FreeSpec(old(blocks), k), k, old(free))
      ensures heap.fault == (old(heap.fault) || StrayNeighbour(FreeSpec(old(blocks), k), old(free), k))
      ensures LiveKept(old(heap.mem), heap.mem, FreeSpec(old(blocks), k)) && heap.mem.Brk() == old(heap.mem.Brk())
      ensures NoAllocAt(blocks, bp)
      ensures AllocKept(old(blocks), k, blocks)
      ensures Alone(FreeSpec(old(blocks), k), k) ==> IsFreeBp(blocks, bp) && bp !in free
      ensures old(AllListed()) ==> heap.fault == old(heap.fault)
      ensures old(AllListed()) ==> (AllListed() <==> !Alone(FreeSpec(old(blocks), k), k))
    {
      ghost var bs, fl, m0 := blocks, free, heap.mem;
      FreeOutcome(m0, explicitListp, bs, fl, k);
      Release(bp, k);
      EL.FreeKeeps(m0, bs, k);
    }

    /**
     * place(bp, asize) on the free block bs[k]: unlink it; when at least a
     * minimum block would be left over, allocate its first asize bytes and
     * push the rest on the list, otherwise allocate it whole. When bs[k] is
     * off the list its unlinking faults and changes nothing.
     */
    method Place(bp: int, asize: int, ghost bs: seq<Blk>, ghost fl: seq<int>, ghost k: int)
      requires Sound(heap.mem, explicitListp, bs, fl) && 0 <= k < |bs| && bs[k].bp == bp && !bs[k].alloc
      requires asize % DSIZE == 0 && MIN_BLOCK <= asize <= bs[k].size && Detachable(heap.mem, fl, bp)
      modifies this, heap
      ensures Sound(heap.mem, explicitListp, PlaceSpec(bs, k, asize), PlaceList(bs, k, asize, fl))
      ensures heap.fault == (old(heap.fault) || bp !in fl)
      ensures LiveKept(old(heap.mem), heap.mem, bs) && heap.mem.Brk() == old(heap.mem.Brk())
      ensures heapListp == old(heapListp) && blocks == old(blocks) && free == old(free)
    {
      ghost var m0 := heap.mem;
      var fsize := Unlink(bp, bs, fl, k);
      ghost var m1 := heap.mem;
      Carve(bp, asize, fsize, bs, fl, k);
      PlaceCoalesced(bs, k, asize);
      LiveKeptTrans(m0, m1, heap.mem, bs);
    }

    /** place's header load and remove_block: bs[k] leaves the list, or faults when it is off it. */
    method Unlink(bp: int, ghost bs: seq<Blk>, ghost fl: seq<int>, ghost k: int) returns (fsize: int)
      requires Shape(heap.mem, DLINKS, explicitListp, bs, fl) && 0 <= k < |bs| && bs[k].bp == bp && !bs[k].alloc
      requires Detachable(heap.mem, fl, bp)
      modifies this, heap
      ensures fsize == bs[k].size && bp !in Without(fl, bp)
      ensures Shape(heap.mem, DLINKS, explicitListp, bs, Without(fl, bp))
      ensures heap.fault == (old(heap.fault) || bp !in fl)
      ensures LiveKept(old(heap.mem), heap.mem, bs) && heap.mem.Brk() == old(heap.mem.Brk())
      ensures heapListp == old(heapListp) && blocks == old(blocks) && free == old(free)
    {
      WithoutMembers(fl, bp);
      Decode(heap.mem, bs, k);
      var w := heap.Load(Hdrp(bp));
      fsize := GetSize(w) as int;
      assert IsFreeBp(bs, bp) by {
        assert bs[k].bp == bp;
      }
      RemoveBlock(bp, bs, fl);
    }

    /** place after remove_block: split bs[k] and push the remainder, or allocate it whole. */
    method Carve(bp: int, asize: int, fsize: int, ghost bs: seq<Blk>, ghost fl: seq<int>, ghost k: int)
      requires Shape(heap.mem, DLINKS, explicitListp, bs, Without(fl, bp)) && 0 <= k < |bs| && !bs[k].alloc
      requires bs[k].bp == bp && fsize == bs[k].size && bp !in Without(fl, bp)
      requires asize % DSIZE == 0 && MIN_BLOCK <= asize <= fsize
      modifies this, heap
      ensures Shape(heap.mem, DLINKS, explicitListp, PlaceSpec(bs, k, asize), PlaceList(bs, k, asize, fl))
      ensures LiveKept(old(heap.mem), heap.mem, bs) && heap.mem.Brk() == old(heap.mem.Brk())
      ensures heap.fault == old(heap.fault)
      ensures heapListp == old(heapListp) && blocks == old(blocks) && free == old(free)
    {
      if fsize - asize >= 2 * DSIZE {
        PlaceSplit(bp, asize, fsize, bs, Without(fl, bp), k);
      } else {
        PlaceWhole(bp, asize, fsize, bs, Without(fl, bp), k);
      }
    }

    /** place's first branch: bs[k], already off the list, is split and its remainder pushed. */
    method PlaceSplit(bp: int, asize: int, fsize: int, ghost bs: seq<Blk>, ghost rest: seq<int>, ghost k: int)
      requires Shape(heap.mem, DLINKS, explicitListp, bs, rest) && 0 <= k < |bs| && !bs[k].alloc
      requires bs[k].bp == bp && fsize == bs[k].size && bp !in rest
      requires asize % DSIZE == 0 && MIN_BLOCK <= asize && Splits(bs[k], asize)
      modifies this, heap
      ensures explicitListp == bp + asize
      ensures Shape(heap.mem, DLINKS, explicitListp, PlaceSpec(bs, k, asize), [explicitListp] + rest)
      ensures LiveKept(old(heap.mem), heap.mem, bs) && heap.mem.Brk() == old(heap.mem.Brk())
      ensures heap.fault == old(heap.fault)
      ensures heapListp == old(heapListp) && blocks == old(blocks) && free == old(free)
    {
      ghost var m1 := heap.mem;
      ghost var ps := PlaceSpec(bs, k, asize);
      var next := CutBlock(bp, asize, fsize, bs, rest, k);
      ghost var m2 := heap.mem;
      InsertOk(m2, explicitListp, ps, rest, next);
      InsertInHead(next);
      EL.PlaceLiveKept(m1, m2, heap.mem, bs, k, asize);
    }

    /** The stores of place's first branch: an allocated block of asize bytes, then a free remainder off the list. */
    method CutBlock(bp: int, asize: int, fsize: int, ghost bs: seq<Blk>, ghost rest: seq<int>, ghost k: int)
      returns (next: int)
      requires Shape(heap.mem, DLINKS, explicitListp, bs, rest) && 0 <= k < |bs| && !bs[k].alloc
      requires bs[k].bp == bp && fsize == bs[k].size && bp !in rest
      requires asize % DSIZE == 0 && MIN_BLOCK <= asize && Splits(bs[k], asize)
      modifies heap
      ensures next == bp + asize
      ensures Shape(heap.mem, DLINKS, explicitListp, PlaceSpec(bs, k, asize), rest)
      ensures IsFreeBp(PlaceSpec(bs, k, asize), next) && next !in rest
      ensures LiveKept(old(heap.mem), heap.mem, bs) && heap.mem.Brk() == old(heap.mem.Brk())
      ensures heap.fault == old(heap.fault)
    {
      ghost var m1 := heap.mem;
      next := EL.SplitBlock(heap, bp, asize, fsize, bs, k);
      EL.PlaceTagsShape(m1, heap.mem, DLINKS, explicitListp, bs, rest, k, asize);
      EL.RemainderFree(m1, bs, rest, k, asize);
    }

    /** place's second branch: bs[k], already off the list, is allocated whole. */
    method PlaceWhole(bp: int, asize: int, fsize: int, ghost bs: seq<Blk>, ghost rest: seq<int>, ghost k: int)
      requires Shape(heap.mem, DLINKS, explicitListp, bs, rest) && 0 <= k < |bs| && !bs[k].alloc
      requires bs[k].bp == bp && fsize == bs[k].size && bp !in rest
      requires asize % DSIZE == 0 && MIN_BLOCK <= asize <= fsize && !Splits(bs[k], asize)
      modifies heap
      ensures Shape(heap.mem, DLINKS, explicitListp, PlaceSpec(bs, k, asize), rest)
      ensures LiveKept(old(heap.mem), heap.mem, bs) && heap.mem.Brk() == old(heap.mem.Brk())
      ensures heap.fault == old(heap.fault)
    {
      ghost var m1 := heap.mem;
      EL.TakeWhole(heap, bp, fsize, bs, k);
      assert TagsMatch(heap.mem, PlacePieces(bs[k], asize));
      EL.PlaceTagsShape(m1, heap.mem, DLINKS, explicitListp, bs, rest, k, asize);
    }

    /**
     * place on the free block blocks[k], with the ghost state following it.
     * When blocks[k] is off the list, its remove_block faults. When it was
     * the only free block off the list, every free block is on the list
     * afterwards.
     */
    method PlaceAt(bp: int, asize: int, ghost k: int)
      requires Valid() && 0 <= k < |blocks| && blocks[k].bp == bp && !blocks[k].alloc
      requires asize % DSIZE == 0 && MIN_BLOCK <= asize <= blocks[k].size && Detachable(heap.mem, free, bp)
      modifies this, heap
      ensures Valid() && heapListp == old(heapListp) && heap.mem.Brk() == old(heap.mem.Brk())
      ensures blocks == PlaceSpec(old(blocks), k, asize) && free == PlaceList(old(blocks), k, asize, old(free))
      ensures heap.fault == (old(heap.fault) || bp !in old(free))
      ensures old(ExactExcept(blocks, free, k)) ==> AllListed()
      ensures LiveKept(old(heap.mem), heap.mem, old(blocks))
      ensures k < |blocks| && blocks[k].bp == bp && blocks[k].alloc && asize <= blocks[k].size
      ensures AllocIn(old(blocks), blocks) && NoAllocAt(old(blocks), bp)
    {
      ghost var bs, fl, m0 := blocks, free, heap.mem;
      EL.Placed(m0, bs, k, asize);
      Place(bp, asize, bs, fl, k);
      blocks, free := PlaceSpec(bs, k, asize), PlaceList(bs, k, asize, fl);
      if ExactExcept(bs, fl, k) {
        PlaceExactExcept(bs, FirstBp(m0), m0.Brk(), k, asize, fl);
      }
    }

    /**
     * find_fit(asize): walk the list from its head along the successor links
     * (at bp) until a header reads as allocated (the prologue ends the list)
     * and return the first block whose header size is at least asize, or
     * NULL. Every load stays inside the heap.
     */
    method FindFit(asize: int) returns (bp: int)
      requires Valid()
      modifies heap
      ensures heap.mem == old(heap.mem) && heap.fault == old(heap.fault)
      ensures var i := FitIndex(heap.mem, free, asize); bp == if i < |free| then free[i] else NULL
      ensures bp == NULL <==> FitIndex(heap.mem, free, asize) == |free|
    {
      ghost var m, f0 := heap.mem, heap.fault;
      ghost var i := 0;
      bp := explicitListp;
      EL.WalkStep(m, DLINKS, explicitListp, blocks, free, 0);
      var h := heap.Load(Hdrp(bp));
      while GetAlloc(h) != 1
        invariant heap.mem == m && heap.fault == f0
        invariant 0 <= i <= |free| && bp == if i < |free| then free[i] else Prologue(m)
        invariant bp != NULL
        invariant h == m.Get(Hdrp(bp)) && (GetAlloc(h) != 1 <==> i < |free|)
        invariant i < |free| ==> m.InRange(Hdrp(bp)) && m.InRange(bp)
        invariant i < |free| ==> m.Get(bp) as int == Next(free, i, Prologue(m))
        invariant forall j :: 0 <= j < i ==> GetSize(m.Get(Hdrp(free[j]))) as int < asize
        decreases |free| - i
      {
        var w := heap.Load(Hdrp(bp));
        if GetSize(w) as int >= asize {
          EL.FitIndexAt(m, free, asize, i);
          return;
        }
        var s := heap.Load(bp);
        bp := s as int;
        i := i + 1;
        EL.WalkStep(m, DLINKS, explicitListp, blocks, free, i);
        h := heap.Load(Hdrp(bp));
      }
      EL.FitIndexAt(m, free, asize, i);
      bp := NULL;
    }

    /**
     * extend_heap(words): grow the heap by words rounded up to an even
     * count, write the new free block's tags and a new epilogue, and
     * coalesce. NULL, with nothing changed, when the break cannot move.
     * When the old last block is allocated, the new block is returned off
     * the list with the NULL links of fresh memory; otherwise it is merged
     * with that block and pushed, and the unlinking of the old last block
     * faults when that block was off the list.
     */
    method ExtendHeap(words: nat) returns (bp: int, ghost k: int)
      requires Valid() && TailReady() && MIN_BLOCK <= WSIZE * words
      modifies this, heap
      ensures Valid() && heapListp == old(heapListp)
      ensures bp == NULL <==> old(heap.mem.Brk()) + EL.ExtendBytes(words) > heap.maxAddr
      ensures bp == NULL ==>
        heap.mem == old(heap.mem) && blocks == old(blocks) && free == old(free) && heap.fault == old(heap.fault)
      ensures bp != NULL ==>
        var es := ExtendSpec(old(blocks), old(heap.mem.Brk()), EL.ExtendBytes(words)); var n := |old(blocks)|;
        && heap.mem.Brk() == old(heap.mem.Brk()) + EL.ExtendBytes(words)
        && blocks == CoalesceSpec(es, n) && free == AfterCoalesce(es, n, old(free))
        && 0 <= k < |blocks| && blocks[k].bp == bp && !blocks[k].alloc && EL.ExtendBytes(words) <= blocks[k].size
        && (bp in free <==> EndFree(old(blocks)))
        && heap.fault == (old(heap.fault) || StrayTail(old(blocks), old(free)))
        && (!EndFree(old(blocks)) ==> explicitListp == old(explicitListp) && NullLinks(heap.mem, bp))
      ensures old(AllListed()) ==> ExactExcept(blocks, free, if bp == NULL || EndFree(old(blocks)) then -1 else k)
      ensures LiveKept(old(heap.mem), heap.mem, old(blocks))
    {
      k := -1;
      var size := EL.ExtendBytes(words);
      ghost var bs, fl, m0 := blocks, free, heap.mem;
      var p := heap.Sbrk(size);
      if p == -1 {
        LiveKeptRefl(heap.mem, bs);
        return NULL, k;
      }
      bp, k := AddChunk(p, size, m0, bs, fl);
    }

    /** extend_heap once mem_sbrk has grown the heap by size bytes from p: the new block, coalesced. */
    method AddChunk(p: int, size: int, ghost m0: Mem, ghost bs: seq<Blk>, ghost fl: seq<int>) returns (bp: int, ghost k: int)
      requires heap.Valid() && heapListp == m0.lo && Sound(m0, explicitListp, bs, fl)
      requires EndFree(bs) ==> Detachable(m0, fl, bs[|bs| - 1].bp)
      requires size % DSIZE == 0 && MIN_BLOCK <= size
      requires p == m0.Brk() && heap.mem == m0.Grow(size / WSIZE)
      modifies this, heap
      ensures Valid() && heapListp == old(heapListp) && heap.mem.Brk() == old(heap.mem.Brk())
      ensures var es, n := ExtendSpec(bs, p, size), |bs|;
        && blocks == CoalesceSpec(es, n) && free == AfterCoalesce(es, n, fl)
        && 0 <= k < |blocks| && blocks[k].bp == bp && !blocks[k].alloc && size <= blocks[k].size && bp != NULL
      ensures bp in free <==> EndFree(bs)
      ensures heap.fault == (old(heap.fault) || StrayTail(bs, fl))
      ensures !EndFree(bs) ==> explicitListp == old(explicitListp) && NullLinks(heap.mem, bp)
      ensures ExactExcept(bs, fl, -1) ==> ExactExcept(blocks, free, if EndFree(bs) then -1 else k)
      ensures LiveKept(m0, heap.mem, bs)
    {
      ghost var es, n := ExtendSpec(bs, p, size), |bs|;
      WriteFreeChunk(p, size, m0, bs, fl);
      ghost var m1 := heap.mem;
      ExtendSettled(bs, FirstBp(m0), m0.Brk(), size, fl);
      EL.ExtendMerged(m1, es, n);
      k := MergeLo(es, n);
      bp := Coalesce(p, es, fl, n);
      blocks, free := CoalesceSpec(es, n), AfterCoalesce(es, n, fl);
      EL.ExtendLiveKept(m0, m1, heap.mem, bs, p, size);
    }

    /** extend_heap's stores once mem_sbrk has grown the heap by size bytes from bp: the state coalesce then settles. */
    method WriteFreeChunk(bp: int, size: int, ghost m0: Mem, ghost bs: seq<Blk>, ghost fl: seq<int>)
      requires Sound(m0, explicitListp, bs, fl) && size % DSIZE == 0 && MIN_BLOCK <= size
      requires EndFree(bs) ==> Detachable(m0, fl, bs[|bs| - 1].bp)
      requires bp == m0.Brk() && heap.mem == m0.Grow(size / WSIZE) && heap.mem.Brk() <= WORD_LIMIT
      modifies heap
      ensures Pending(heap.mem, explicitListp, ExtendSpec(bs, bp, size), fl, |bs|) && NullLinks(heap.mem, bp)
      ensures LiveKept(m0, heap.mem, bs) && heap.mem.Brk() == old(heap.mem.Brk())
      ensures heap.fault == old(heap.fault)
    {
      ExtendOk(m0, heap.mem, explicitListp, bs, fl, size);
      EL.WriteChunk(heap, bp, size);
    }

    /**
     * mm_malloc(size): NULL for size 0; otherwise the first listed block
     * of at least the adjusted size, or failing that a block from a heap
     * extension of max(asize, CHUNKSIZE) bytes, NULL when that extension is
     * refused. The block returned is allocated, was not allocated before
     * and has room for size payload bytes; every block allocated before
     * stays allocated with its contents. A listed fit never faults. A
     * block from an extension is off the list unless the old last block
     * was free and listed, so place's remove_block faults on it.
     */
    method Malloc(size: nat) returns (bp: int, ghost k: int)
      requires Valid() && TailReady()
      modifies this, heap
      ensures Valid() && heapListp == old(heapListp)
      ensures LiveKept(old(heap.mem), heap.mem, old(blocks))
      ensures AllocIn(old(blocks), blocks)
      ensures size == 0 ==> bp == NULL
      ensures bp == NULL ==>
        heap.mem == old(heap.mem) && blocks == old(blocks) && free == old(free) && heap.fault == old(heap.fault)
      ensures size > 0 ==>
        var asize := AdjustedSize(size); var i := FitIndex(old(heap.mem), old(free), asize);
        && (i < |old(free)| ==> bp == old(free)[i] && heap.mem.Brk() == old(heap.mem.Brk()) && heap.fault == old(heap.fault))
        && (i == |old(free)| ==> (bp == NULL <==> old(heap.mem.Brk()) + EL.Max(asize, CHUNKSIZE) > heap.maxAddr))
        && (i == |old(free)| && bp != NULL ==> heap.fault == (old(heap.fault) || !ListedTail(old(blocks), old(free))))
      ensures size > 0 && FitIndex(old(heap.mem), old(free), AdjustedSize(size)) < |old(free)| ==>
        var asize := AdjustedSize(size);
        && 0 <= k < |old(blocks)| && old(blocks)[k].bp == bp
        && blocks == PlaceSpec(old(blocks), k, asize) && free == PlaceList(old(blocks), k, asize, old(free))
      ensures size > 0 && FitIndex(old(heap.mem), old(free), AdjustedSize(size)) == |old(free)| && bp != NULL ==>
        var asize := AdjustedSize(size); var n := |old(blocks)|;
        var es := ExtendSpec(old(blocks), old(heap.mem.Brk()), EL.Max(asize, CHUNKSIZE));
        var cs, cl := CoalesceSpec(es, n), AfterCoalesce(es, n, old(free));
        && 0 <= k < |cs| && cs[k].bp == bp
        && blocks == PlaceSpec(cs, k, asize) && free == PlaceList(cs, k, asize, cl)
      ensures bp != NULL ==>
        && 0 <= k < |blocks| && blocks[k].bp == bp && blocks[k].alloc && size + DSIZE <= blocks[k].size
        && NoAllocAt(old(blocks), bp)
      ensures old(AllListed()) ==> AllListed()
    {
      k := -1;
      if size == 0 {
        return NULL, k;
      }
      var asize := AdjustedSize(size);
      bp, k := Allocate(asize);
    }

    /** mm_malloc once the size is adjusted: the first fit if there is one, else a block from a heap extension. */
    method Allocate(asize: int) returns (bp: int, ghost k: int)
      requires Valid() && TailReady() && asize % DSIZE == 0 && MIN_BLOCK <= asize
      modifies this, heap
      ensures Valid() && heapListp == old(heapListp)
      ensures LiveKept(old(heap.mem), heap.mem, old(blocks))
      ensures AllocIn(old(blocks), blocks)
      ensures bp == NULL ==>
        heap.mem == old(heap.mem) && blocks == old(blocks) && free == old(free) && heap.fault == old(heap.fault)
      ensures var i := FitIndex(old(heap.mem), old(free), asize);
        && (i < |old(free)| ==> bp == old(free)[i] && heap.mem.Brk() == old(heap.mem.Brk()) && heap.fault == old(heap.fault))
        && (i == |old(free)| ==> (bp == NULL <==> old(heap.mem.Brk()) + EL.Max(asize, CHUNKSIZE) > heap.maxAddr))
        && (i == |old(free)| && bp != NULL ==> heap.fault == (old(heap.fault) || !ListedTail(old(blocks), old(free))))
      ensures FitIndex(old(heap.mem), old(free), asize) < |old(free)| ==>
        && 0 <= k < |old(blocks)| && old(blocks)[k].bp == bp
        && blocks == PlaceSpec(old(blocks), k, asize) && free == PlaceList(old(blocks), k, asize, old(free))
      ensures FitIndex(old(heap.mem), old(free), asize) == |old(free)| && bp != NULL ==>
        var n := |old(blocks)|; var es := ExtendSpec(old(blocks), old(heap.mem.Brk()), EL.Max(asize, CHUNKSIZE));
        var cs, cl := CoalesceSpec(es, n), AfterCoalesce(es, n, old(free));
        && 0 <= k < |cs| && cs[k].bp == bp
        && blocks == PlaceSpec(cs, k, asize) && free == PlaceList(cs, k, asize, cl)
      ensures bp != NULL ==>
        && 0 <= k < |blocks| && blocks[k].bp == bp && blocks[k].alloc && asize <= blocks[k].size
        && NoAllocAt(old(blocks), bp)
      ensures old(AllListed()) ==> AllListed()
    {
      bp := FindFit(asize);
      if bp != NULL {
        k := AllocateFit(bp, asize);
        return;
      }
      bp, k := AllocateFresh(asize);
    }

    /** mm_malloc's first branch: place in the listed block find_fit returned, which never faults. */
    method AllocateFit(bp: int, asize: int) returns (ghost k: int)
      requires Valid() && asize % DSIZE == 0 && MIN_BLOCK <= asize
      requires FitIndex(heap.mem, free, asize) < |free| && bp == free[FitIndex(heap.mem, free, asize)]
      modifies this, heap
      ensures Valid() && heapListp == old(heapListp) && heap.mem.Brk() == old(heap.mem.Brk())
      ensures heap.fault == old(heap.fault)
      ensures LiveKept(old(heap.mem), heap.mem, old(blocks))
      ensures 0 <= k < |blocks| && blocks[k].bp == bp && blocks[k].alloc && asize <= blocks[k].size
      ensures 0 <= k < |old(blocks)| && old(blocks)[k].bp == bp
      ensures blocks == PlaceSpec(old(blocks), k, asize) && free == PlaceList(old(blocks), k, asize, old(free))
      ensures AllocIn(old(blocks), blocks) && NoAllocAt(old(blocks), bp)
      ensures old(AllListed()) ==> AllListed()
    {
      k := EL.FitBlock(heap.mem, DLINKS, explicitListp, blocks, free, asize);
      assert bp in free;
      PlaceAt(bp, asize, k);
    }

    /** mm_malloc when no listed block fits: extend the heap by max(asize, CHUNKSIZE) bytes and place in the new block. */
    method AllocateFresh(asize: int) returns (bp: int, ghost k: int)
      requires Valid() && TailReady() && asize % DSIZE == 0 && MIN_BLOCK <= asize
      modifies this, heap
      ensures Valid() && heapListp == old(heapListp)
      ensures LiveKept(old(heap.mem), heap.mem, old(blocks))
      ensures AllocIn(old(blocks), blocks)
      ensures bp == NULL <==> old(heap.mem.Brk()) + EL.Max(asize, CHUNKSIZE) > heap.maxAddr
      ensures bp == NULL ==>
        heap.mem == old(heap.mem) && blocks == old(blocks) && free == old(free) && heap.fault == old(heap.fault)
      ensures bp != NULL ==> heap.fault == (old(heap.fault) || !ListedTail(old(blocks), old(free)))
      ensures bp != NULL ==>
        && 0 <= k < |blocks| && blocks[k].bp == bp && blocks[k].alloc && asize <= blocks[k].size
        && NoAllocAt(old(blocks), bp)
      ensures bp != NULL ==>
        var n := |old(blocks)|; var es := ExtendSpec(old(blocks), old(heap.mem.Brk()), EL.Max(asize, CHUNKSIZE));
        var cs, cl := CoalesceSpec(es, n), AfterCoalesce(es, n, old(free));
        && 0 <= k < |cs| && cs[k].bp == bp
        && blocks == PlaceSpec(cs, k, asize) && free == PlaceList(cs, k, asize, cl)
      ensures old(AllListed()) ==> AllListed()
    {
      var extendsize := EL.Max(asize, CHUNKSIZE);
      ghost var bs, m0 := blocks, heap.mem;
      EL.EvenWords(extendsize);
      bp, k := ExtendHeap(extendsize / WSIZE);
      if bp == NULL {
        return;
      }
      ghost var cs, m1 := blocks, heap.mem;
      EL.ExtendKeepsAllocated(m0, bs, EL.ExtendBytes(extendsize / WSIZE));
      PlaceAt(bp, asize, k);
      EL.LiveBlocksStay(bs, cs, blocks, bp);
      LiveKeptSub(m1, heap.mem, bs, cs);
      LiveKeptTrans(m0, m1, heap.mem, bs);
    }

    /**
     * mm_realloc(bp, size) on an allocated block while every free block is
     * listed: size 0 frees the block and returns NULL; otherwise a new
     * block from mm_malloc (NULL, with nothing changed, when there is
     * none) receives min(size, old block size - 8 + 1) bytes of the old
     * payload, and the old block is freed. It faults exactly when the new
     * block comes from a heap extension whose old last block was
     * allocated.
     */
    method Realloc(bp: int, size: nat, ghost k: int) returns (r: int, ghost j: int)
      requires Valid() && AllListed() && 0 <= k < |blocks| && blocks[k].bp == bp && blocks[k].alloc
      modifies this, heap
      ensures Valid() && heapListp == old(heapListp)
      ensures LiveKept(old(heap.mem), heap.mem, FreeSpec(old(blocks), k))
      ensures size == 0 ==>
        && r == NULL
        && blocks == CoalesceSpec(FreeSpec(old(blocks), k), k)
        && free == AfterCoalesce(FreeSpec(old(blocks), k), k, old(free))
      ensures size > 0 && r == NULL ==> heap.mem == old(heap.mem) && blocks == old(blocks) && free == old(free)
      ensures heap.fault == (old(heap.fault) ||
        (size > 0 && r != NULL && FitIndex(old(heap.mem), old(free), AdjustedSize(size)) == |old(free)| && !EndFree(old(blocks))))
      ensures r != NULL ==>
        && 0 <= j < |blocks| && blocks[j].bp == r && blocks[j].alloc && size + DSIZE <= blocks[j].size
        && NoAllocAt(old(blocks), r)
        && NoAllocAt(blocks, bp)
        && AllocKept(old(blocks), k, blocks)
        && EL.SameBytes(old(heap.mem), bp, heap.mem, r, EL.Min(size, old(blocks)[k].size - DSIZE + 1))
    {
      j := -1;
      if size == 0 {
        ExactDetachable(heap.mem, blocks, free, k);
        Free(bp, k);
        return NULL, j;
      }
      r, j := Resize(bp, size, k);
    }

    /** mm_realloc for a size above 0: mm_malloc, then the copy and the mm_free when it returned a block. */
    method Resize(bp: int, size: nat, ghost k: int) returns (r: int, ghost j: int)
      requires Valid() && AllListed() && 0 <= k < |blocks| && blocks[k].bp == bp && blocks[k].alloc && size > 0
      modifies this, heap
      ensures Valid() && heapListp == old(heapListp)
      ensures LiveKept(old(heap.mem), heap.mem, FreeSpec(old(blocks), k))
      ensures r == NULL ==> heap.mem == old(heap.mem) && blocks == old(blocks) && free == old(free)
      ensures heap.fault == (old(heap.fault) ||
        (r != NULL && FitIndex(old(heap.mem), old(free), AdjustedSize(size)) == |old(free)| && !EndFree(old(blocks))))
      ensures r != NULL ==>
        && 0 <= j < |blocks| && blocks[j].bp == r && blocks[j].alloc && size + DSIZE <= blocks[j].size
        && NoAllocAt(old(blocks), r)
        && NoAllocAt(blocks, bp)
        && AllocKept(old(blocks), k, blocks)
        && EL.SameBytes(old(heap.mem), bp, heap.mem, r, EL.Min(size, old(blocks)[k].size - DSIZE + 1))
    {
      ghost var bs0, m0 := blocks, heap.mem;
      r, j := MallocListed(size);
      if r == NULL {
        LiveKeptRefl(heap.mem, FreeSpec(bs0, k));
        return;
      }
      j := Move(bp, r, size, bs0, m0, k, j);
    }

    /** realloc's mm_malloc(size) while every free block is listed, which it keeps so; it faults only on a block from an extension after an allocated last block. */
    method MallocListed(size: nat) returns (bp: int, ghost k: int)
      requires Valid() && AllListed() && size > 0
      modifies this, heap
      ensures Valid() && AllListed() && heapListp == old(heapListp)
      ensures LiveKept(old(heap.mem), heap.mem, old(blocks))
      ensures bp == NULL ==> heap.mem == old(heap.mem) && blocks == old(blocks) && free == old(free)
      ensures heap.fault == (old(heap.fault) ||
        (bp != NULL && FitIndex(old(heap.mem), old(free), AdjustedSize(size)) == |old(free)| && !EndFree(old(blocks))))
      ensures bp != NULL ==>
        && 0 <= k < |blocks| && blocks[k].bp == bp && blocks[k].alloc && size + DSIZE <= blocks[k].size
        && AllocIn(old(blocks), blocks) && NoAllocAt(old(blocks), bp)
    {
      ExactTail(heap.mem, blocks, free);
      bp, k := Malloc(size);
    }

    /** mm_realloc once mm_malloc returned the block r: copy the old payload over, then free the old block. */
    method Move(bp: int, r: int, size: nat, ghost bs0: seq<Blk>, ghost m0: Mem, ghost k: int, ghost j: int) returns (ghost j': int)
      requires Valid() && AllListed() && Heap(m0, bs0) && 0 <= k < |bs0| && bs0[k].bp == bp && bs0[k].alloc
      requires AllocIn(bs0, blocks) && NoAllocAt(bs0, r)
      requires LiveKept(m0, heap.mem, bs0)
      requires 0 <= j < |blocks| && blocks[j].bp == r && blocks[j].alloc && size + DSIZE <= blocks[j].size
      modifies this, heap
      ensures Valid() && heapListp == old(heapListp) && heap.fault == old(heap.fault)
      ensures LiveKept(m0, heap.mem, FreeSpec(bs0, k))
      ensures 0 <= j' < |blocks| && blocks[j'].bp == r && blocks[j'].alloc && size + DSIZE <= blocks[j'].size
      ensures NoAllocAt(blocks, bp)
      ensures AllocKept(bs0, k, blocks)
      ensures EL.SameBytes(m0, bp, heap.mem, r, EL.Min(size, bs0[k].size - DSIZE + 1))
    {
      ghost var bs1, m1 := blocks, heap.mem;
      assert Heap(m1, bs1);
      assert bs0[k] in bs1;
      ghost var k1 :| 0 <= k1 < |bs1| && bs1[k1] == bs0[k];
      assert j != k1;
      var n := CopyOver(bp, r, size, k1, j);
      assert n == EL.Min(size, bs0[k].size - DSIZE + 1);
      ghost var m2 := heap.mem;
      FreeOld(bp, k1);
      j' := EL.MoveDone(m0, m1, m2, heap.mem, bs0, k, bs1, j, k1, n, blocks);
    }

    /** mm_realloc's mm_free(old_bp) while every free block is listed: no fault, and only blocks[k] stops being allocated. */
    method FreeOld(bp: int, ghost k: int)
      requires Valid() && AllListed() && 0 <= k < |blocks| && blocks[k].bp == bp && blocks[k].alloc
      modifies this, heap
      ensures Valid() && heapListp == old(heapListp) && heap.fault == old(heap.fault)
      ensures LiveKept(old(heap.mem), heap.mem, FreeSpec(old(blocks), k))
      ensures NoAllocAt(blocks, bp)
      ensures AllocKept(old(blocks), k, blocks)
    {
      ExactDetachable(heap.mem, blocks, free, k);
      Free(bp, k);
    }

    /** mm_realloc's memcpy from the old block blocks[k] into the new block blocks[j]. */
    method CopyOver(bp: int, r: int, size: nat, ghost k: int, ghost j: int) returns (n: int)
      requires Valid() && 0 <= k < |blocks| && blocks[k].bp == bp && blocks[k].alloc
      requires 0 <= j < |blocks| && j != k && blocks[j].bp == r && blocks[j].alloc && size + DSIZE <= blocks[j].size
      modifies heap
      ensures Valid() && heap.fault == old(heap.fault)
      ensures n == EL.Min(size, blocks[k].size - DSIZE + 1) && heap.mem == old(heap.mem).Copied(r, bp, n)
      ensures LiveKept(old(heap.mem), heap.mem, FreeSpec(blocks, j))
    {
      ghost var m1 := heap.mem;
      n := EL.CopyPayload(heap, bp, r, size, blocks, k, j);
      PayloadShape(m1, heap.mem, DLINKS, explicitListp, blocks, free, j);
    }

    /**
     * mm_init: ask for six words and lay out padding, prologue (with its two
     * NULL link words) and epilogue, make the prologue the list's head,
     * extend the heap by CHUNKSIZE bytes, then push the prologue on the
     * list. Returns -1 when either request for memory is refused. The
     * first chunk is left off the list with NULL links, and the prologue's
     * two link words end up holding its own address.
     */
    method Init() returns (r: int)
      requires heap.Valid() && heap.mem.Brk() == heap.mem.lo
      modifies this, heap
      ensures r == 0 || r == -1
      ensures r == 0 <==> old(heap.mem.lo) + 6 * WSIZE + CHUNKSIZE <= heap.maxAddr
      ensures old(heap.mem.lo) + 6 * WSIZE <= heap.maxAddr ==> Valid() && TailReady()
      ensures heap.fault == old(heap.fault) && heap.mem.lo == old(heap.mem.lo)
      ensures r == 0 ==>
        var pro, first := Prologue(heap.mem), FirstBp(heap.mem);
        && heap.mem.Brk() == first + CHUNKSIZE
        && blocks == [Blk(first, CHUNKSIZE, false)] && free == [] && NullLinks(heap.mem, first)
        && explicitListp == pro && heap.mem.Get(pro) as int == pro && heap.mem.Get(pro + WSIZE) as int == pro
    {
      var p := heap.Sbrk(6 * WSIZE);
      heapListp := p;
      if p == -1 {
        return -1;
      }
      r := Setup(p);
    }

    /** The rest of mm_init once the six words are there. */
    method Setup(p: int) returns (r: int)
      requires heap.Valid() && heapListp == p == heap.mem.lo && heap.mem.Brk() == p + 6 * WSIZE
      modifies this, heap
      ensures Valid() && TailReady() && heap.fault == old(heap.fault) && heap.mem.lo == old(heap.mem.lo)
      ensures r == 0 || r == -1
      ensures r == 0 <==> p + 6 * WSIZE + CHUNKSIZE <= heap.maxAddr
      ensures r == 0 ==>
        var pro, first := Prologue(heap.mem), FirstBp(heap.mem);
        && heap.mem.Brk() == first + CHUNKSIZE
        && blocks == [Blk(first, CHUNKSIZE, false)] && free == [] && NullLinks(heap.mem, first)
        && explicitListp == pro && heap.mem.Get(pro) as int == pro && heap.mem.Get(pro + WSIZE) as int == pro
    {
      LayPrologue(p);
      var bp := FirstExtend();
      if bp == NULL {
        return -1;
      }
      PushPrologue();
      r := 0;
    }

    /** mm_init's six stores and explicit_listp = heap_listp + DSIZE: a heap with no block, headed by the prologue. */
    method LayPrologue(p: int)
      requires heap.Valid() && heapListp == p == heap.mem.lo && heap.mem.Brk() == p + 6 * WSIZE
      modifies this, heap
      ensures Valid() && blocks == [] && free == [] && explicitListp == Prologue(heap.mem)
      ensures heapListp == old(heapListp) && heap.fault == old(heap.fault)
      ensures heap.mem.lo == old(heap.mem.lo) && heap.mem.Brk() == old(heap.mem.Brk())
    {
      InitSound(heap.mem);
      EL.WritePrologue(heap, p);
      explicitListp := p + DSIZE;
      blocks, free := [], [];
    }

    /** mm_init's extend_heap(CHUNKSIZE / WSIZE) on a heap with no block: the first chunk, left off the list. */
    method FirstExtend() returns (bp: int)
      requires Valid() && blocks == [] && free == []
      modifies this, heap
      ensures Valid() && TailReady() && heapListp == old(heapListp) && heap.fault == old(heap.fault)
      ensures heap.mem.lo == old(heap.mem.lo) && explicitListp == old(explicitListp)
      ensures bp == NULL <==> old(heap.mem.Brk()) + CHUNKSIZE > heap.maxAddr
      ensures bp == NULL ==> heap.mem == old(heap.mem) && blocks == [] && free == []
      ensures bp != NULL ==>
        && bp == old(heap.mem.Brk()) && heap.mem.Brk() == bp + CHUNKSIZE
        && blocks == [Blk(bp, CHUNKSIZE, false)] && free == [] && NullLinks(heap.mem, bp)
    {
      EL.EvenWords(CHUNKSIZE);
      ghost var es := ExtendSpec([], heap.mem.Brk(), CHUNKSIZE);
      assert Alone(es, 0) && !EndFree([]);
      EL.FirstChunk(heap.mem.Brk(), CHUNKSIZE);
      ghost var k;
      bp, k := ExtendHeap(CHUNKSIZE / WSIZE);
    }

    /** mm_init's last step, insert_in_head(heap_listp + DSIZE), while the list is empty: the prologue is linked to itself. */
    method PushPrologue()
      requires Valid() && free == [] && explicitListp == Prologue(heap.mem)
      modifies this, heap
      ensures Valid() && heap.fault == old(heap.fault) && heap.mem.lo == old(heap.mem.lo) && heap.mem.Brk() == old(heap.mem.Brk())
      ensures heapListp == old(heapListp) && blocks == old(blocks) && free == old(free)
      ensures var pro := Prologue(heap.mem);
        && explicitListp == pro && heap.mem.Get(pro) as int == pro && heap.mem.Get(pro + WSIZE) as int == pro
      ensures forall x :: x != Prologue(heap.mem) - WSIZE && x != Prologue(heap.mem) && x != Prologue(heap.mem) + WSIZE ==>
        NullLinks(heap.mem, x) == old(NullLinks(heap.mem, x))
    {
      InsertSelf(heap.mem, blocks);
      InsertInHead(heapListp + DSIZE);
    }

    /**
     * mm_init followed by the first mm_malloc, with room for both: the
     * first chunk is off the list, so find_fit finds nothing, and the
     * heap extension merges the new block with the first chunk and
     * unlinks that chunk through its NULL links, which faults.
     */
    method InitThenMalloc(size: nat) returns (r: int, bp: int)
      requires heap.Valid() && !heap.fault && heap.mem.Brk() == heap.mem.lo && 0 < size
      requires heap.mem.lo + 6 * WSIZE + CHUNKSIZE + EL.Max(AdjustedSize(size), CHUNKSIZE) <= heap.maxAddr
      modifies this, heap
      ensures r == 0 && bp != NULL && heap.fault
    {
      r := Init();
      ghost var k: int;
      bp, k := Malloc(size);
    }
  }
}
