# Explicit free-list allocator

This project models a malloc-lab style heap allocator in two versions.
Both keep an explicit, doubly linked LIFO list of free blocks inside one
heap that grows through `mem_sbrk`:

- `mm.c`, the working version, is module `ExplicitList`.
- `mm_todo_debug.c`, an unfinished variant, is module `TodoDebug`. It is
  modelled as written, including its faults.

Every block carries a header and a footer word that hold `size | alloc`.
Blocks lie between a 16-byte allocated prologue and a 0-byte allocated
epilogue. The prologue also ends the free list, because `find_fit` stops at
the first header that reads as allocated. Free blocks store their
predecessor and successor links in their first two payload words:

- in `mm.c` the predecessor is at `bp` and the successor at `bp + 4`;
- in `mm_todo_debug.c` the two are swapped.

## Modules

- `MemLib` (`memlib.dfy`) is the heap memory: 32-bit words from `lo` up to
  the break.
  - Class `Memory` provides `mem_sbrk` (`Sbrk`), `GET` (`Load`), `PUT`
    (`Store`) and `memcpy` (`Copy`).
  - A load or store outside the heap is undefined behaviour in C. Here it
    sets a sticky `fault` flag, and a store that faults changes nothing.
- `Codec` (`codec.dfy`) holds the tag macros and mm_malloc's adjusted size.
  - `PACK`, `GET_SIZE` and `GET_ALLOC` are defined arithmetically.
  - They are proved equal to the bitwise operations they are written as
    (`MacrosAreBitwise`).
- `HeapShape` (`heap_shape.dfy`) is the ghost view of a heap.
  - It describes the blocks as a sequence of `Blk(bp, size, alloc)` that
    tiles the heap, and the free list as the sequence of its members.
  - It defines the invariant that ties both to memory. `Shape` says the
    sentinels are in place, every block's header and footer match it, and
    every list member is a free block linked to its neighbours.
  - It gives the effect of coalesce, place, free and extend_heap on the
    two sequences (`CoalesceSpec`/`CoalesceList`, `PlaceSpec`/`PlaceList`,
    `FreeSpec`, `ExtendSpec`), with lemmas that these keep the invariant.
- `ExplicitList` (`mm.dfy`) models `mm.c`.
  - Each routine is a method of class `Allocator`, or a module-level method
    over a `Memory`, that performs the routine's loads and stores in order.
  - The class's ghost fields `blocks` and `free` follow the heap. `Valid()`
    holds between calls, with these parts:
    - the heap has the shape above;
    - every free block is on the list, exactly once;
    - no two neighbouring blocks are both free;
    - no access has faulted.
- `TodoDebug` (`mm_todo_debug.dfy`) models `mm_todo_debug.c` the same way.
  - It reuses `Codec`, `HeapShape` and the memory model.
  - Its invariant lets free blocks stay off the list, because this version's
    coalesce does not list a block whose neighbours are both allocated.
  - Its contracts state when an access faults.

Addresses are absolute byte addresses. The heap starts at a positive,
8-aligned `lo` and never grows past 2^32, so a pointer fits in a heap word.
This is the 32-bit build that both files' 4-byte link words require.

## Model

| member | source | states |
|---|---|---|
| MemLib.Memory.Sbrk | mm.c:138 | mem_sbrk: either returns the old break, having grown the heap by incr bytes of zeroed words, or returns -1 with memory unchanged when the break would pass the limit |
| MemLib.Memory.Load | mm.c:59 | GET: returns the word at p and faults exactly when p is not a heap word |
| MemLib.Memory.Store | mm.c:62 | PUT: writes v at p. When p is outside the heap it faults exactly then and writes nothing |
| MemLib.Memory.Copy | mm.c:234 | memcpy: memory becomes Copied(dst, src, n) and nothing faults |
| MemLib.Mem.Copied | mm.c:234 | after the copy, the first n bytes from dst equal the n bytes from src as they were. Every word outside [dst, dst+n) is unchanged, and the heap keeps its bounds and its well-formedness |
| MemLib.Mem.Grow | mm.c:250 | growing by n words keeps every old word, adds words that read 0, moves the break up by 4n and keeps well-formedness |
| MemLib.Mem.Set | mm.c:62 | a store inside the heap writes v at p, changes no other word and keeps well-formedness |
| MemLib.Mix | mm.c:234 | a partial-word copy of r bytes leaves the word's low r bytes equal to the source word's |
| Codec.Pack | mm.c:53 | PACK of an even size adds the allocated bit to it |
| Codec.MacrosAreBitwise | mm.c:53-76 | PACK is bitwise OR, GET_SIZE is AND with ~0x7 as a 32-bit word, and GET_ALLOC is AND with 1, for every input |
| Codec.SizeMaskClearsLowBits | mm.c:69 | masking with ~0x7 clears exactly the three low bits of a 32-bit word |
| Codec.PackRoundTrip | mm.c:53-76 | GET_SIZE and GET_ALLOC read back an 8-aligned size and a 0/1 bit from PACK |
| Codec.AdjustedSize | mm.c:174-177 | the adjusted size is a multiple of 8, at least 16 and at least size + 8. It is 16 or less than size + 16, so it is the least such multiple |
| Codec.AdjustedSize32 | mm.c:177 | the same computation in a 32-bit size_t agrees with AdjustedSize whenever size + 15 does not wrap |
| Codec.AdjustedSize32Wraps | mm.c:177 | a request of 2^32 - 15 bytes is adjusted to 0 as written, while it needs 2^32 |
| HeapShape.Bounds | mm.c:83-98 | every block of a tiling lies inside the heap, and its payload address is 8-aligned |
| HeapShape.Disjoint | mm.c:83-98 | two different blocks of a tiling share no byte |
| HeapShape.UniqueBp | mm.c:83-98 | two blocks with the same payload address are the same block |
| HeapShape.Decode | mm.c:69-86 | on a heap with the shape, block k's header decodes to its size and allocated bit, FTRP finds its footer, and the footer carries the same bit |
| HeapShape.NextNeighbour | mm.c:92 | NEXT_BLKP finds the next block, or the epilogue at the break, which reads as allocated |
| HeapShape.PrevNeighbour | mm.c:98 | PREV_BLKP finds the previous block, or the prologue, whose footer reads as allocated |
| HeapShape.StoreKeepsHeap | mm.c:62 | a store at no tag and no sentinel keeps the tiling and the tags |
| HeapShape.StoreKeepsLinks | mm.c:102-104 | a store at none of the list's link words keeps the list |
| HeapShape.LinksInsert | mm.c:358-364 | the three link values insert_in_head writes make the list, read from x, equal to x followed by the old list |
| HeapShape.LinksRemoveHead | mm.c:370-374 | after the head's successor gets a NULL predecessor, the list read from that successor is the old list without its head |
| HeapShape.LinksRemoveInner | mm.c:375-379 | after fl[k]'s neighbours are linked to each other, the list is fl without fl[k] |
| HeapShape.Without | mm.c:367-380 | removing x shortens the list by one exactly when x is in it |
| HeapShape.WithoutMembers | mm.c:367-380 | removing x from a list without repetitions removes x and nothing else, and keeps it without repetitions |
| HeapShape.FitIndex | mm.c:313-327 | first fit: every member before the returned position is too small, and the member at it, if any, is large enough |
| HeapShape.MergedTiles | mm.c:263-310 | the merged block covers exactly the bytes of the blocks it replaces |
| HeapShape.CoalesceTiles | mm.c:263-310 | coalescing keeps the tiling and keeps every allocated block |
| HeapShape.CoalesceListed | mm.c:263-310 | after coalescing, the list names free blocks only, each once |
| HeapShape.CoalesceExact | mm.c:263-310 | after coalescing, every free block is on the list |
| HeapShape.CoalesceCoalesced | mm.c:263-310 | after coalescing, no two neighbouring blocks are both free |
| HeapShape.CoalesceKeepsShape | mm.c:263-310 | coalesce's effect on the block and list sequences. The input has bs[k] free and off the list, the only block that may be off it or next to a free block. The result tiles the same bytes, lists every free block exactly once, has no two free neighbours, and keeps every allocated block |
| HeapShape.CoalesceCovers | mm.c:289-303 | the merged block sits at position MergeLo, is free and contains bs[k] |
| HeapShape.CoalesceAlone | mm.c:270-274 | when both neighbours are allocated, coalesce changes no block, and the list only gains bs[k] in front |
| HeapShape.CoalesceFreed | mm.c:263-310 | after coalescing around a free block, no allocated block has its payload address |
| HeapShape.CoalesceProbe | mm.c:265-267 | coalesce's three loads: where the neighbours are, whether each is allocated, and bs[k]'s own size |
| HeapShape.MergeReady | mm.c:280-300 | the merged block's tag words are in the heap, and its size is the sum of the sizes it absorbs |
| HeapShape.MergeShape | mm.c:280-303 | writing the merged tags over blocks that are all off the list gives the shape for CoalesceSpec |
| HeapShape.RemainderNew | mm.c:344 | the address asize bytes into a block that place splits is no block's payload address |
| HeapShape.PlaceTiles | mm.c:331-355 | placing keeps the tiling and the other blocks as they were |
| HeapShape.PlaceKeepsShape | mm.c:331-355 | place's effect on the sequences. The block at bp becomes allocated with at least asize bytes, exactly asize unless the rest would be under 16. The tiling, the exact list and the no-free-neighbours rule are kept, and so is every other block |
| HeapShape.FreeSpec | mm.c:198-204 | marking block k free keeps the number of blocks and makes block k free |
| HeapShape.FreePending | mm.c:198-206 | marking an allocated block free leaves it the only block off the list and the only one that may have a free neighbour |
| HeapShape.FreeShape | mm.c:200-204 | mm_free's two tag stores keep the shape with block k free and change no allocated block |
| HeapShape.ExtendSpec | mm.c:254-256 | extend_heap adds exactly one free block, at the old break |
| HeapShape.ExtendTiles | mm.c:254-256 | a block appended at the end keeps the tiling, and the list's members stay free blocks |
| HeapShape.ExtendPending | mm.c:254-259 | the appended free block is the only block off the list and the only one that may have a free neighbour |
| HeapShape.ExtendShape | mm.c:249-256 | extend_heap's stores after mem_sbrk turn the old epilogue into the header of a free block of size bytes, followed by its footer and a new epilogue. This keeps the shape and every allocated block |
| HeapShape.ExtendTags | mm.c:254-255 | the new block's tags are in place, after the old blocks |
| HeapShape.ExtendSentinels | mm.c:256 | after extend_heap the old sentinels are below the new block, and the new epilogue is at the new break |
| HeapShape.ExtendLinks | mm.c:249-256 | every link word lies below the old epilogue, so extend_heap keeps the list |
| HeapShape.ExtendLive | mm.c:249-256 | every allocated block lies below the old epilogue, so extend_heap keeps its bytes |
| HeapShape.TagPair | mm.c:203-204 | PUT(HDRP(bp), v) followed by PUT(FTRP(bp), v): FTRP reads the new header and finds the block's last word, both tags then hold v, and nothing outside the block changes |
| HeapShape.FreeHeader | mm.c:318-320 | a free block's header is in the heap, reads as free and holds the block's size |
| HeapShape.PrologueHeader | mm.c:318 | the prologue's header is in the heap and reads as allocated, so the list walk stops there |
| HeapShape.AllocUnlisted | mm.c:198-206 | an allocated block is never on the list |
| HeapShape.PayloadShape | mm.c:234 | rewriting an allocated block's payload keeps the shape and every other allocated block |
| HeapShape.SplitTags | mm.c:342-346 | place's four tag stores when it splits: an allocated front piece, then the free remainder |
| HeapShape.SlotWords | mm.c:102-104 | the link words of a free block or of the prologue are in the heap, are no tag, and lie in no allocated block |
| ExplicitList.Trunc | mm.c:280 | a size_t value below 2^32 is stored unchanged |
| ExplicitList.InsertOk | mm.c:358-364 | insert_in_head on a free block that is off the list makes it the head, with the old list after it. It faults nowhere and changes no tag and no allocated block |
| ExplicitList.InsertLinks | mm.c:360-363 | after insert_in_head's stores, the list read from x is x followed by the old list |
| ExplicitList.RemoveOk | mm.c:367-380 | remove_block on a listed block drops it from the list. It faults nowhere and changes no tag and no allocated block |
| ExplicitList.RemoveHeadShape | mm.c:370-374 | the head's branch: the list loses its head, and the head's successor becomes the new head |
| ExplicitList.RemoveInnerShape | mm.c:375-379 | the other branch: the list loses fl[i] and keeps the rest in order |
| ExplicitList.InnerStores | mm.c:377-378 | when the first store misses bp's own links, the second store writes what bp's links held at the start |
| ExplicitList.SetTagsOk | mm.c:203-204 | writing a block's two tags stays inside the heap, makes them the block's, and writes nothing outside it |
| ExplicitList.MergeListed | mm.c:279-299 | the free neighbours coalesce unlinks are on the list. The next one is still there after the previous one is unlinked |
| ExplicitList.MergeTagsShape | mm.c:263-310 | whichever case runs, unlinking the neighbours and writing the merged tags yields CoalesceSpec. What remains of the list is CoalesceRest |
| ExplicitList.MergeNextTags | mm.c:279-282 | case 2: bp's size plus the size in the next block's header, written into bp's tags, makes the merged block |
| ExplicitList.MergePrevTags | mm.c:288-292 | case 3: the previous block's header size is added to bp's and written into the previous block's tags |
| ExplicitList.MergeBothLoads | mm.c:298-300 | case 4's loads: the previous header size, the next block's footer size and bp's size add up to the merged size |
| ExplicitList.MergeBothSecond | mm.c:301-303 | case 4's two stores leave PACK(size, 0) in both tags of the merged block and change nothing outside it |
| ExplicitList.SplitFront | mm.c:342-344 | place's first two stores tag the front piece with PACK(asize, 1), and NEXT_BLKP then finds the remainder |
| ExplicitList.SplitRest | mm.c:345-346 | place's last two stores tag the remainder with PACK(fsize - asize, 0), so the block's bytes hold both pieces |
| ExplicitList.PlaceTagsShape | mm.c:331-355 | after unlinking and the tag stores, the blocks are PlaceSpec. A remainder is a free block not yet on the list |
| ExplicitList.PlaceGood | mm.c:331-355 | place's stores leave the full invariant for PlaceSpec and PlaceList, whichever branch ran |
| ExplicitList.PlaceKeepsAllocated | mm.c:331-355 | every allocated block before place is an allocated block after it |
| ExplicitList.Placed | mm.c:331-355 | place leaves an allocated block at bp with at least asize bytes. Every block allocated before stays allocated, and none of them was at bp |
| ExplicitList.RemainderFree | mm.c:344-348 | the split-off remainder is a free block of the new heap that is not on the list when it is pushed |
| ExplicitList.FreeOk | mm.c:198-204 | mm_free's load and stores on an allocated block make it free. It is then the one block off the list that coalesce has to settle |
| ExplicitList.FreeKeeps | mm.c:198-207 | after mm_free no allocated block is at the freed address, and every other allocated block is still there |
| ExplicitList.WalkStep | mm.c:318 | at list position i, the header reads as free and the successor link holds the next member. At the end of the list the walk reaches the prologue, whose header reads as allocated |
| ExplicitList.FitIndexAt | mm.c:318-323 | a walk that passed positions 0..i-1 without a fit and stops at i stops at FitIndex |
| ExplicitList.FitBlock | mm.c:320-322 | the block find_fit returns is a free block of the heap with at least asize bytes |
| ExplicitList.FitNone | mm.c:326 | when find_fit returns NULL, no free block of the heap has asize bytes |
| ExplicitList.ExtendBytes | mm.c:249 | the request is rounded up to an even number of words: a multiple of 8, at least 4·words and at most 4·words + 4 bytes |
| ExplicitList.EvenWords | mm.c:187-188 | a request that is a multiple of 8 bytes is taken as it is |
| ExplicitList.ExtendOk | mm.c:249-256 | after mem_sbrk, extend_heap's stores stay in the heap and add one free block at the old break. It is the only block off the list and the only one that may have a free neighbour |
| ExplicitList.ExtendWrites | mm.c:254-256 | the three stores write the new block's tags and the epilogue, and change only words from the old epilogue on |
| ExplicitList.ExtendKeepsAllocated | mm.c:243-260 | every allocated block before extend_heap is an allocated block after its coalesce |
| ExplicitList.ExtendMerged | mm.c:259 | the block coalesce makes of a new last block is free, no smaller, and not at NULL |
| ExplicitList.CopySize | mm.c:231 | realloc's copy bound, GET(HDRP(old)) - DSIZE, is the old block's payload plus one, because the header word includes the allocated bit |
| ExplicitList.ReallocRanges | mm.c:231-234 | realloc's copy reads inside the old block and writes inside the new payload, and the two ranges are apart |
| ExplicitList.ReallocBytes | mm.c:226-237 | the copied bytes survive the mm_malloc before the copy and the mm_free after it |
| ExplicitList.MoveDone | mm.c:226-239 | after malloc, copy and free, the copied bytes are at the new block, the new block is still allocated, and the old one is not |
| ExplicitList.ReallocKept | mm.c:212-240 | the allocated blocks other than the one realloc moves keep their bytes through the malloc, the copy and the free |
| ExplicitList.InitShape | mm.c:141-149 | mm_init's six words form a heap with no block and an empty list headed by the prologue |
| ExplicitList.FirstChunk | mm.c:152 | the first extension of an empty heap leaves one free block of CHUNKSIZE bytes, alone on the list |
| ExplicitList.WritePrologue | mm.c:141-146 | mm_init's six stores are all inside the fresh heap and write the padding, prologue and epilogue words |
| ExplicitList.PrevBlk | mm.c:98 | PREV_BLKP with its single load, of the previous footer |
| ExplicitList.NextBlk | mm.c:92 | NEXT_BLKP with its single load, of bp's header |
| ExplicitList.SetTags | mm.c:203-204 | PUT(HDRP(bp), w) and PUT(FTRP(bp), w), where the footer is found through the header just written |
| ExplicitList.ReadNeighbours | mm.c:265-267 | coalesce's loads return whether each neighbour is allocated, and bp's size |
| ExplicitList.JoinNext | mm.c:280-282 | case 2's loads and stores give the merged block's tags at bp |
| ExplicitList.JoinPrev | mm.c:289-292 | case 3's loads and stores give the merged block's tags and step bp back to the previous block |
| ExplicitList.JoinBoth | mm.c:300-303 | case 4's loads and stores give the merged block's tags and step bp back to the previous block |
| ExplicitList.SplitBlock | mm.c:342-346 | place's split stores, returning the remainder that NEXT_BLKP finds |
| ExplicitList.TakeWhole | mm.c:352-353 | place without a split writes PACK(fsize, 1) into both tags |
| ExplicitList.WriteChunk | mm.c:254-256 | extend_heap's three stores |
| ExplicitList.ClearTags | mm.c:200-204 | mm_free reads the size from the header and writes PACK(size, 0) into both tags |
| ExplicitList.CopyPayload | mm.c:231-234 | realloc copies min(size, header word - DSIZE) bytes from the old block to the new one, changing nothing outside the new block's payload |
| ExplicitList.Allocator.Init | mm.c:135-156 | mm_init returns 0 exactly when both sbrk calls fit, and -1 otherwise. After the first sbrk the invariant holds, and on success the heap holds one free CHUNKSIZE block, alone on the list |
| ExplicitList.Allocator.InsertInHead | mm.c:358-364 | insert_in_head makes a free block that is off the list the head of the list, with the old list after it. Allocated blocks and tags stay as they were |
| ExplicitList.Allocator.RemoveBlock | mm.c:367-380 | remove_block drops a listed block from the list, and nothing else changes |
| ExplicitList.Allocator.Malloc | mm.c:161-193 | mm_malloc(0) returns NULL. Otherwise it returns the first listed block that fits the adjusted size, or a block from an extension of max(asize, CHUNKSIZE) bytes, or NULL with nothing changed when the break cannot move. The block returned is allocated, was not allocated before, and holds at least size + 8 bytes. The new blocks and list are place's result: `PlaceSpec`/`PlaceList` on the fit, or on the coalesced extension (`CoalesceSpec`/`CoalesceList` of `ExtendSpec`), so the block is split exactly when the rest is at least 16 bytes and the remainder heads the list. Allocated blocks keep their place and bytes, and the invariant holds |
| ExplicitList.Allocator.FindFit | mm.c:313-327 | the list walk with its loop invariant returns the member at FitIndex, or NULL exactly when no member fits. It neither writes nor faults |
| ExplicitList.Allocator.ExtendHeap | mm.c:243-260 | extend_heap returns NULL with nothing changed exactly when the rounded request does not fit. Otherwise the blocks and the list are those coalesce gives for the appended free block, and the block returned is free and at least that large |
| ExplicitList.Allocator.Coalesce | mm.c:263-310 | coalesce makes the blocks CoalesceSpec and the list CoalesceList, returns the merged block and makes it the list's head. Every allocated block keeps its bytes |
| ExplicitList.Allocator.MergeNext | mm.c:277-283 | case 2: the next block is unlinked, and bp's tags hold the sum of the two sizes |
| ExplicitList.Allocator.MergePrev | mm.c:286-293 | case 3: the previous block is unlinked, and its tags hold the sum of the two sizes |
| ExplicitList.Allocator.MergeBoth | mm.c:296-304 | case 4: both neighbours are unlinked, the previous block first, and the three sizes are written into the merged tags |
| ExplicitList.Allocator.Place | mm.c:331-355 | place makes the blocks PlaceSpec and the list PlaceList, keeps the invariant and keeps every allocated block's bytes |
| ExplicitList.Allocator.Free | mm.c:198-207 | mm_free makes the blocks CoalesceSpec(FreeSpec) and the list CoalesceList. No allocated block is left at bp, every other allocated block keeps its place and bytes, and the invariant holds |
| ExplicitList.Allocator.Realloc | mm.c:212-240 | a size of 0 frees the block and returns NULL. A failed malloc returns NULL with nothing changed. Otherwise the new block holds the first min(size, header word - 8) bytes of the old one, the old block is freed, and other allocated blocks keep their bytes |
| ExplicitList.Allocator.CopyOver | mm.c:231-234 | realloc's memcpy between two different allocated blocks keeps the invariant |
| ExplicitList.Allocator.MarkFree | mm.c:200-204 | mm_free's stores leave the one block that coalesce then settles |
| TodoDebug.InsertOk | mm_todo_debug.c:373-379 | insert_in_head with the reversed link words, on a free block that is off the list, makes it the head with the old list after it, and faults nowhere |
| TodoDebug.InsertLinks | mm_todo_debug.c:375-378 | after insert_in_head's stores the list, read from x, is x followed by the old list |
| TodoDebug.InsertSelf | mm_todo_debug.c:172 | insert_in_head on the prologue while it heads the empty list makes both of its link words point to itself. The list stays empty, and nothing else changes |
| TodoDebug.RemoveOk | mm_todo_debug.c:381-402 | remove_block on a listed block drops it from the list, faults nowhere and changes no allocated block |
| TodoDebug.RemoveHeadShape | mm_todo_debug.c:384-390 | the head's branch: the list loses its head, and its successor becomes the head |
| TodoDebug.RemoveInnerShape | mm_todo_debug.c:391-401 | the other branch, with the printf loads: the list loses fl[i] |
| TodoDebug.StrayRemove | mm_todo_debug.c:391-399 | remove_block on a free block that is off the list with NULL links takes the second branch. The first printf load, through the NULL predecessor, misses the heap, and so do both stores. Memory is unchanged and the run faults |
| TodoDebug.UnlistedKept | mm_todo_debug.c:381-402 | unlinking a listed block keeps both link words of a free block that is off the list |
| TodoDebug.StillDetachable | mm_todo_debug.c:381-402 | remove_block(x) leaves another free block y still safe to unlink |
| TodoDebug.AfterCoalesce | mm_todo_debug.c:289-328 | except in case 1, the merged block heads the list after coalesce |
| TodoDebug.FreeOutcome | mm_todo_debug.c:216-225 | a freed block with two allocated neighbours is free but off the list. When every free block was listed, no neighbour is stray, and every free block stays listed exactly when a neighbour was free |
| TodoDebug.FreeLeak | mm_todo_debug.c:290-293 | a freed block with no free neighbour stays free and off the list after coalesce |
| TodoDebug.FreeListed | mm_todo_debug.c:216-225 | freeing while every free block is listed strays nowhere. All free blocks remain listed exactly when a neighbour was free |
| TodoDebug.CoalescedFree | mm_todo_debug.c:218-222 | marking a block free in a heap with no free neighbours leaves only that block next to free ones |
| TodoDebug.FooterFirstTags | mm_todo_debug.c:308-311 | case 3 writes the footer first. FTRP(bp) finds bp's footer through bp's unchanged header, and the header of PREV_BLKP(bp) is written second. Together they give the merged block's tags |
| TodoDebug.ExtendFresh | mm_todo_debug.c:274-276 | extend_heap's three stores leave the new block's link words as mem_sbrk left them: NULL |
| TodoDebug.FreeOk | mm_todo_debug.c:218-222 | mm_free's stores make the block free and off the list, the one block coalesce settles. Its neighbours stay as safe to unlink as they were |
| TodoDebug.ExtendOk | mm_todo_debug.c:269-276 | after mem_sbrk, the stores add one free block with NULL links, off the list, at the old break |
| TodoDebug.ExtendSettled | mm_todo_debug.c:279 | coalesce on the appended block merges it with the old last block exactly when that block is free, so case 1 runs exactly when it is allocated. The list stays exact exactly when the old last block was free |
| TodoDebug.ExactDetachable | mm_todo_debug.c:296-323 | when every free block is listed, coalesce's neighbours are safe to unlink and none is stray |
| TodoDebug.InitSound | mm_todo_debug.c:149-163 | mm_init's six words form a heap with no block and an empty list headed by the prologue |
| TodoDebug.JoinPrev | mm_todo_debug.c:308-311 | case 3's loads and stores, footer first, give the merged block's tags and step bp back |
| TodoDebug.Allocator.InsertInHead | mm_todo_debug.c:373-379 | insert_in_head on any bp performs its three stores and sets the head, faulting exactly when a store misses the heap |
| TodoDebug.Allocator.RemoveBlock | mm_todo_debug.c:381-402 | a listed block leaves the list. An unlisted block with NULL links faults and changes nothing |
| TodoDebug.Allocator.Coalesce | mm_todo_debug.c:283-329 | with both neighbours allocated, coalesce returns bp and changes nothing, so the block stays off the list. Otherwise the blocks become CoalesceSpec, the merged block is pushed, and a fault happens exactly when an absorbed neighbour was off the list |
| TodoDebug.Allocator.MergePrev | mm_todo_debug.c:305-312 | case 3: unlink the previous block and write the merged tags, footer first |
| TodoDebug.Allocator.Free | mm_todo_debug.c:216-225 | mm_free gives the blocks CoalesceSpec(FreeSpec), with no allocated block at bp and the other allocated blocks kept. A block with two allocated neighbours is left free but off the list. When every free block was listed it never faults, and all stay listed exactly when a neighbour was free |
| TodoDebug.Allocator.Place | mm_todo_debug.c:347-371 | place makes the blocks PlaceSpec and the list PlaceList. It faults exactly when bp was off the list |
| TodoDebug.Allocator.FindFit | mm_todo_debug.c:332-344 | the walk along the successor word at bp returns the member at FitIndex, or NULL exactly when none fits. It neither writes nor faults |
| TodoDebug.Allocator.ExtendHeap | mm_todo_debug.c:263-280 | NULL with nothing changed exactly when the request does not fit. Otherwise the new block is listed exactly when the old last block was free, and a fault happens exactly when that block was free but off the list |
| TodoDebug.Allocator.Malloc | mm_todo_debug.c:181-211 | zero returns NULL. Otherwise a first fit from the list, or a block from an extension. The extension path faults exactly when the last block was not a listed free block. Either the new block stays off the list and place's remove_block misses, or coalesce unlinks an unlisted last block. The new blocks and list are `PlaceSpec`/`PlaceList` on the fit, or on the extension after this version's coalesce (`CoalesceSpec`/`AfterCoalesce` of `ExtendSpec`) |
| TodoDebug.Allocator.Realloc | mm_todo_debug.c:232-260 | realloc as in mm.c. It faults exactly when the new block came from an extension after an allocated last block |
| TodoDebug.Allocator.Init | mm_todo_debug.c:142-175 | mm_init returns 0 exactly when both sbrk calls fit. On success the one CHUNKSIZE block is off the list, the list is empty, and the prologue's two link words point to the prologue itself |
| TodoDebug.Allocator.FirstExtend | mm_todo_debug.c:168 | the first extend_heap leaves one free CHUNKSIZE block with NULL links, off the list |
| TodoDebug.Allocator.PushPrologue | mm_todo_debug.c:172 | the final insert_in_head links the prologue to itself and leaves every other block's link words alone |
| TodoDebug.Allocator.InitThenMalloc | mm_todo_debug.c:168-210 | mm_init followed by the first mm_malloc, with room for both: init returns 0, malloc returns a block, and the run has faulted |

## Left out

- mem_sbrk is the model's `Sbrk` over a break bounded by a fixed maximum. The model grows the heap in whole words and does not model memlib's own bookkeeping or a real system break.
- Zero-filled growth: new heap words read 0, as with memlib's fresh memory. The model does not cover growth that leaves stale data.
- 32-bit pointers: link words hold 32-bit addresses, so the model is the 32-bit build. A 64-bit build, where `void *` stores of 8 bytes at offsets 0 and 4 overlap, is not modelled.
- Undefined behaviour is the sticky `fault` flag: a faulting store writes nothing, and a faulting load reads 0. What a real crash or memory corruption would do afterwards is not modelled.
- The debug `printf` calls in remove_block (mm_todo_debug.c:395-397) are modelled only as the loads they perform. Their output is not modelled.
- NULL passed to mm_free or mm_realloc: neither file handles it, and the model requires an allocated block.
- ExplicitList.Allocator.Malloc: uses the unbounded AdjustedSize rather than the 32-bit computation of mm.c:177 (see Findings), so requests within 15 bytes of 2^32 are not modelled as written.
- TodoDebug.Allocator.Malloc: uses the unbounded AdjustedSize like ExplicitList.Allocator.Malloc. It also requires `TailReady`: a free last block is listed or has NULL links. This excludes heaps where extend_heap's coalesce would unlink a block holding stale links.
- TodoDebug.Allocator.Free: requires `NeighboursDetachable`, meaning each free neighbour is listed or has NULL links. Without it, remove_block follows stale links, and the model does not capture those writes.
- TodoDebug.Allocator.Realloc: requires every free block to be listed, as mm.c keeps them. The as-written state in which mm_init leaves the first chunk unlisted is covered by InitThenMalloc instead.
- TodoDebug.Allocator.ExtendHeap: requires `TailReady`, for the same reason as Malloc.
- Payload bytes copied by memcpy are modelled word by word with a partial last word (`Mix`). Overlapping copies are excluded, and realloc never makes one.
- The `team` struct, `ALIGN`, `SIZE_T_SIZE`, and the headers mm.h and memlib.h are not part of this model.

## Findings

| source | as written | input that shows it | evidently intended | confidence | as-written member | corrected member |
|---|---|---|---|---|---|---|
| mm.c:177 | `DSIZE * ((size + DSIZE + (DSIZE - 1)) / DSIZE)` in a 32-bit size_t wraps for size ≥ 2^32 - 15 | size = 0xFFFFFFF1 gives asize = 0, a block with no room for the request | the least multiple of 8 that is at least size + 8, or a failed request | not executed | Codec.AdjustedSize32Wraps | Codec.AdjustedSize |
| mm_todo_debug.c:290-293 | coalesce case 1 returns without pushing the block, and mm_init (:172) pushes the prologue instead of the new chunk | mm_init, then mm_malloc(1): the chunk is off the list, find_fit returns NULL, the extension merges with the unlisted chunk, and remove_block follows NULL links | case 1 pushes the freed block on the list, as mm.c:270-274 does | not executed | TodoDebug.Allocator.InitThenMalloc | ExplicitList.Allocator.Coalesce |
