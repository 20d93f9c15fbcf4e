# A verified model of lmosem's memory management, number formatting and spinlock

lmosem is a small kernel for a 32-bit ARM board. These Dafny files model its three algorithmic parts and
prove what they promise.

**Memory.** `Words` gives 32- and 64-bit words with explicit wrap-around. `IntrusiveList` models
`list_head` rings as objects with `next` and `prev`. `BlockModel` describes the block layer as a value
(descriptors of 4 MB under bitmaps, on the rings of six size classes) and proves its laws; `PhysMem` is the
same layer as objects updated in place, proved to move exactly as the value does. `PoolModel` and
`PageModel` do this for page pools and for both layers together, `PagePool` for the objects, and
`AllocatorRuns` states safety and conservation over whole runs. `FullLists` and `FreeExactness` settle, by an
exact condition and an input each, where the two layers do less than their comments say; `BlockOrder` and
`CacheLaws` say which block, page and pool come next; `Board` instantiates the results for the one board.

**Numbers and text.** `Division` covers the ARM division routines and the 64-by-32-bit division, `Modulo` the
unsigned remainder with its faulty fix-up. `Numerals` says what a numeral is; `Decimal`, `Output`,
`NumberFormat`, `FormatSpec` and `Vsnprintf` model the formatter down to the writes into a bounded buffer;
`Strto`, `ScanSpec` and `Vsscanf` model the readers. `StandardField`, `StandardDirective` and `FormatLaws` compare
fields, directives and whole formats with those of the C standard, `ScanLaws` says what the pieces of a scan
format read, and `FieldMeaning` and `RoundTrip` relate printing to reading.

**Spinlock.** `Spinlock` interleaves the single instructions of any number of cores under an exclusive
monitor (section A3.4 of the ARMv7-A/R Architecture Reference Manual) and follows the CPSR through nested
and overlapping irqsave/irqrestore pairs; `SpinlockRuns` says when a lock word is set, builds runs
that take and release locks, and shows when the mask is lost.

Check everything with `dafny verify dfyconfig.toml` (Dafny 4.11).

## Assumptions

- For the invariants, SDRAM spaces are whole multiples of 4 MB, aligned to 4 MB, above address 0, and end at
  least 4 MB below 2^32, as the table in `hal/global.c:11` is.
- Each allocator call is one atomic step. The page layer takes one lock to allocate and another to free
  (`kernel/mem_pool.c:199`, `336`), so this fits one core with interrupts masked.
- Map pointers inside a pool are indices, -1 standing for NULL; a header is found from its list head by the
  address of its block. `sys_die` and the null dereference of `find_deleted_pool_head` are outcomes.
- A size is a 32-bit word; `char` is a byte value; an `int`, `long`, `size_t` or pointer argument fills one
  32-bit slot, a `long long` one 64-bit slot, a string is a slot of its own that ends at its first NUL.
- Texts are shorter than INT_MAX - 2 and end below 2^32, so that the `int` counters and the output pointer
  do not wrap; a directive whose width or precision overflows `int`, a missing or mismatched argument, and a
  negative number in base 8 or 16 have no text. A `%n` pointer does not point into the buffer.
- The library is built without `__LINUX_ARM_ARCH__`, so the branches for older cores apply.

## Where the code and its comments differ

- `list_empty` is true for an empty list; its comment says the opposite (`include/types/list.h:123-135`).
- `vscnprintf` with size 0 returns -1; its comment says 0 (`lib/vsprintf.c:655-668`).
- `SMALL` and `SPECIAL` are one bit (`lib/vsprintf.c:134`, `137`), a precision does not switch off the `0` flag,
  the number 0 is treated like any other under precision 0, `%#x` and `%#o`, and in bases 8 and 16 the digit
  loop never ends from 2^63 on (`lib/vsprintf.c:295-299`), all unlike section 7.19.6.1 of ISO/IEC 9899:1999.
  `StandardField.FieldIsStandardIff` gives the exact condition, and `FieldOfSeven`, `FieldOfZero`,
  `FieldOfLetters` and `FieldOfTwoTo63` an input for each.
- A negative `*` precision counts as 0 instead of none, and a signed size_t prints as unsigned.
  `StandardDirective.DirectiveIsStandardIff` says for which directives that shows, and `NegativePrecisionCuts`
  and `SizeTIsUnsigned` give the inputs.
- In scanning, the width of a number is ignored, `*` jumps over whole words, and a signed size_t does not get past
  a minus sign. `ScanLaws.WidthIgnoredIff`, `StarPassesNumberIff` and `SizeTMinus` give the conditions,
  `WidthIsIgnored` and `StarTakesTheRest` an input each.
- A full list may hold descriptors with free bits: a partial free leaves them there (`hal/mm.c:384-389`),
  although the comment at `hal/mm.c:199` says otherwise. `FullLists.FreeKeepsFullIff` says which frees do that,
  `AllocMissesIff` what it costs, and `FreedHalfIsStranded` gives the input.
- `delete_page_on_mplhead` takes an entry without successor for handed out (`kernel/mem_pool.c:268-273`),
  which is also true of the tail of the free chain. `FreeExactness.KeepsItsWordIff` and `SecondFreeIff` give the
  exact conditions, `Board.DoubleFree` and `Board.LostPage` an input each.
- `find_deleted_pool_head` cannot go on from a pool that is not the owner (`kernel/mem_pool.c:318-325`):
  `PageModel.FindOwnerIff` says when a live page can be freed, and `Board.SecondPoolFaults` gives the input.
- The comment in `__umodsi3` says that after an early end no test of the fix-up matches
  (`hal/lib/_umodsi3.S:65-67`). `Modulo.MisfiresIff` lists the operands for which one does.
- `spin_unlock_irqrestore` restores a CPSR whatever else is held: `Spinlock.UnlockKeepsMaskIff` says when that
  enables interrupts under another lock, and `SpinlockRuns.OutOfOrderUnmasks` gives the run.

## Model

| member | source | states |
|---|---|---|
| `IntrusiveList.InitListHead` | include/types/list.h:24-28 | a list head that is in no ring points at itself both ways, and all rings stay well formed |
| `IntrusiveList.ListAddTail` | include/types/list.h:30-80 | refines appending to the abstract sequence of one ring; `prev` of the anchor becomes the new node; every other ring is unchanged |
| `IntrusiveList.ListDel` | include/types/list.h:82-107 | refines removal from the sequence; the removed node's own fields keep their stale values |
| `IntrusiveList.ListDelInit` | include/types/list.h:109-114 | removal that leaves the node pointing at itself and loose from every ring |
| `IntrusiveList.ListMoveTail` | include/types/list.h:116-121 | remove and append in one, also when source and target are the same ring |
| `IntrusiveList.ListEmpty` | include/types/list.h:131-135 | true exactly when the abstract sequence is empty |
| `IntrusiveList.DelRealises` | include/types/list.h:82-87 | the two writes of __list_del, as an update of the link maps, realise the rings without that node: every other ring and every other position keeps its links |
| `IntrusiveList.AddTailRealises` | include/types/list.h:30-38 | the four writes of __list_add before the anchor realise the rings with the node appended and change no other ring |
| `IntrusiveList.NextPrevInverse` | include/types/list.h:30-38 | on well-formed rings `prev` undoes `next` at every position, the anchor included |
| `BlockModel.ClassReadBack` | hal/mm.c:243-247 | clearing the ACSZ nibble and or-ing a class in reads back as that class |
| `BlockModel.CutEndsIff` | hal/mm.c:18-35 | with 32-bit addresses the loop of init_core_mem_desc ends exactly for regions that end no later than their last 4 MB step below 2^32; beyond that it never ends |
| `BlockModel.CutIsWhole` | hal/mm.c:18-35 | a region of whole 4 MB pieces is cut into exactly those pieces, each blank with the 4 MB flags |
| `BlockModel.CutAllSound` | hal/mm.c:37-52 | over all SDRAM spaces every descriptor is whole, blank, inside a space and apart from the others |
| `BlockModel.StartInv` | hal/mm.c:101-146 | start-up establishes the block-layer invariant with the kernel's 128 KB as the only live block |
| `BlockModel.LiveBlocksDisjoint` | hal/mm.c:204-257 | in every state that satisfies the invariant no two live blocks overlap |
| `BlockModel.BlankIffOnEmpty` | hal/mm.c:382-389 | a descriptor is on the last slab's empty list exactly when none of its blocks is live; so a descriptor without live blocks is never stranded on a full list |
| `BlockModel.EmptyOnlyInLastClass` | hal/mm.c:101-129 | slabs 0 to 4 have an empty empty_list and slab 5 an empty partial_list |
| `BlockModel.AllocKeepsInv` | hal/mm.c:204-257 | each descriptor on one ring, its map and ACSZ nibble matching that ring: kept by every allocation |
| `BlockModel.AllocNullIff` | hal/mm.c:148-181 | NULL exactly when the size is not one of the six, or its partial list and the last empty list are both empty; then nothing changes |
| `BlockModel.AllocAddsOne` | hal/mm.c:204-326 | a successful allocation adds exactly one block of the size to the live set, aligned to the size, inside one descriptor, not live before |
| `BlockModel.NewBlock` | hal/mm.c:204-257 | the new block overlaps no live block |
| `BlockModel.FreeIff` | hal/mm.c:328-391 | TRUE exactly when the address lies in a live block of that size and is not a descriptor's last byte; FALSE changes nothing |
| `BlockModel.FreeKeepsInv` | hal/mm.c:356-391 | the invariant is kept by every free, accepted or not |
| `BlockModel.FreeRemovesOne` | hal/mm.c:356-391 | an accepted free removes exactly the live block that covers the address |
| `BlockModel.AllocThenFree` | hal/mm.c:319-460 | a free undoes the allocation before it: it is accepted and the live blocks are those of the beginning |
| `BlockModel.ClassChangesOnlyWhenBlank` | include/hal/mm.h:71-73 | a descriptor is cut into another block size only while none of its blocks is live: a 4 MB piece holds blocks of one size |
| `BlockOrder.AllocOrder` | hal/mm.c:183-257 | an allocation takes the lowest free block of the descriptor in front: the first partial one of the class, and a blank one only without such; the descriptor goes to the end of the full or partial list and nothing else moves |
| `BlockOrder.AllocsAlternate` | hal/mm.c:249-256 | two descriptors with free blocks of a class serve in turn |
| `BlockOrder.FreeOrder` | hal/mm.c:376-390 | a free moves no descriptor unless it drains one, and that goes to the end of the blank ones |
| `FullLists.StartFull` | hal/mm.c:112-129 | at start-up every descriptor on a full list is full, as the comment in find_desc_in_slab has it |
| `FullLists.AllocKeepsFull` | hal/mm.c:240-256 | every allocation keeps that |
| `FullLists.FreeKeepsFullIff` | hal/mm.c:376-390 | from a state that has it, a free keeps it exactly when it takes no block out of a full list of the five smaller classes |
| `FullLists.AllocMissesIff` | hal/mm.c:148-202 | an allocation fails although a block of its size is free exactly when partial list and last empty list are empty and a descriptor on the full list of the class is not full |
| `FullLists.FullMeansNoMiss` | hal/mm.c:199-202 | while full lists hold full descriptors only, an allocation fails exactly when no block of its size is free |
| `FullLists.FreedHalfIsStranded` | hal/mm.c:376-390 | the input that shows the difference: on two descriptors, after both 2 MB halves of the second are taken and one is freed, a 2 MB block is free and none can be had |
| `PhysMem.InitCoreMemDesc` | hal/mm.c:18-35 | on every region on which the 32-bit loop ends, it builds the descriptors the value-level cut describes, each with its own unlinked list head |
| `PhysMem.InitMemDesc` | hal/mm.c:37-52 | the same over all SDRAM spaces, in order; kmem_end is the end of the descriptor array, in 32 bits |
| `PhysMem.PhyMem.AddMemToSlab` | hal/mm.c:77-99 | appends an unlinked descriptor to one list of one slab and touches no other ring |
| `PhysMem.PhyMem.MemListInit` | hal/mm.c:101-110 | all descriptors but the first end on the empty list of the last slab, in index order |
| `PhysMem.PhyMem.InitKernelMem` | hal/mm.c:112-129 | survives exactly when the kernel range is at most 128 KB and does not start below the first descriptor; then the state is the start state |
| `PhysMem.InitMm` | hal/mm.c:138-146 | for every map on which the loops end, start-up leaves objects whose value is the start state, or dies, exactly by the test of the kernel range; on a sound map the objects are valid |
| `PhysMem.PhyMem.FindSlabBySize` | hal/mm.c:148-181 | finds a source slab exactly when the size is a class and neither its partial list nor the last empty list is exhausted |
| `PhysMem.PhyMem.FindDescInSlab` | hal/mm.c:183-202 | head of the partial list, else head of the empty list, else null |
| `PhysMem.PhyMem.ScanMap` | hal/mm.c:221-236 | the bit scan returns the lowest clear bit of the map, or reports that there is none |
| `PhysMem.PhyMem.AllocBlkOnDesc` | hal/mm.c:204-257 | pointer-level allocation on the descriptor and its rings refines the value-level one; NULL when the slab has nothing to give |
| `PhysMem.PhyMem.AllocBlkInSlab` | hal/mm.c:259-288 | for any size: one of the six gets its class's flag, mask and bit count and moves the objects as Alloc does, any other returns NULL |
| `PhysMem.PhyMem.AllocMemBlk` | hal/mm.c:290-326 | for any size the object graph moves exactly as the value-level Alloc does, and stays valid |
| `PhysMem.PhyMem.FindDescForFree` | hal/mm.c:328-354 | two list walks find the descriptor the value-level search finds, the full list first |
| `PhysMem.PhyMem.FreeBlkOnDesc` | hal/mm.c:356-391 | pointer-level free refines the value-level one |
| `PhysMem.PhyMem.FreeMemBlk` | hal/mm.c:393-460 | for any address and size the object graph moves exactly as the value-level Free does, and stays valid |
| `PoolModel.BlockFor` | kernel/mem_pool.c:95-124 | 256 KB for requests from 0x3000 to 0x10fff, 128 KB for the smaller ones from 0x1000 and for the larger ones to 0x1ffff, none for any other size |
| `PoolModel.NewPoolInv` | kernel/mem_pool.c:29-83 | a new pool satisfies the pool invariant, has handed out nothing, and is never rejected for a block of the block layer |
| `PoolModel.ChainHead` | kernel/mem_pool.c:128-141 | next_map is NULL exactly when afindx == obj_count; otherwise it is the head of the free chain |
| `PoolModel.TakeKeepsInv` | kernel/mem_pool.c:172-191 | the page handed out was free, joins the handed-out pages, and the chain loses just its head |
| `PoolModel.GiveKeepsInv` | kernel/mem_pool.c:251-285 | giving back a handed-out page succeeds, puts its entry at the head of the chain and keeps the chain acyclic and complete |
| `PoolModel.GiveKeepsInvIff` | kernel/mem_pool.c:263-284 | the map test `next == NULL` is right exactly for entries other than the tail of the free chain: when the free of any page start keeps the pool in order |
| `PoolModel.DoubleFreeOfTail` | kernel/mem_pool.c:269-284 | a concrete double free that is accepted and breaks the chain |
| `PoolModel.TakenMeansUsed` | kernel/mem_pool.c:193-249 | between calls a pool with a handed-out page has afindx at least 1 |
| `PoolModel.PagesDiffer` | kernel/mem_pool.c:49-59 | pages of one pool do not overlap |
| `PoolModel.PageInside` | kernel/mem_pool.c:49-59 | pages lie above the first page of the block and end inside it |
| `PoolModel.MapFits` | kernel/mem_pool.c:24-26 | header and page map fit in the first page for every size, the extra entry of an object-less pool included |
| `PoolModel.NoObjectIff` | kernel/mem_pool.c:69-82 | a pool has no object exactly for sizes above 0x1f000 |
| `PageModel.CacheAgrees` | kernel/mem_pool.c:144-170 | with the cache a pool is found exactly when some pool on the list accepts; what is found accepts; the cache stays null or a listed pool |
| `PageModel.LivePagesDisjoint` | kernel/mem_pool.c:172-217 | live pages overlap neither each other nor any directly allocated block, and lie behind the first page of a pool's block |
| `PageModel.NewPoolServes` | kernel/mem_pool.c:85-124 | a request no pool serves never dies; exact condition for no page, and for a block left borrowed |
| `PageModel.PageAllocKeeps` | kernel/mem_pool.c:193-217 | page allocation keeps the cross-layer invariant, never dies, adds exactly the returned page and touches no directly allocated block |
| `PageModel.PageAllocNullIff` | kernel/mem_pool.c:193-217 | no page exactly when no pool accepts and the size is out of range, leaves no room for an object, or finds no block |
| `PageModel.FailedAllocLeaksIff` | kernel/mem_pool.c:69-82 | a failed page allocation changes the state exactly for sizes 0x1f001 to 0x1ffff with a block to be had |
| `PageModel.FindOwnerIff` | kernel/mem_pool.c:305-327 | for a live page the lookup finds the owner exactly when it is cached or first on the list, and faults otherwise |
| `PageModel.LookupDefinedIff` | kernel/mem_pool.c:318-325 | for any address and size: exactly when the list walk avoids the null cursor |
| `PageModel.PoolBlockFrees` | kernel/mem_pool.c:226-247 | a pool's block is one live block of the block layer, so free_mem_blk of it always succeeds |
| `PageModel.DrainedPoolDrops` | kernel/mem_pool.c:219-249 | dropping a drained pool reaches neither sys_die; its block leaves the live blocks and nothing else changes |
| `PageModel.PageFreeOfLivePage` | kernel/mem_pool.c:329-358 | freeing a live page: TRUE, just that page leaves, invariant kept, if the owner is cached or first; the null pointer otherwise |
| `PageModel.NoPoolsIsGood` | kernel/mem_pool.c:359-372 | the page layer starts in order with no pools |
| `CacheLaws.CachedServes` | kernel/mem_pool.c:149-157 | a cached pool that accepts serves the request, wherever it is on the list: the page of its next map entry, the cache and every other pool unchanged |
| `CacheLaws.FirstServes` | kernel/mem_pool.c:158-167 | without such a pool the first pool on the list that accepts serves, and becomes the cached one |
| `CacheLaws.NewServes` | kernel/mem_pool.c:85-124 | when no pool accepts, pools and cache stay, and at most a new pool on the block handed out joins the end of the list and gives its first page |
| `CacheLaws.CacheAfterFree` | kernel/mem_pool.c:219-358 | for every address and size: a free that answers TRUE keeps list and cache while its pool has pages out; when the pool goes, the cache is emptied if, and only if, it was that pool; any other free changes nothing |
| `CacheLaws.OwnsIff` | kernel/mem_pool.c:287-303 | a pool takes a range for its own exactly when it has a page out, the size is that of its pages, the range begins behind its first page, and the last byte, counted in 32 bits, is not behind its block |
| `CacheLaws.WrappedIsRefused` | kernel/mem_pool.c:287-303 | a range that wraps around the end of memory is taken for the first pool's and refused |
| `CacheLaws.FreeableIff` | kernel/mem_pool.c:305-358 | a live page can be freed exactly when its pool is cached or first on the list |
| `CacheLaws.FreeableAfterFreeIff` | kernel/mem_pool.c:219-358 | after a free, another live page can be freed exactly when its pool is that of the freed page, or cached, or first, or second behind a pool just drained |
| `CacheLaws.FreedIsNext` | kernel/mem_pool.c:172-285 | a page freed to a cached pool that stays is the next one handed out |
| `FreeExactness.GiveCases` | kernel/mem_pool.c:251-285 | in a pool with pages out, delete_page_on_mplhead answers TRUE exactly for a page that is out and for the tail of the free chain, never both, and FALSE changes nothing |
| `FreeExactness.PageFreeExact` | kernel/mem_pool.c:329-358 | kmem_pool_free_page for every address and size: null pointer or FALSE with nothing changed; TRUE for a page that is out, which alone leaves; TRUE for the tail of the owner's free chain, which either loses the one page that is out with its block or breaks the chain |
| `FreeExactness.KeepsItsWordIff` | kernel/mem_pool.c:329-358 | TRUE means that exactly the named page was out and no longer is, precisely when the address is not the tail of the free chain of the pool found |
| `FreeExactness.TailFree` | kernel/mem_pool.c:219-285 | what the free of the tail does: with one page out the pool and its block go although that page is in use; with more the pool is no longer in order |
| `FreeExactness.SecondFreeIff` | kernel/mem_pool.c:251-285 | a page freed twice, its pool still used in between: the second call is accepted exactly when the pool had no free page before the first; it then loses the last page that is out, or breaks the chain |
| `FreeExactness.SecondFreeOfLast` | kernel/mem_pool.c:219-327 | a page freed twice that drained its pool: the second call is refused if that was the only pool and runs into the null pointer otherwise |
| `AllocatorRuns.StepKeeps` | kernel/mem_pool.c:193-358 | every allowed operation keeps the cross-layer invariant and reaches no sys_die and no null pointer |
| `AllocatorRuns.BlockAllocKeeps` | hal/mm.c:319-326 | a direct block allocation beside the pools adds one directly allocated block |
| `AllocatorRuns.BlockFreeKeeps` | hal/mm.c:453-460 | a direct block free that spares the pools' blocks takes away at most one directly allocated block |
| `AllocatorRuns.RunsAreSafe` | kernel/mem_pool.c:172-285 | over every run of allowed page and block operations: no death, and pages, blocks and pool headers pairwise disjoint |
| `AllocatorRuns.BootIsGood` | hal/mm.c:138-146 | the state after start-up is one that runs start from |
| `AllocatorRuns.DrainedMeansNoPools` | kernel/mem_pool.c:219-249 | without live pages (and object-less pools) there is no pool, the count is 0 and the cache null |
| `AllocatorRuns.PagesGoBack` | kernel/mem_pool.c:329-358 | conservation: a run of page operations that ends without live pages gives every borrowed block back |
| `AllocatorRuns.AllocThenFreeIff` | kernel/mem_pool.c:193-358 | a page just allocated can be freed at once exactly when an existing pool served it or there was no pool before; otherwise, from a new pool at the end of a list, the free runs into the null pointer; a free that succeeds undoes the allocation |
| `Board.BoardBoots` | hal/global.c:10-18 | the board's address map is sound: start-up leaves 128 descriptors in a good state with one live block |
| `Board.BootBoard` | include/hal/platform_t.h:7 | init_mm with the kernel at 0x87800000: survives exactly if the descriptor array ends, 3584 bytes long, at most 128 KB above that address, and then leaves that good state |
| `Board.FirstPage` | kernel/mem_pool.c:193-217 | the first page after start-up is at 0x80021000, and can be freed at once |
| `Board.SecondPoolFaults` | kernel/mem_pool.c:305-327 | after start-up, a 4 KB and an 8 KB page are taken: the free of the second runs into the null pointer |
| `Board.LostPage` | kernel/mem_pool.c:219-285 | after start-up one 4 KB page is taken and the address of the pool's last free page is freed: TRUE, and the next 128 KB block covers the page still in use |
| `Board.DoubleFree` | kernel/mem_pool.c:251-285 | three 64 KB pages fill a pool; freeing the first twice is accepted twice, and the second time the pool is broken |
| `PagePool.MemPoolHead.FillMap` | kernel/mem_pool.c:48-77 | the loop writes exactly the map, count and chain of the value-level new pool, without leaving the first page |
| `PagePool.MemPoolHead.IsOk` | kernel/mem_pool.c:126-142 | true exactly when the pool accepts the size |
| `PagePool.MemPoolHead.NewPage` | kernel/mem_pool.c:172-191 | the in-place update of header and map refines TakePage |
| `PagePool.MemPoolHead.IsOwner` | kernel/mem_pool.c:287-303 | true exactly when the pool owns the range, with the 32-bit wrap of the address sum |
| `PagePool.MemPoolHead.DeletePage` | kernel/mem_pool.c:251-285 | the search and in-place update refine GivePage for any address |
| `PagePool.KmemPool.PageMpoolInit` | kernel/mem_pool.c:29-83 | rejects exactly the blocks the test rejects; otherwise appends the new pool and counts it |
| `PagePool.KmemPool.NewPageMpool` | kernel/mem_pool.c:95-124 | never dies; no header exactly when the size is refused or no block is to be had |
| `PagePool.KmemPool.FindPoolHeadBySize` | kernel/mem_pool.c:144-170 | cache and ring walk refine FindPool; only the cache changes |
| `PagePool.KmemPool.KmemPoolAllocPage` | kernel/mem_pool.c:193-217 | the object graph of both layers moves exactly as PageAlloc does, and stays valid |
| `PagePool.KmemPool.FindDeletedPoolHead` | kernel/mem_pool.c:305-327 | faults and finds exactly as the value-level lookup does |
| `PagePool.KmemPool.DelPageMpool` | kernel/mem_pool.c:219-249 | a used pool stays; with a pool count below 1 sys_die; otherwise a drained pool is unlinked, uncached and its block returned |
| `PagePool.KmemPool.KmemPoolFreePage` | kernel/mem_pool.c:329-358 | the object graph of both layers moves exactly as PageFree does, for any address and size |
| `Division.TryBit` | hal/lib/_udivsi3.S:49-60 | one compare/subtract/or step settles one bit of the quotient |
| `Division.Pass` | hal/lib/_udivsi3.S:44-63 | four steps settle four bits; with curbit below 8 the quotient is complete although the dividend may be over-subtracted |
| `Division.ShiftLoops` | hal/lib/_udivsi3.S:26-43 | no shift loses a bit; the divisor, d * curbit, reaches the dividend or its highest bit, and by one-bit shifts no further than needed |
| `Division.SubtractLoop` | hal/lib/_udivsi3.S:44-64 | from such a head the loop ends with the exact quotient |
| `Division.UDivSi3` | hal/lib/_udivsi3.S:18-72 | n / d for all 32-bit n and d > 0; 0 for d = 0 |
| `Division.UIDivMod` | hal/lib/_udivsi3.S:75-83 | quotient and remainder by multiply and subtract, modulo 2^32 |
| `Division.HighBitsTest` | hal/lib/_divsi3.S:20-23 | the mask test is true exactly below 2^29 |
| `Division.PowerTest` | hal/lib/_divsi3.S:112-113 | d & (d - 1) is zero exactly for powers of two |
| `Division.DivBody` | hal/lib/_divsi3.S:2-65 | the exact quotient of the magnitudes |
| `Division.Order` | hal/lib/_divsi3.S:67-95 | the binary logarithm of a power of two |
| `Division.DivSi3` | hal/lib/_divsi3.S:98-142 | C's truncating division of the signed readings as a 32-bit word, in all five branches; the most negative number by -1 wraps |
| `Division.IDivMod` | hal/lib/_udivsi3.S:85-93 | n = d * (n / d) + r in C's sense for all signed operands, |r| < |d|, r with the sign of n; the word pair satisfies n = d * q + r exactly unless it is the most negative number by -1 |
| `Modulo.UModSi3` | hal/lib/_umodsi3.S:17-76 | __umodsi3 yields n % d for every d > 0 exactly when the operands are not one of 22 listed pairs; 0 for d = 0 |
| `Modulo.MisfiresIff` | hal/lib/_umodsi3.S:23-75 | the listed pairs are precisely those whose first pass ends with nothing left and a mark that the fix-up takes for its own |
| `Modulo.LastPass` | hal/lib/_umodsi3.S:44-75 | in a last pass on a bit below 8 the fix-up adds back exactly what was taken too much: the remainder is exact |
| `Modulo.FullPass` | hal/lib/_umodsi3.S:44-63 | a pass on a bit of at least 8 takes nothing too much and keeps the remainder |
| `Modulo.MarksTested` | hal/lib/_umodsi3.S:49-75 | the three tests of the fix-up see a mark exactly when its subtraction took place and its rotated bit is one of the top three |
| `Division.Div64By32` | lib/div64.c:3-34 | terminates with the exact quotient and remainder; no step overflows 64 bits |
| `Division.DoDiv` | include/div64.h:21-31 | the exact quotient and remainder on both the 32-bit and the 64-bit path |
| `Numerals.NumeralIsCanonical` | lib/vsprintf.c:139-232 | a digit string of one case writes a number, with that value and no leading zero, exactly when it is the numeral: an independent definition of what must be printed |
| `Numerals.NumeralLength` | lib/vsprintf.c:222-232 | a numeral has at most k digits exactly below base^k |
| `Decimal.Times205` | lib/vsprintf.c:188-199 | (x * 0xcd) >> 11 is x / 10 up to 339, the bound reached here |
| `Decimal.Times13` | lib/vsprintf.c:207-208 | (x * 0xd) >> 7 is x / 10 up to 63, the bound reached here |
| `Decimal.CheapestMultiplierIff` | lib/vsprintf.c:188-196 | the cheapest multiplier is exact on all numbers up to a limit exactly when the limit is below 69 |
| `Decimal.CutDigits` | lib/vsprintf.c:222-232 | the digits of a number are the five low digits followed by the digits of its hundred-thousandth part |
| `Decimal.PutDecTrunc` | lib/vsprintf.c:139-176 | the canonical digits, least significant first, of any number below 100000, without division |
| `Decimal.PutDecFull` | lib/vsprintf.c:179-219 | always exactly the five low digits |
| `Decimal.PutDec` | lib/vsprintf.c:222-232 | the 1 to 20 canonical digits of any 64-bit number, least significant first, and nothing else written |
| `NumberFormat.ShiftLoopEndsIff` | lib/vsprintf.c:287-299 | the digit loop for bases 8 and 16 ends exactly for numbers that are not negative |
| `NumberFormat.PrintsIff` | lib/vsprintf.c:287-299 | a number has a field in bases 8 and 16 exactly when the shifts of its signed magnitude reach zero: below 2^63 |
| `NumberFormat.GenerateByShifts` | lib/vsprintf.c:287-299 | the digits in bases 8 and 16, reversed, at most 22 |
| `NumberFormat.Generate` | lib/vsprintf.c:278-304 | the digits in any of the three bases, within the 100-character buffer |
| `NumberFormat.NumberWidth` | lib/vsprintf.c:305-341 | a field is exactly as wide as asked, unless its content is wider |
| `NumberFormat.Layout` | lib/vsprintf.c:308-341 | the field defined by flags equals the fixed order of pieces in which it is written |
| `NumberFormat.Number` | lib/vsprintf.c:234-343 | for every base, width, precision and flags, and every number that has a field, writes exactly the field after the text so far, truncated like all output; no int underflows |
| `StandardField.FieldIsStandardIff` | lib/vsprintf.c:234-343 | for every number, base, width, precision and flags: the code prints a field, and it is the one section 7.19.6.1 of ISO/IEC 9899:1999 defines, exactly when the call conforms, a condition on the arguments that includes the end of the digit loop |
| `StandardField.FieldOfSeven` | lib/vsprintf.c:305-341 | the 0 flag with a precision, at one input: zeros where the standard has blanks |
| `StandardField.FieldOfZero` | lib/vsprintf.c:242-304 | the number 0, at one input each: precision 0, and the alternative forms of bases 8 and 16 |
| `StandardField.FieldOfLetters` | lib/vsprintf.c:245-247 | letter case at one input: %x in capitals, and %#X in small letters |
| `StandardField.FieldOfTwoTo63` | lib/vsprintf.c:287-299 | 2^63 under %llX: the standard has an 8 and fifteen zeros, the digit loop of the code never ends |
| `StandardDirective.DirectiveIsStandardIff` | lib/vsprintf.c:409-633 | for every directive of the grammar, flags in any order, with an integer conversion, c or s and an argument the standard accepts: the code prints what section 7.19.6.1 says exactly when the directive conforms |
| `StandardDirective.DirectiveRead` | lib/vsprintf.c:409-476 | every directive of the grammar is read as the standard means it - flags, width, precision, length, conversion and the arguments that `*` takes - but for a negative `*` precision, which becomes 0 instead of none |
| `StandardDirective.FlagsRead` | lib/vsprintf.c:413-430 | a run of flag characters, in any order and number, is read to its end |
| `StandardDirective.RunBitsIff` | lib/vsprintf.c:413-430 | each flag bit is set exactly when its character occurs in the run |
| `StandardDirective.FlagsAgree` | lib/vsprintf.c:578-590 | with the bits that the conversion adds, the flags are those of the standard's field; a negative `*` width is a - flag |
| `StandardDirective.EmptyBodyIff` | lib/vsprintf.c:506-535 | a string cut to nothing leaves the same field exactly when it consists of blanks that the width would have filled |
| `StandardDirective.NegativePrecisionCuts` | lib/vsprintf.c:454-461 | `%.*s` with -1 and the string a: nothing is printed where the standard has a |
| `StandardDirective.SizeTIsUnsigned` | lib/vsprintf.c:616-619 | `%zd` of -1 is printed as an unsigned word |
| `StandardDirective.PointerIsEightDigits` | lib/vsprintf.c:537-546 | a plain p prints exactly eight hexadecimal digits with the value of the pointer |
| `StandardDirective.NullStrings` | lib/vsprintf.c:506-512 | a string pointer into the first kilobyte prints as <NULL> |
| `FormatLaws.FormatIsStandard` | lib/vsprintf.c:399-634 | a format of any ordinary characters, percent signs and conforming directives prints exactly the output that section 7.19.6.1 asks for |
| `FormatLaws.LiteralRendered` | lib/vsprintf.c:399-407 | ordinary characters print themselves |
| `FormatLaws.OthersRendered` | lib/vsprintf.c:568-606 | %% prints a percent sign, and a conversion that does not exist prints itself; neither uses an argument |
| `FormatLaws.LonePercent` | lib/vsprintf.c:592-606 | a percent sign at the end of the format prints itself |
| `FormatLaws.CountStored` | lib/vsprintf.c:548-566 | %n prints nothing and stores the length of the text before it |
| `FieldMeaning.FieldDenotesIff` | lib/vsprintf.c:107-118 | for every number, width, precision and set of flags: the code prints a field that simple_strtoll in its base reads back as the number's 64 bits, leaving only blanks, exactly when the digit loop ends and no plus sign is shown |
| `FieldMeaning.PlusIsNotRead` | lib/vsprintf.c:260-264 | a shown plus sign stops the reader at once |
| `Output.AddCh` | lib/vsprintf.c:9-13 | stores the character, and nothing else, exactly when the position lies below `end`; counts always |
| `Output.PutCh` | lib/vsprintf.c:403-405 | stores the character, and nothing else, exactly when the position is at most `end`, the last of the buffer; counts always |
| `Vsnprintf.ParseDirective` | lib/vsprintf.c:409-476 | flags, width, precision, qualifier and consumed arguments as the directive grammar defines them |
| `Vsnprintf.SkipAtoi` | lib/vsprintf.c:120-127 | the value of the digit run and the place after it |
| `Vsnprintf.PutCharField` | lib/vsprintf.c:484-504 | the padded character; the two loops never both pad |
| `Vsnprintf.PutStringField` | lib/vsprintf.c:506-535 | the padded string, cut at the precision |
| `Vsnprintf.PutInteger` | lib/vsprintf.c:574-633 | base, sign extension and flags per qualifier, then the number field |
| `Vsnprintf.PutDirective` | lib/vsprintf.c:481-606 | every conversion writes its text and goes on at the right format character; `n` stores the count so far through its pointer |
| `Vsnprintf.Walk` | lib/vsprintf.c:399-634 | over the whole format the buffer shows the rendered text cut at the size, and the stores of all `n` conversions are delivered in order |
| `FormatSpec.PokesRise` | lib/vsprintf.c:548-566 | the numbers stored by `n` conversions never fall and never exceed the length of the text |
| `Vsnprintf.Vsnprintf` | lib/vsprintf.c:363-644 | for every size the value is the length of the whole text; the buffer holds its first size - 1 characters and NUL; nothing at or beyond the size or behind the NUL changes; a size negative as int yields 0 and no write |
| `Vsnprintf.TruncatedPrefix` | lib/vsprintf.c:346-362 | the string the caller sees is the text's prefix of size - 1 characters, and the whole text exactly when the value is below the size |
| `Vsnprintf.EffectiveSize` | lib/vsprintf.c:390-397 | clamping a buffer that would wrap around the address space never cuts a text that fits below 2^32 |
| `Vsnprintf.Vscnprintf` | lib/vsprintf.c:662-668 | the number of characters stored, except for size 0, where it is -1 although the comment promises 0 |
| `Vsnprintf.Vsprintf` | lib/vsprintf.c:734-737 | the whole text and NUL, and the stores of all `n` conversions |
| `Strto.WrapStep` | lib/vsprintf.c:44-49 | wrapping at each digit is wrapping once at the end |
| `Strto.SimpleStrtoul` | lib/vsprintf.c:21-53 | the value of the longest digit run modulo 2^32, after prefix detection, and the place after it |
| `Strto.SimpleStrtoull` | lib/vsprintf.c:74-105 | the same modulo 2^64 |
| `Strto.SimpleStrtol` | lib/vsprintf.c:61-66 | a leading minus negates modulo 2^32 |
| `Strto.SimpleStrtoll` | lib/vsprintf.c:113-118 | a leading minus negates modulo 2^64 |
| `Strto.PrefixRoundTrip` | lib/vsprintf.c:74-105 | for bases 8, 10 and 16 with SPECIAL, reading number's unpadded output, wherever it has one, with base 0 gives the number back and stops at the terminator, 0 included |
| `Vsscanf.ReadBlock` | lib/vsprintf.c:860-871 | the characters of a `c` conversion, at least one, stopping at the end of input |
| `Vsscanf.ReadWord` | lib/vsprintf.c:872-889 | the word of an `s` conversion within its width, terminated |
| `Vsscanf.ReadNumber` | lib/vsprintf.c:933-1002 | store width and signedness per qualifier; size_t reads unsigned even under a signed conversion |
| `Vsscanf.Convert` | lib/vsprintf.c:858-931 | each conversion stops, stores and advances as the scan defines |
| `Vsscanf.Vsscanf` | lib/vsprintf.c:778-1010 | count and stores of the whole loop are those of the scan, for every input and format |
| `RoundTrip.FieldReads` | lib/vsprintf.c:920-1003 | an integer printed by d, i, u, x, X or o under any shared qualifier is read back by the same conversion as the same 16, 32 or 64 bits, the most negative ones included |
| `RoundTrip.Applies` | lib/vsprintf.c:858-931 | the conversions c, s and % deliver the character and the word that were printed and pass the percent sign, the integer conversions deliver the number, each behind its padding, and each stops behind its field |
| `RoundTrip.PrintScan` | lib/vsprintf.c:778-1010 | for every list of integers of any size, words, characters and percent signs under conversions with any field widths, separated by any white space, vsscanf applied to the buffer vsnprintf filled returns the count and the values |
| `ScanLaws.WordEndIff` | lib/vsprintf.c:872-889 | the word of an `s` conversion ends at white space, at the end of input or at the width, whichever comes first, and nowhere else |
| `ScanLaws.WordStored` | lib/vsprintf.c:872-889 | the conversion `s` stores exactly that word behind the white space, with its end mark |
| `ScanLaws.BlockEndIff` | lib/vsprintf.c:860-871 | the block of a `c` conversion has as many characters as the width says, at least one, blanks included, unless the input ends before |
| `ScanLaws.NarrowStore` | lib/vsprintf.c:933-1002 | a number of any length, negative or not, under hh, h, l, ll, z or none is stored modulo two to the width of the object |
| `ScanLaws.IntegerScanned` | lib/vsprintf.c:840-1003 | every integer conversion under every qualifier, on every text that it reads, with a minus sign where signed: the number or its negative is stored modulo two to the width of the object that the qualifier names, and the scan goes on behind it |
| `ScanLaws.ConstantRead` | lib/vsprintf.c:904-907 | the conversion i reads integer constants as C does: 0x or 0X announces base 16, another leading 0 base 8 |
| `ScanLaws.NumberMissingIff` | lib/vsprintf.c:917-931 | an integer conversion ends the scan exactly when, behind white space and an allowed minus sign, no digit stands that it can begin with |
| `ScanLaws.LiteralScanned` | lib/vsprintf.c:803-809 | ordinary characters match themselves: the scan goes on behind them exactly when they stand in the input, and ends otherwise |
| `ScanLaws.SpaceScanned` | lib/vsprintf.c:791-801 | white space in the format matches white space of any kind and length, none included |
| `ScanLaws.PercentScanned` | lib/vsprintf.c:910-917 | %% matches a percent sign only; a conversion that does not exist ends the scan |
| `ScanLaws.WidthIgnoredIff` | lib/vsprintf.c:827-830 | the field width of an integer conversion is parsed and not used: the result is that of a reader that honours it exactly when the number reaches no further than the width |
| `ScanLaws.WidthIsIgnored` | lib/vsprintf.c:827-830 | %2d of 1234 reads 1234, and a reader that honours the width 12 |
| `ScanLaws.SizeTMinus` | lib/vsprintf.c:933-1002 | a signed size_t conversion at a minus sign stores 0 and stays where it is |
| `ScanLaws.StarPassesNumberIff` | lib/vsprintf.c:816-825 | a suppressed integer conversion passes exactly itself and the number it would have read precisely when both are followed by white space or an end and the number is not preceded by white space |
| `ScanLaws.StarTakesTheRest` | lib/vsprintf.c:816-825 | %*d%d of two numbers reads neither |
| `ScanLaws.CountStoredIff` | lib/vsprintf.c:890-896 | `n` stores the characters read so far, without counting as a conversion, exactly when the input has not ended |
| `Spinlock.StrexCore` | include/types/spinlock_t.h:30-36 | a successful strex makes its core the owner, and changes nothing else it owns |
| `Spinlock.StrCore` | include/types/spinlock_t.h:43-48 | the unlock gives up the lock released, wherever it lies among those held, and no other |
| `Spinlock.StepKeeps` | include/types/spinlock_t.h:25-48 | ownership is exclusive, owned words are nonzero and tags are honest: kept by every instruction of every core, by unlocks in any order, and by spurious loss of a tag |
| `Spinlock.MutualExclusion` | include/types/spinlock_t.h:25-48 | over every run of any number of cores and locks, released in any order, two cores between spin_lock and spin_unlock of one lock are the same core |
| `Spinlock.MaskedWhileGuarded` | include/types/spinlock_t.h:72-95 | over every run of safe unlocks, IRQ and FIQ are masked from the mask of an irqsave call to the restore of its unlock |
| `Spinlock.UnlockKeepsMaskIff` | include/types/spinlock_t.h:88-95 | an irqrestore leaves the interrupts masked for the irqsave locks still held exactly when it is safe: the CPSR it restores is masked, or no other such lock is held |
| `Spinlock.LastFirstIsSafe` | include/types/spinlock_t.h:72-95 | a run that releases locks in the reverse order of acquisition is safe throughout |
| `SpinlockRuns.SafeRunIff` | include/types/spinlock_t.h:72-95 | the converse over runs: a run from the start has safe unlocks only, exactly when none of its unlocks, carried through, leaves its core holding an irqsave lock with the interrupts enabled |
| `SpinlockRuns.UnsafeUnlockUnmasks` | include/types/spinlock_t.h:88-95 | whatever the other cores do in between, an unsafe unlock whose two instructions are executed ends with its core guarded and unmasked |
| `SpinlockRuns.OutOfOrderUnmasks` | include/types/spinlock_t.h:72-95 | from every initial state in which a core has the interrupts enabled, it can take any two locks by irqsave and release them in that order, and is left in the second with the interrupts enabled |
| `SpinlockRuns.TakesMasked` | include/types/spinlock_t.h:72-86 | alone, spin_lock_irqsave takes a free lock, keeps the CPSR it found, writes no other word, and returns with IRQ and FIQ masked |
| `SpinlockRuns.UnlockStores` | include/types/spinlock_t.h:43-48 | the step of an unlock stores 0 in the word of the lock and writes no other; the core gives up that frame and keeps its registers, the others lose at most a tag on that word |
| `SpinlockRuns.WordsWritten` | include/types/spinlock_t.h:25-48 | a lock word changes only by the store of a lock loop, to 1, and by the store of an unlock, to 0 |
| `SpinlockRuns.WordSetIff` | include/types/spinlock_t.h:18-48 | over every run from the start the word of a lock is not 0 exactly while some core owns the lock |
| `SpinlockRuns.ReleasedIsTaken` | include/types/spinlock_t.h:25-48 | behind the store of an unlock any waiting core takes the lock in five instructions |
| `SpinlockRuns.LockUnlockReturns` | include/types/spinlock_t.h:25-48 | from every initial state a core can take and release any lock, and all words are 0 and the mask is as before |
| `SpinlockRuns.AloneWaits` | include/types/spinlock_t.h:25-41 | while the word is not 0 the loop goes round and writes nothing |
| `SpinlockRuns.LeavesHolding` | include/types/spinlock_t.h:25-86 | over every step, a call for a lock is left in one way only: with that lock held |
| `Spinlock.RestoreBringsBack` | include/types/spinlock_t.h:72-95 | whatever happens in between, nested and overlapping calls included, the restore for a lock brings back the CPSR its irqsave call found |
| `Spinlock.AloneTakesLock` | include/types/spinlock_t.h:25-41 | five instructions of one core take a free lock and change no other word of memory: the machine is not safe merely by standing still |

## Left out

- PhysMem.PhyMem.AddMemToSlab: only for a descriptor that is on no list, as at start-up, the only place that calls it; there `list_empty` holds and nothing is unlinked first.
- PhysMem.PhyMem.InitKernelMem: the two printf lines, and any claim that the kernel image is protected: bit 0 of descriptor 0 is a pre-allocated 128 KB block, wherever the image is linked.
- AllocatorRuns.RunsAreSafe: frees of live pages whose pool is neither cached nor first on the list are not part of the runs; PageModel.FindOwnerIff shows that they fault.
- Vsnprintf.Vsnprintf: the width test of skip_atoi counts the result, not the intermediate sum with the character code, as the point where `int` overflows.
- StandardDirective.DirectiveIsStandardIff: about the conversions d, i, o, u, x, X, c and s under the qualifiers the code knows (h, l, ll, L, z, Z); hh, j and t, which it takes for conversions, and the floating-point conversions are not covered.
- Vsscanf.Vsscanf: a width that overflows `int` is excluded; the widths of stores are values, not memory.
- Spinlock.MaskedWhileGuarded: interrupt handlers that run between the instructions of a core are not modelled.
- PhysMem.InitMm: validity of the objects is claimed for sound maps only; with a final short descriptor, in a region that is not a multiple of 4 MB, the start state is the same but the block invariant does not speak of it. A map without SDRAM, whose first descriptor would be uninitialised memory, is excluded.
- PagePool.KmemPool.KmemPoolFreePage: starts from a valid state; after a free that breaks a chain (FreeExactness.PageFreeExact) nothing further is claimed.
- Page allocation and page free at the same time on several cores: they take different locks.
- `__modsi3`, which repeats the division argument.
- `spin_lock_irq` and `spin_unlock_irq`: their mnemonics are not ARM instructions.
- The varargs layout; `printf` and `scanf` with their UART loops.
- `snprintf`, `scnprintf`, `sprintf` and `sscanf`, which only pass their arguments on.
- `lib/string.c` and `lib/ctype.c` beyond strnlen and the character classes.
- Device drivers, interrupt and MMU set-up, boot code, the linker script and the kernel's own test routines.
