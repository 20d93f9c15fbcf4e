/** Whole runs of the two-layer allocator: any sequence of page and block operations that a
    well-behaved kernel may issue. */
module AllocatorRuns {
  import opened Words
  import opened BlockModel
  import opened PoolModel
  import opened PageModel

  datatype Op =
    | AllocPage(size: u32)
    | FreePage(addr: u32, size: u32)
    | AllocBlock(size: u32)
    | FreeBlock(addr: u32, size: u32)

  /** What the kernel may ask for in state `s`: any allocation; a free of a live page whose pool is
      cached or first on the list; a free of blocks that leaves the blocks of the pools alone. */
  ghost predicate Allowed(s: Kernel, op: Op) {
    match op
    case AllocPage(_) => true
    case AllocBlock(_) => true
    case FreePage(addr, size) =>
      exists i :: 0 <= i < |s.pools| && Block(addr, size) in PagesOf(s.pools[i]) && (i == 0 || s.cache == s.pools[i].start)
    case FreeBlock(addr, size) =>
      forall i | 0 <= i < |s.pools| :: PoolBlock(s.pools[i]).size == size ==> !Covers(PoolBlock(s.pools[i]), addr)
  }

  ghost function Step(s: Kernel, op: Op): Kernel
    requires Good(s)
  {
    match op
    case AllocPage(size) => PageAlloc(s, size).0
    case FreePage(addr, size) => PageFree(s, addr, size).0
    case AllocBlock(size) => s.(blk := Alloc(s.blk, size).0)
    case FreeBlock(addr, size) => s.(blk := Free(s.blk, addr, size).0)
  }

  /** No operation reaches sys_die or the null pointer. */
  ghost predicate Survives(s: Kernel, op: Op)
    requires Good(s)
  {
    match op
    case AllocPage(size) => PageAlloc(s, size).1.Got?
    case FreePage(addr, size) => PageFree(s, addr, size).1 == Done(true)
    case _ => true
  }

  // ---------- Single steps ----------

  /** A direct block allocation adds one directly allocated block and leaves the pools alone. */
  lemma BlockAllocKeeps(s: Kernel, size: int)
    requires Good(s)
    ensures var (blk, a) := Alloc(s.blk, size);
      && Good(s.(blk := blk))
      && Direct(s.(blk := blk)) == Direct(s) + (if a == 0 then {} else {Block(a, size)})
      && (a != 0 ==> Block(a, size) !in Live(s.blk))
  {
    hide Alloc, LiveOf, Placed, Sorted, Geometry, PoolsOk, CacheOk;
    AllocKeepsInv(s.blk, size);
    if Alloc(s.blk, size).1 != 0 {
      var z := NewBlock(s.blk, size);
    } else {
      AllocNullIff(s.blk, size);
    }
  }

  /** A direct block free takes away at most one directly allocated block. */
  lemma BlockFreeKeeps(s: Kernel, addr: u32, size: u32)
    requires Good(s) && Allowed(s, FreeBlock(addr, size))
    ensures var (blk, ok) := Free(s.blk, addr, size);
      && Good(s.(blk := blk))
      && (ok ==> exists z :: z in Direct(s) && z.size == size && Covers(z, addr) && Direct(s.(blk := blk)) == Direct(s) - {z})
      && (!ok ==> blk == s.blk)
  {
    hide Free, LiveOf, Placed, Sorted, Geometry, PoolsOk, CacheOk;
    FreeKeepsInv(s.blk, addr, size);
    FreeIff(s.blk, addr, size);
    if Free(s.blk, addr, size).1 {
      var z := FreeRemovesOne(s.blk, addr, size);
      assert z !in PoolBlocks(s.pools);
      assert z in Direct(s);
    }
  }

  lemma StepKeeps(s: Kernel, op: Op)
    requires Good(s) && Allowed(s, op)
    ensures Good(Step(s, op)) && Survives(s, op)
  {
    hide Good, PageAlloc, PageFree, Alloc, Free, PagesOf, Placed;
    match op
    case AllocPage(size) => PageAllocKeeps(s, size);
    case FreePage(addr, size) =>
      var i :| 0 <= i < |s.pools| && Block(addr, size) in PagesOf(s.pools[i]) && (i == 0 || s.cache == s.pools[i].start);
      PageFreeOfLivePage(s, i, Block(addr, size));
    case AllocBlock(size) => BlockAllocKeeps(s, size);
    case FreeBlock(addr, size) => BlockFreeKeeps(s, addr, size);
  }

  // ---------- Runs ----------

  /** Every operation is allowed in the state it meets. */
  ghost predicate Feasible(s: Kernel, ops: seq<Op>)
    requires Good(s)
    decreases ops
  {
    ops == [] ||
    (Allowed(s, ops[0]) && (StepKeeps(s, ops[0]); Feasible(Step(s, ops[0]), ops[1..])))
  }

  ghost function Run(s: Kernel, ops: seq<Op>): (t: Kernel)
    requires Good(s) && Feasible(s, ops)
    ensures Good(t)
    decreases ops
  {
    if ops == [] then s else
      StepKeeps(s, ops[0]);
      Run(Step(s, ops[0]), ops[1..])
  }

  ghost predicate AllSurvive(s: Kernel, ops: seq<Op>)
    requires Good(s) && Feasible(s, ops)
    decreases ops
  {
    ops == [] ||
    (Survives(s, ops[0]) && (StepKeeps(s, ops[0]); AllSurvive(Step(s, ops[0]), ops[1..])))
  }

  /** What the clients of the allocator rely on. */
  ghost predicate Safe(s: Kernel) {
    && (forall x, y | x in LivePages(s.pools) && y in LivePages(s.pools) && x != y :: !Overlap(x, y))
    && (forall x, z | x in LivePages(s.pools) && z in Direct(s) :: !Overlap(x, z))
    && (forall y, z | y in Direct(s) && z in Direct(s) && y != z :: !Overlap(y, z))
    && (forall x | x in LivePages(s.pools) :: BehindFirstPage(s, x))
  }

  ghost predicate BehindFirstPage(s: Kernel, x: Block) {
    exists i :: 0 <= i < |s.pools| && PoolBlock(s.pools[i]) in Live(s.blk)
                && s.pools[i].start + PAGE_SIZE <= x.addr && x.addr + x.size - 1 <= s.pools[i].end
  }

  lemma GoodIsSafe(s: Kernel)
    requires Good(s)
    ensures Safe(s)
  {
    forall x, y | x in LivePages(s.pools) ensures
      && (y in LivePages(s.pools) && y != x ==> !Overlap(x, y))
      && (y in Direct(s) ==> !Overlap(x, y))
      && BehindFirstPage(s, x)
    {
      hide Inv, PoolsOk, LivePages;
      LivePagesDisjoint(s, x, y);
      var i :| 0 <= i < |s.pools| && s.pools[i].start + PAGE_SIZE <= x.addr && x.addr + x.size - 1 <= s.pools[i].end;
      assert PoolBlock(s.pools[i]) in PoolBlocks(s.pools);
    }
    forall y, z | y in Direct(s) && z in Direct(s) && y != z ensures !Overlap(y, z) {
      LiveBlocksDisjoint(s.blk, y, z);
    }
  }

  /** Over every run, no operation reaches sys_die or the null pointer, and in the state reached no two
      live pages, no page and directly allocated block, and no two blocks overlap.  (Every prefix of a
      run is a run, so this holds at every moment.) */
  lemma {:induction false} RunsAreSafe(s: Kernel, ops: seq<Op>)
    requires Good(s) && Feasible(s, ops)
    ensures AllSurvive(s, ops) && Good(Run(s, ops)) && Safe(Run(s, ops))
    decreases ops
  {
    if ops == [] {
      GoodIsSafe(s);
    } else {
      StepKeeps(s, ops[0]);
      RunsAreSafe(Step(s, ops[0]), ops[1..]);
    }
  }

  /** The state start-up leaves, with no page pool yet, is one runs may start from. */
  lemma BootIsGood(spaces: seq<Space>)
    requires Sound(spaces) && CutAll(spaces) != []
    ensures var s := Kernel(Start(CutAll(spaces)), [], 0, 0);
      Good(s) && Direct(s) == {Block(CutAll(spaces)[0].start, SizeOf(0))} && LivePages(s.pools) == {}
  {
    hide CutAll, Start, Inv, LiveOf;
    StartInv(spaces);
  }

  // ---------- Conservation ----------

  /** No pool without objects. */
  ghost predicate NoHollow(pools: seq<Pool>) {
    forall i | 0 <= i < |pools| :: pools[i].obj_count >= 1
  }

  /** Only page operations, none for a size that would make a pool without objects. */
  ghost predicate SoundPageOp(op: Op) {
    (op.AllocPage? && !(0x1f000 < op.size < 0x20000)) || op.FreePage?
  }

  lemma NewPoolNotHollow(s: Kernel, size: nat)
    requires Good(s) && NoHollow(s.pools) && !(0x1f000 < size < 0x20000)
    ensures NoHollow(AllocFromNewPool(s, size).0.pools)
  {
    hide Placed, Sorted, Geometry, LiveOf, Alloc, Chained;
    if BlockFor(size) != 0 && Alloc(s.blk, BlockFor(size)).1 != 0 {
      var (blk, a) := Alloc(s.blk, BlockFor(size));
      var z := NewBlock(s.blk, BlockFor(size));
      PageAligned(a, BlockFor(size));
      NewPoolInv(a, size);
      NoObjectIff(NewPool(a, a + BlockFor(size) - 1, size));
    }
  }

  lemma AllocNotHollow(s: Kernel, size: nat)
    requires Good(s) && NoHollow(s.pools) && !(0x1f000 < size < 0x20000)
    ensures NoHollow(PageAlloc(s, size).0.pools)
  {
    hide Inv, PagesOf, LiveOf, Chained, AllocFromNewPool;
    var (i, cache) := FindPool(s.pools, s.cache, size);
    if i < |s.pools| {
      ChainHead(s.pools[i]);
    } else {
      NewPoolNotHollow(s, size);
    }
  }

  lemma FreeNotHollow(s: Kernel, addr: u32, size: u32)
    requires Good(s) && NoHollow(s.pools)
    ensures NoHollow(PageFree(s, addr, size).0.pools)
  {
    hide Inv, PagesOf, LiveOf, Chained, Free, FindOwner, CacheOk, EntryAt;
  }

  lemma StepNotHollow(s: Kernel, op: Op)
    requires Good(s) && Allowed(s, op) && NoHollow(s.pools) && SoundPageOp(op)
    ensures NoHollow(Step(s, op).pools) && Direct(Step(s, op)) == Direct(s)
  {
    hide Good, PageAlloc, PageFree, PagesOf, LivePages, NoHollow;
    match op
    case AllocPage(size) =>
      PageAllocKeeps(s, size);
      AllocNotHollow(s, size);
    case FreePage(addr, size) =>
      var i :| 0 <= i < |s.pools| && Block(addr, size) in PagesOf(s.pools[i]) && (i == 0 || s.cache == s.pools[i].start);
      PageFreeOfLivePage(s, i, Block(addr, size));
      FreeNotHollow(s, addr, size);
  }

  /** A number below `n` that a shorter list does not contain. */
  lemma Missing(c: seq<nat>, n: nat) returns (j: nat)
    requires NoDup(c) && |c| < n
    ensures j < n && j !in c
  {
    SizeOfImage(c);
    if Below(n) <= Image(c) {
      SubsetSize(Below(n), Image(c));
    }
    j :| j in Below(n) && j !in Image(c);
    assert forall k | 0 <= k < |c| :: c[k] in Image(c);
  }

  /** A pool that has handed out pages makes the live set non-empty. */
  lemma UsedPoolHasPage(s: Kernel, i: nat)
    requires Good(s) && i < |s.pools| && s.pools[i].afindx >= 1
    ensures LivePages(s.pools) != {}
  {
    hide Inv, IsChain, Follow;
    var p := s.pools[i];
    assert PoolInv(p);
    var j := Missing(Chain(p), |p.entries|);
    assert PageAt(p, j) in PagesOf(p);
    assert PageAt(p, j) in LivePages(s.pools);
  }

  /** In a good state without hollow pools and without live pages there is no pool at all, and every
      live block is a directly allocated one. */
  lemma DrainedMeansNoPools(s: Kernel)
    requires Good(s) && NoHollow(s.pools) && LivePages(s.pools) == {}
    ensures s.pools == [] && s.count == 0 && s.cache == 0 && Live(s.blk) == Direct(s)
  {
    if s.pools != [] {
      UsedPoolHasPage(s, 0);
    }
  }

  /** A run of page operations that starts without pools and ends without live pages gives every
      borrowed block back: the pools are gone and the live blocks are those of the beginning. */
  lemma {:induction false} PagesGoBack(s: Kernel, ops: seq<Op>)
    requires Good(s) && Feasible(s, ops) && NoHollow(s.pools) && forall op | op in ops :: SoundPageOp(op)
    ensures Direct(Run(s, ops)) == Direct(s)
    ensures LivePages(Run(s, ops).pools) == {} ==>
      Run(s, ops).pools == [] && Run(s, ops).count == 0 && Live(Run(s, ops).blk) == Direct(s)
    decreases ops
  {
    if ops == [] {
      if LivePages(s.pools) == {} {
        DrainedMeansNoPools(s);
      }
    } else {
      StepKeeps(s, ops[0]);
      StepNotHollow(s, ops[0]);
      PagesGoBack(Step(s, ops[0]), ops[1..]);
    }
  }

  // ---------- An allocation and the free of the same page ----------

  /** An existing pool serves the request. */
  ghost predicate Served(s: Kernel, size: nat) {
    exists j :: 0 <= j < |s.pools| && Accepts(s.pools[j], size)
  }

  /** Where a page just allocated lives: in the pool that accepted, which then is the cached one, or in a
      new pool at the end of the list, and the cache is as before. */
  lemma PageLandsIn(s: Kernel, size: nat) returns (i: nat)
    requires Good(s) && PageAlloc(s, size).1.Got? && PageAlloc(s, size).1.addr != 0
    ensures var (t, r) := PageAlloc(s, size);
      && |s.pools| <= |t.pools| && (forall j | 0 <= j < |s.pools| :: t.pools[j].start == s.pools[j].start)
      && i < |t.pools| && Block(r.addr, size) in PagesOf(t.pools[i])
      && (if Served(s, size) then t.cache == t.pools[i].start else i == |s.pools| && t.cache == s.cache)
  {
    hide Inv, LiveOf, AllocFromNewPool, Chained, PagesOf;
    CacheAgrees(s, size);
    var (c, cache) := FindPool(s.pools, s.cache, size);
    if c < |s.pools| {
      i := c;
      ChainHead(s.pools[c]);
      TakeKeepsInv(s.pools[c]);
    } else {
      i := |s.pools|;
      NewPoolHolds(s.(cache := cache), size);
    }
  }

  lemma NewPoolHolds(s: Kernel, size: nat)
    requires Good(s) && AllocFromNewPool(s, size).1.Got? && AllocFromNewPool(s, size).1.addr != 0
    ensures var (t, r) := AllocFromNewPool(s, size);
      && |t.pools| == |s.pools| + 1 && t.pools[..|s.pools|] == s.pools && t.cache == s.cache
      && Block(r.addr, size) in PagesOf(t.pools[|s.pools|])
  {
    hide Placed, Sorted, Geometry, LiveOf, Alloc, Chained, PagesOf;
    var (blk, a) := Alloc(s.blk, BlockFor(size));
    var z := NewBlock(s.blk, BlockFor(size));
    PageAligned(a, BlockFor(size));
    NewPoolInv(a, size);
    TakeKeepsInv(NewPool(a, a + BlockFor(size) - 1, size));
  }

  /** A page that was just allocated can be freed at once exactly when an existing pool served it or there
      was no pool before; freed from the end of a non-empty list it runs into the null pointer.  When the
      free succeeds, the live pages and the directly allocated blocks are those from before. */
  lemma AllocThenFreeIff(s: Kernel, size: nat)
    requires Good(s) && PageAlloc(s, size).1.Got? && PageAlloc(s, size).1.addr != 0
    ensures 0 <= PageAlloc(s, size).1.addr < TWO_32 && size < TWO_32 && Good(PageAlloc(s, size).0)
    ensures var (t, r) := PageAlloc(s, size);
      var (u, f) := PageFree(t, r.addr, size);
      && (f == Done(true) <==> Served(s, size) || s.pools == [])
      && (f == Done(true) ==> LivePages(u.pools) == LivePages(s.pools) && Direct(u) == Direct(s))
      && (f != Done(true) ==> f == NullDeref && u == t)
  {
    hide Good, Inv, LiveOf, PageAlloc, PageFree, PagesOf, LivePages, Served, Direct;
    var (t, r) := PageAlloc(s, size);
    PageAllocKeeps(s, size);
    var i := PageLandsIn(s, size);
    PageFreeOfLivePage(t, i, Block(r.addr, size));
    if !Served(s, size) {
      OldCache(s, t, i);
    } else {
      NotEmpty(s, size);
    }
    AddedAndTaken(LivePages(s.pools), LivePages(t.pools), Block(r.addr, size));
  }

  lemma NotEmpty(s: Kernel, size: nat)
    requires Served(s, size)
    ensures s.pools != []
  {
  }

  lemma AddedAndTaken(before: set<Block>, after: set<Block>, x: Block)
    requires after == before + {x} && x !in before
    ensures after - {x} == before
  {
  }

  /** A cache from before the last pool was added does not point at it. */
  lemma OldCache(s: Kernel, t: Kernel, i: nat)
    requires Good(s) && Good(t) && i == |s.pools| < |t.pools| && t.cache == s.cache
    requires forall j | 0 <= j < |s.pools| :: t.pools[j].start == s.pools[j].start
    ensures t.cache != t.pools[i].start
  {
    hide Inv, LiveOf, Chained, PoolBlocks;
  }
}
