/** The one board the kernel knows (hal/global.c): its start-up state, and a first page. */
module Board {
  import opened Words
  import opened BlockModel
  import opened PoolModel
  import opened PageModel
  import opened AllocatorRuns
  import opened FreeExactness
  import opened PhysMem

  /** mach_addr_space: one SDRAM space; the other entries are unused. */
  const SPACES: seq<Space> := [Space(true, 0x8000_0000, 0x9fff_ffff)]

  lemma BoardMap()
    ensures Sound(SPACES) && |CutAll(SPACES)| == 128 && CutAll(SPACES)[0] == Desc(0x8000_0000, 0x803f_ffff, 0, NEW_FLAG)
  {
    CutIsWhole(0x8000_0000, 128);
    assert CutAll(SPACES[1..]) == [];
    assert CutAll(SPACES) == Cut(0x8000_0000, 0x9fff_ffff) + [];
  }

  /** Start-up on this board leaves a good state of 128 descriptors with one live block. */
  lemma BoardBoots()
    ensures Sound(SPACES) && |CutAll(SPACES)| == 128
    ensures var s := Kernel(Start(CutAll(SPACES)), [], 0, 0);
      Good(s) && Live(s.blk) == {Block(0x8000_0000, 0x2_0000)}
  {
    BoardMap();
    BootIsGood(SPACES);
    StartInv(SPACES);
  }

  /** init_mm on this board, whose kernel is linked at 0x87800000 (include/hal/platform_t.h): it survives exactly
      if the kernel and the 3584 bytes of descriptors behind it span at most 128 KB from there, and the state
      it leaves is the good one. */
  method BootBoard(mem_descs: u32) returns (m: PhyMem?)
    ensures m != null <==> 0x8780_0000 <= mem_descs + 3584 <= 0x8782_0000
    ensures m != null ==> m.Valid() && m.blocks == Start(CutAll(SPACES)) && Good(Kernel(m.blocks, [], 0, 0))
  {
    hide Inv, Start, CutAll, Sound, AllCutsEnd, KernelFits;
    BoardMap();
    BootIsGood(SPACES);
    SoundSpacesEnd(SPACES);
    BoardKernelFits(mem_descs);
    m := InitMm(SPACES, 0x8780_0000, mem_descs);
  }

  lemma BoardKernelFits(mem_descs: u32)
    ensures CutAll(SPACES) != []
    ensures KernelFits(SPACES, 0x8780_0000, mem_descs) <==> 0x8780_0000 <= mem_descs + 3584 <= 0x8782_0000
  {
    hide CutAll, Sound;
    BoardMap();
    KernelRange(mem_descs);
  }

  lemma KernelRange(mem_descs: u32)
    ensures Wrap32(Wrap32(mem_descs + 3584) - 0x8780_0000) <= 0x2_0000 <==>
      0x8780_0000 <= mem_descs + 3584 <= 0x8782_0000
  {
  }

  lemma FirstBlock(b: Blocks)
    requires Inv(b) && b == Start(CutAll(SPACES))
    ensures Alloc(b, 0x2_0000).1 == 0x8002_0000
  {
    hide Inv, CutAll, Move, Or, And;
    BoardMap();
    assert b.rings[RingId(0, Partial)] == [0];
    assert LowestClear(1, 0, 32) == 1;
  }

  /** The first page handed out after start-up lies behind the first page of the second 128 KB block, and it
      can be freed at once. */
  lemma FirstPage()
    ensures Good(Kernel(Start(CutAll(SPACES)), [], 0, 0))
    ensures var s := Kernel(Start(CutAll(SPACES)), [], 0, 0);
      var (t, r) := PageAlloc(s, 0x1000);
      && r == Got(0x8002_1000) && Good(t) && LivePages(t.pools) == {Block(0x8002_1000, 0x1000)}
      && PageFree(t, 0x8002_1000, 0x1000).1 == Done(true)
      && LivePages(PageFree(t, 0x8002_1000, 0x1000).0.pools) == {}
  {
    hide Inv, CutAll, Start, Alloc, LiveOf, PageFree, PagesOf;
    BoardBoots();
    var s := Kernel(Start(CutAll(SPACES)), [], 0, 0);
    FirstBlock(s.blk);
    PageAllocKeeps(s, 0x1000);
    assert LivePages(s.pools) == {};
    AllocThenFreeIff(s, 0x1000);
  }

  // ---------- What the page layer can be made to do ----------

  /** The state after start-up. */
  function Boot(): Kernel {
    BoardMap();
    Kernel(Start(CutAll(SPACES)), [], 0, 0)
  }

  lemma NewPoolAt(s: Kernel, size: nat, a: int)
    requires Good(s) && 0x1000 <= size <= 0x1f000 && (forall j | 0 <= j < |s.pools| :: !Accepts(s.pools[j], size))
    requires Alloc(s.blk, BlockFor(size)).1 == a > 0
    ensures var (t, r) := PageAlloc(s, size);
      var q := NewPool(a, a + BlockFor(size) - 1, size);
      && q.obj_count >= 1 && r == Got(a + PAGE_SIZE) && Good(t)
      && t == Kernel(Alloc(s.blk, BlockFor(size)).0, s.pools + [TakePage(q).0], s.cache, s.count + 1)
  {
    hide Placed, Sorted, Geometry, LiveOf, Alloc, Chained, PagesOf;
    PageAllocKeeps(s, size);
    CacheAgrees(s, size);
    var z := NewBlock(s.blk, BlockFor(size));
    PageAligned(a, BlockFor(size));
    NewPoolInv(a, size);
    NoObjectIff(NewPool(a, a + BlockFor(size) - 1, size));
  }

  lemma SecondBlock(b: Blocks)
    requires Inv(b) && b == Start(CutAll(SPACES))
    ensures Inv(Alloc(b, 0x2_0000).0) && Alloc(Alloc(b, 0x2_0000).0, 0x2_0000).1 != 0
  {
    hide Geometry, CutAll, Start, Alloc, Sorted;
    BootFirst(b);
    TakeSecond(b);
    AllocNullIff(Alloc(b, 0x2_0000).0, 0x2_0000);
  }

  /** Two pages of different sizes after start-up: the second one, whose pool is last on the list and not
      cached, cannot be freed; the call runs into the null pointer. */
  lemma SecondPoolFaults()
    ensures Good(Boot())
    ensures var (t, x) := PageAlloc(Boot(), 0x1000);
      && x.Got? && Good(t)
      && var (u, y) := PageAlloc(t, 0x2000);
      && y.Got? && 0 < y.addr < TWO_32 && Good(u) && Block(y.addr, 0x2000) in LivePages(u.pools)
      && PageFree(u, y.addr, 0x2000) == (u, NullDeref)
  {
    hide CutAll, Start, Alloc, LiveOf, PageFree, PagesOf, Geometry, Placed, Sorted, Chained;
    BoardBoots();
    var s := Boot();
    FirstBlock(s.blk);
    NewPoolAt(s, 0x1000, 0x8002_0000);
    var t := PageAlloc(s, 0x1000).0;
    SecondBlock(s.blk);
    PageAllocNullIff(t, 0x2000);
    AllocNullIff(t.blk, 0x2_0000);
    PageAllocKeeps(t, 0x2000);
    AllocThenFreeIff(t, 0x2000);
  }

  /** The pool of the first page: 31 pages of 4 KB, the first one out, the last one last on the chain. */
  lemma FirstPool()
    ensures Good(Boot())
    ensures var (t, r) := PageAlloc(Boot(), 0x1000);
      && r == Got(0x8002_1000) && Good(t) && t.cache == 0 && |t.pools| == 1
      && t.blk == Alloc(Boot().blk, 0x2_0000).0
      && t.pools[0].start == 0x8002_0000 && t.pools[0].end == 0x8003_ffff
      && t.pools[0].alloc_size == 0x1000 && t.pools[0].afindx == 1 && IsTail(t.pools[0], 0x8003_f000)
  {
    hide CutAll, Start, Alloc, LiveOf, PagesOf, Geometry, Placed, Sorted, Chained, Chain, Good;
    BoardBoots();
    var s := Boot();
    FirstBlock(s.blk);
    GoodParts(s);
    NewPoolAt(s, 0x1000, 0x8002_0000);
    FirstTail();
  }

  lemma GoodParts(s: Kernel)
    requires Good(s)
    ensures Inv(s.blk)
  {
  }

  lemma FirstTail()
    ensures var q := NewPool(0x8002_0000, 0x8003_ffff, 0x1000);
      q.obj_count == 31 && q.next_map == 0 && IsTail(TakePage(q).0, 0x8003_f000)
  {
    hide Chain, PagesOf, Chained;
    var q := NewPool(0x8002_0000, 0x8003_ffff, 0x1000);
    NewPoolInv(0x8002_0000, 0x1000);
    assert q.obj_count == 31;
    TakeKeepsInv(q);
    var p := TakePage(q).0;
    EntryAtIs(p, 30);
    assert p.entries[30].start == 0x8003_f000;
    OnlyOneOut(p, 0, 30);
  }

  lemma OnlyOneOut(p: Pool, i: nat, j: nat)
    requires PoolInv(p) && p.afindx == 1 && PageAt(p, i) in PagesOf(p) && i != j
    ensures !Taken(p, j)
  {
    hide Chain, Laid, Chained;
    var k := OneTaken(p);
    if Taken(p, j) {
      assert PageAt(p, j) in PagesOf(p);
      Positive(p);
      PagesDiffer(p, i, j);
    }
  }

  lemma Positive(p: Pool)
    requires PoolInv(p)
    ensures p.alloc_size > 0
  {
  }

  /** Descriptor 0 alone on the partial list of the 128 KB class, with bitmap `m`. */
  ghost predicate FirstOn(b: Blocks, m: u32) {
    && Inv(b) && |b.descs| == 128 && b.descs[0].start == 0x8000_0000 && b.descs[0].end == 0x803f_ffff
    && b.descs[0].map_count == m && b.rings[RingId(0, Partial)] == [0] && b.rings[RingId(0, Full)] == []
  }

  lemma BootFirst(b: Blocks)
    requires b == Start(CutAll(SPACES))
    ensures FirstOn(b, 1)
  {
    hide Geometry, Sorted, LiveOf, CutAll;
    BoardMap();
    StartInv(SPACES);
  }

  lemma LowMaps()
    ensures Raise(1, 1) == 3 && Drop(3, 1) == 1 && LowestClear(1, 0, 32) == 1
  {
    assert Pow2(1) == 2 && Or(1, 2) == 3;
    assert Bit(1, 0) && !Bit(0, 0);
    Widths();
    AndBelow(3, Not32(Pow2(1)));
    forall j: nat
      ensures Bit(Drop(3, 1), j) == Bit(1, j)
    {
      if j < 32 {
        BitAfterClear(3, 1, j);
      } else {
        NoHighBit(Drop(3, 1), 32, j);
        NoHighBit(1, 32, j);
      }
      if j > 1 {
        assert 3 / 2 == 1 && 1 / 2 == 0;
        assert Bit(3, j) == Bit(1, j - 1) && Bit(1, j - 1) == Bit(0, j - 2) && Bit(1, j) == Bit(0, j - 1);
        BitOfZero(j - 2);
        BitOfZero(j - 1);
      }
    }
    SameBits(Drop(3, 1), 1);
  }

  lemma MoveWithin(rings: map<RingId, seq<nat>>, r: RingId)
    requires r in rings && rings[r] == [0]
    ensures Move(rings, r, 0, r)[r] == [0] && forall q | q in rings && q != r :: q in Move(rings, r, 0, r) && Move(rings, r, 0, r)[q] == rings[q]
  {
    assert [0][..0] + [0][1..] == [];
    assert [] + [0] == [0];
  }

  lemma TakeSecond(b: Blocks)
    requires FirstOn(b, 1)
    ensures Alloc(b, 0x2_0000).1 == 0x8002_0000 && FirstOn(Alloc(b, 0x2_0000).0, 3)
  {
    hide And, Or, Raise, LowestClear, WithClass, Geometry, Sorted, Move;
    LowMaps();
    AllocKeepsInv(b, 0x2_0000);
    MoveWithin(b.rings, RingId(0, Partial));
  }

  lemma GiveSecond(b: Blocks)
    requires FirstOn(b, 3)
    ensures Free(b, 0x8002_0000, 0x2_0000).1 && FirstOn(Free(b, 0x8002_0000, 0x2_0000).0, 1)
  {
    hide And, Or, Drop, WithClass, Geometry, Sorted, Move;
    LowMaps();
    FreeKeepsInv(b, 0x8002_0000, 0x2_0000);
    assert FindIn(b.descs, [0], 0x8002_0000) == 0;
    assert Bit(3, 1);
  }

  lemma DropsBlock(s: Kernel, addr: u32, size: u32)
    requires Inv(s.blk) && FindOwner(s.pools, s.cache, addr, size) == Found(0) && |s.pools| == 1 && s.count >= 1
    requires s.pools[0].afindx == 1 && GivePage(s.pools[0], addr).1
    ensures PageFree(s, addr, size).0.blk == Free(s.blk, s.pools[0].start, s.pools[0].end - s.pools[0].start + 1).0
  {
    hide Inv, Free, FindOwner, EntryAt;
  }

  /** After start-up one 4 KB page is taken, and the address of the last free page of its pool is freed.  The call
      answers TRUE and gives the whole block back; the next request for a 128 KB block gets it, although the
      page taken was never freed and lies in it. */
  lemma LostPage()
    ensures Good(Boot())
    ensures var (t, r) := PageAlloc(Boot(), 0x1000);
      && r == Got(0x8002_1000) && Good(t)
      && var (u, f) := PageFree(t, 0x8003_f000, 0x1000);
      && f == Done(true) && Good(u) && LivePages(u.pools) == {}
      && Alloc(u.blk, 0x2_0000).1 == 0x8002_0000
      && Overlap(Block(0x8002_1000, 0x1000), Block(0x8002_0000, 0x2_0000))
  {
    hide CutAll, Start, Alloc, Free, LiveOf, PagesOf, Geometry, Placed, Sorted, Laid, Chained, Chain, IsTail,
         GivePage, EntryAt;
    FirstPool();
    var s := Boot();
    BootFirst(s.blk);
    TakeSecond(s.blk);
    var t := PageAlloc(s, 0x1000).0;
    FirstPage();
    PageFreeExact(t, 0x8003_f000, 0x1000);
    GiveCases(t.pools[0], 0x8003_f000);
    DropsBlock(t, 0x8003_f000, 0x1000);
    GiveSecond(t.blk);
    TakeSecond(Free(t.blk, 0x8002_0000, 0x2_0000).0);
  }

  lemma TakeAgain(s: Kernel, size: nat)
    requires Good(s) && |s.pools| == 1 && Accepts(s.pools[0], size)
    ensures var (t, r) := PageAlloc(s, size);
      && r.Got? && Good(t) && |t.pools| == 1 && t.cache == s.pools[0].start
      && (s.pools[0].next_map == NIL || 0 <= s.pools[0].next_map < |s.pools[0].entries|)
      && t.pools[0] == TakePage(s.pools[0]).0 && r.addr == TakePage(s.pools[0]).1
  {
    hide Inv, LiveOf, Chained, AllocFromNewPool;
    PageAllocKeeps(s, size);
    CacheAgrees(s, size);
    ChainHead(s.pools[0]);
  }

  lemma AfterTake(p: Pool)
    requires PoolInv(p) && p.next_map != NIL
    ensures 0 <= p.next_map < |p.entries|
    ensures var (q, a) := TakePage(p);
      && PoolInv(q) && q.afindx == p.afindx + 1 && q.obj_count == p.obj_count && q.start == p.start
      && q.alloc_size == p.alloc_size && PagesOf(q) == PagesOf(p) + {Block(a, p.alloc_size)}
      && (q.next_map == NIL <==> q.afindx == q.obj_count)
  {
    hide Chain, Chained, Laid, PagesOf;
    ChainHead(p);
    UsedBelowCount(p);
    TakeKeepsInv(p);
    ChainHead(TakePage(p).0);
  }

  lemma QuarterBlock(b: Blocks)
    requires b == Start(CutAll(SPACES))
    ensures Inv(b) && Alloc(b, 0x4_0000).1 == 0x8040_0000
  {
    hide Geometry, Sorted, CutAll, And, Or, Move;
    BoardMap();
    StartInv(SPACES);
    assert b.rings[RingId(1, Partial)] == [] && b.rings[RingId(5, Empty)] == AllButFirst(128);
    SecondDescriptor();
    assert LowestClear(0, 0, 16) == 0;
  }

  lemma SecondDescriptor()
    ensures |CutAll(SPACES)| == 128 && CutAll(SPACES)[1] == Desc(0x8040_0000, 0x807f_ffff, 0, NEW_FLAG)
  {
    CutIsWhole(0x8000_0000, 128);
    assert CutAll(SPACES[1..]) == [];
    assert CutAll(SPACES) == Cut(0x8000_0000, 0x9fff_ffff) + [];
  }

  lemma ThreeObjects()
    ensures var q := NewPool(0x8040_0000, 0x8043_ffff, 0x1_0000);
      PoolInv(q) && q.obj_count == 3 && q.afindx == 0 && q.next_map == 0 && PagesOf(q) == {}
  {
    NewPoolInv(0x8040_0000, 0x1_0000);
  }

  /** Three 64 KB pages fill a pool; freeing the first of them twice is accepted twice, and the second time the
      pool's free chain is broken. */
  lemma DoubleFree()
    ensures Good(Boot())
    ensures var (t1, x) := PageAlloc(Boot(), 0x1_0000);
      && x == Got(0x8040_1000) && Good(t1)
      && var (t2, y) := PageAlloc(t1, 0x1_0000);
      && y.Got? && y.addr != 0 && Good(t2)
      && var (t3, z) := PageAlloc(t2, 0x1_0000);
      && z.Got? && z.addr != 0 && Good(t3)
      && var (u, f) := PageFree(t3, 0x8040_1000, 0x1_0000);
      && f == Done(true) && Good(u)
      && var (v, g) := PageFree(u, 0x8040_1000, 0x1_0000);
      g == Done(true) && !Good(v)
  {
    hide CutAll, Start, Alloc, LiveOf, PagesOf, Geometry, Placed, Sorted, Laid, Chained, Chain, PageFree,
         PageAlloc, TakePage;
    BoardBoots();
    var s := Boot();
    QuarterBlock(s.blk);
    NewPoolAt(s, 0x1_0000, 0x8040_0000);
    var q0 := NewPool(0x8040_0000, 0x8043_ffff, 0x1_0000);
    ThreeObjects();
    AfterTake(q0);
    var q1 := TakePage(q0).0;
    AfterTake(q1);
    var q2 := TakePage(q1).0;
    AfterTake(q2);
    var q3 := TakePage(q2).0;
    var t1 := PageAlloc(s, 0x1_0000).0;
    TakeAgain(t1, 0x1_0000);
    var t2 := PageAlloc(t1, 0x1_0000).0;
    TakeAgain(t2, 0x1_0000);
    var t3 := PageAlloc(t2, 0x1_0000).0;
    FirstAddress(q0);
    AddressNotNull(q1);
    AddressNotNull(q2);
    assert Block(0x8040_1000, 0x1_0000) in PagesOf(q3);
    SecondFreeIff(t3, 0, Block(0x8040_1000, 0x1_0000));
  }

  lemma FirstAddress(q: Pool)
    requires q == NewPool(0x8040_0000, 0x8043_ffff, 0x1_0000) && q.obj_count == 3
    ensures TakePage(q).1 == 0x8040_1000
  {
  }

  lemma AddressNotNull(p: Pool)
    requires PoolInv(p) && p.next_map != NIL
    ensures 0 <= p.next_map < |p.entries| && TakePage(p).1 > 0
  {
    hide Chain;
    ChainHead(p);
    TakeKeepsInv(p);
    PageInside(p, p.next_map);
  }
}
