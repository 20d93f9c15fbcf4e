/** Both layers together as a value: the block layer, and the page pools (kernel/mem_pool.c) that
    borrow blocks from it. */
module PageModel {
  import opened Words
  import opened BlockModel
  import opened PoolModel

  /** `cache` is the address of a pool header, that is of its block, or 0. */
  datatype Kernel = Kernel(blk: Blocks, pools: seq<Pool>, cache: int, count: int)
  datatype AllocResult = Got(addr: int) | AllocDied
  datatype FreeResult = Done(ok: bool) | NullDeref | FreeDied
  datatype Lookup = Found(i: nat) | Missing | Fault

  // ---------- Live pages and blocks ----------

  function PoolBlock(p: Pool): Block {
    Block(p.start, p.end + 1 - p.start)
  }

  ghost function LivePages(pools: seq<Pool>): set<Block> {
    set i, x | 0 <= i < |pools| && x in PagesOf(pools[i]) :: x
  }

  ghost function PoolBlocks(pools: seq<Pool>): set<Block> {
    set i | 0 <= i < |pools| :: PoolBlock(pools[i])
  }

  /** The live blocks that were not borrowed by a page pool. */
  ghost function Direct(s: Kernel): set<Block> {
    Live(s.blk) - PoolBlocks(s.pools)
  }

  // ---------- Invariant ----------

  ghost predicate PoolsOk(pools: seq<Pool>) {
    && (forall i | 0 <= i < |pools| :: PoolInv(pools[i]))
    && (forall i | 0 <= i < |pools| :: pools[i].obj_count >= 1 ==> pools[i].afindx >= 1)
    && (forall i, j | 0 <= i < j < |pools| :: pools[i].start != pools[j].start)
  }

  ghost predicate CacheOk(pools: seq<Pool>, cache: int) {
    cache == 0 || exists i :: 0 <= i < |pools| && pools[i].start == cache
  }

  /** The cross-layer invariant: every pool lives in one live block of its own. */
  ghost predicate Good(s: Kernel) {
    && Inv(s.blk)
    && PoolsOk(s.pools)
    && PoolBlocks(s.pools) <= Live(s.blk)
    && s.count == |s.pools|
    && CacheOk(s.pools, s.cache)
  }

  // ---------- Allocation ----------

  /** Position of the pool whose header is at `a`. */
  function PoolAt(pools: seq<Pool>, a: int): (i: nat)
    ensures i <= |pools|
    ensures i < |pools| ==> pools[i].start == a
    ensures forall j | 0 <= j < i :: pools[j].start != a
  {
    if pools == [] then 0 else if pools[0].start == a then 0
    else
      var i := PoolAt(pools[1..], a);
      assert forall j | 1 <= j < i + 1 :: pools[j] == pools[1..][j - 1];
      1 + i
  }

  function FirstAccepting(pools: seq<Pool>, size: nat): (i: nat)
    ensures i <= |pools|
    ensures i < |pools| ==> Accepts(pools[i], size)
    ensures forall j | 0 <= j < i :: !Accepts(pools[j], size)
  {
    if pools == [] then 0 else if Accepts(pools[0], size) then 0
    else
      var i := FirstAccepting(pools[1..], size);
      assert forall j | 1 <= j < i + 1 :: pools[j] == pools[1..][j - 1];
      1 + i
  }

  /** find_pool_head_by_size: the position of the pool (past the end when there is none) and the new
      cache. */
  function FindPool(pools: seq<Pool>, cache: int, size: nat): (nat, int) {
    var c := PoolAt(pools, cache);
    if cache != 0 && c < |pools| && Accepts(pools[c], size) then (c, cache)
    else
      var i := FirstAccepting(pools, size);
      (i, if i < |pools| then pools[i].start else cache)
  }

  /** new_page_mpool followed by page_new_on_mplhead. */
  function AllocFromNewPool(s: Kernel, size: nat): (Kernel, AllocResult)
    requires Inv(s.blk)
  {
    if BlockFor(size) == 0 then (s, Got(0))
    else
      var (blk, a) := Alloc(s.blk, BlockFor(size));
      if a == 0 then (s.(blk := blk), Got(0))
      else if InitRejects(a, a + BlockFor(size) - 1) then (s.(blk := blk), AllocDied)
      else
        var (p, page) := TakePage(NewPool(a, a + BlockFor(size) - 1, size));
        (Kernel(blk, s.pools + [p], s.cache, s.count + 1), Got(page))
  }

  /** kmem_pool_alloc_page. */
  function PageAlloc(s: Kernel, size: nat): (Kernel, AllocResult)
    requires Good(s)
  {
    var (i, cache) := FindPool(s.pools, s.cache, size);
    if i < |s.pools| then
      ChainHead(s.pools[i]);
      var (p, page) := TakePage(s.pools[i]);
      (s.(pools := s.pools[i := p], cache := cache), Got(page))
    else
      AllocFromNewPool(s.(cache := cache), size)
  }

  // ---------- Free ----------

  /** find_deleted_pool_head.  The list walk stores the verdict on a pool in its own cursor: when the
      first pool of the list is not the owner the cursor is null, and the next step reads through it. */
  function FindOwner(pools: seq<Pool>, cache: int, addr: u32, size: u32): (w: Lookup)
    ensures w.Found? ==> w.i < |pools| && Owns(pools[w.i], addr, size)
  {
    var c := PoolAt(pools, cache);
    if cache != 0 && c < |pools| && Owns(pools[c], addr, size) then Found(c)
    else if pools == [] then Missing
    else if Owns(pools[0], addr, size) then Found(0)
    else Fault
  }

  /** del_page_mpool on a drained pool. */
  function DropPool(s: Kernel, i: nat): (Kernel, FreeResult)
    requires Inv(s.blk) && i < |s.pools|
  {
    if s.count < 1 then (s, FreeDied)
    else
      var p := s.pools[i];
      var (blk, ok) := Free(s.blk, p.start, p.end - p.start + 1);
      (Kernel(blk, s.pools[..i] + s.pools[i + 1..], if s.cache == p.start then 0 else s.cache, s.count - 1),
       if ok then Done(true) else FreeDied)
  }

  /** kmem_pool_free_page. */
  function PageFree(s: Kernel, addr: u32, size: u32): (Kernel, FreeResult)
    requires Inv(s.blk)
  {
    match FindOwner(s.pools, s.cache, addr, size)
    case Missing => (s, Done(false))
    case Fault => (s, NullDeref)
    case Found(i) =>
      var (p, ok) := GivePage(s.pools[i], addr);
      if !ok then (s, Done(false))
      else if p.afindx > 0 then (s.(pools := s.pools[i := p]), Done(true))
      else DropPool(s.(pools := s.pools[i := p]), i)
  }

  // ---------- Laws: the pools of a good state ----------

  /** Blocks of different pools do not overlap. */
  lemma PoolsApart(s: Kernel, i: nat, j: nat)
    requires Good(s) && i < |s.pools| && j < |s.pools| && i != j
    ensures !Overlap(PoolBlock(s.pools[i]), PoolBlock(s.pools[j]))
  {
    assert PoolBlock(s.pools[i]) in PoolBlocks(s.pools) && PoolBlock(s.pools[j]) in PoolBlocks(s.pools);
    LiveBlocksDisjoint(s.blk, PoolBlock(s.pools[i]), PoolBlock(s.pools[j]));
  }

  lemma PageInPool(p: Pool, x: Block) returns (j: nat)
    requires PoolInv(p) && x in PagesOf(p)
    ensures Taken(p, j) && x == PageAt(p, j) && x.size == p.alloc_size
    ensures p.start + PAGE_SIZE <= x.addr && x.addr + x.size - 1 <= p.end
  {
    j :| 0 <= j < |p.entries| && Taken(p, j) && x == PageAt(p, j);
    PageInside(p, j);
  }

  /** A live page belongs to one pool only. */
  lemma PageOwner(s: Kernel, x: Block, i: nat, j: nat)
    requires Good(s) && i < |s.pools| && j < |s.pools| && x in PagesOf(s.pools[i]) && x in PagesOf(s.pools[j])
    ensures i == j
  {
    var k := PageInPool(s.pools[i], x);
    var l := PageInPool(s.pools[j], x);
    if i != j {
      PoolsApart(s, i, j);
    }
  }

  // ---------- Result: nothing overlaps ----------

  /** Live pages do not overlap each other, lie behind the first page of a pool's block, and overlap no
      block that was allocated directly. */
  lemma LivePagesDisjoint(s: Kernel, x: Block, y: Block)
    requires Good(s) && x in LivePages(s.pools)
    ensures exists i :: 0 <= i < |s.pools| && s.pools[i].start + PAGE_SIZE <= x.addr
                        && x.addr + x.size - 1 <= s.pools[i].end
    ensures y in LivePages(s.pools) && y != x ==> !Overlap(x, y)
    ensures y in Direct(s) ==> !Overlap(x, y)
  {
    var i :| 0 <= i < |s.pools| && x in PagesOf(s.pools[i]);
    var k := PageInPool(s.pools[i], x);
    if y in LivePages(s.pools) && y != x {
      var j :| 0 <= j < |s.pools| && y in PagesOf(s.pools[j]);
      var l := PageInPool(s.pools[j], y);
      if i == j {
        PagesDiffer(s.pools[i], k, l);
      } else {
        PoolsApart(s, i, j);
      }
    }
    if y in Direct(s) {
      assert PoolBlock(s.pools[i]) in PoolBlocks(s.pools);
      LiveBlocksDisjoint(s.blk, PoolBlock(s.pools[i]), y);
    }
  }

  // ---------- Laws: one pool changes ----------

  /** A pool gains a page. */
  lemma PagesGain(pools: seq<Pool>, i: nat, p: Pool, x: Block)
    requires i < |pools| && PagesOf(p) == PagesOf(pools[i]) + {x}
    ensures LivePages(pools[i := p]) == LivePages(pools) + {x}
  {
    hide PagesOf;
    var q := pools[i := p];
    forall y | y in LivePages(pools) + {x} ensures y in LivePages(q) {
      if y == x {
        assert x in PagesOf(q[i]);
      } else {
        var j :| 0 <= j < |pools| && y in PagesOf(pools[j]);
        assert y in PagesOf(q[j]);
      }
    }
    forall y | y in LivePages(q) ensures y in LivePages(pools) + {x} {
      var j :| 0 <= j < |q| && y in PagesOf(q[j]);
      assert y in PagesOf(pools[j]) || (j == i && y == x);
    }
  }

  /** A pool loses a page that no other pool has. */
  lemma PagesLoss(pools: seq<Pool>, i: nat, p: Pool, x: Block)
    requires i < |pools| && PagesOf(p) == PagesOf(pools[i]) - {x}
    requires forall j | 0 <= j < |pools| && j != i :: x !in PagesOf(pools[j])
    ensures LivePages(pools[i := p]) == LivePages(pools) - {x}
  {
    hide PagesOf;
    var q := pools[i := p];
    forall y | y in LivePages(pools) && y != x ensures y in LivePages(q) {
      var j :| 0 <= j < |pools| && y in PagesOf(pools[j]);
      assert y in PagesOf(q[j]);
    }
    forall y | y in LivePages(q) ensures y in LivePages(pools) && y != x {
      var j :| 0 <= j < |q| && y in PagesOf(q[j]);
      assert y in PagesOf(pools[j]);
    }
  }

  lemma SamePoolBlocks(pools: seq<Pool>, i: nat, p: Pool)
    requires i < |pools| && PoolBlock(p) == PoolBlock(pools[i])
    ensures PoolBlocks(pools[i := p]) == PoolBlocks(pools)
  {
    var q := pools[i := p];
    assert forall j | 0 <= j < |pools| :: PoolBlock(q[j]) == PoolBlock(pools[j]);
  }

  /** Replacing one pool by itself with another page map keeps the state in order. */
  lemma ReplaceGood(s: Kernel, i: nat, p: Pool, cache: int)
    requires Good(s) && i < |s.pools| && PoolInv(p) && (p.obj_count >= 1 ==> p.afindx >= 1)
    requires p.start == s.pools[i].start && p.end == s.pools[i].end && CacheOk(s.pools, cache)
    ensures Good(s.(pools := s.pools[i := p], cache := cache))
    ensures Direct(s.(pools := s.pools[i := p], cache := cache)) == Direct(s)
  {
    hide Inv, PoolInv;
    SamePoolBlocks(s.pools, i, p);
    var q := s.pools[i := p];
    assert forall j | 0 <= j < |q| :: q[j].start == s.pools[j].start;
    if cache != 0 {
      var j :| 0 <= j < |s.pools| && s.pools[j].start == cache;
      assert q[j].start == cache;
    }
  }

  // ---------- Results: page allocation ----------

  /** The cache never changes the verdict: a pool is found exactly when some pool accepts, and what is
      found accepts. */
  lemma CacheAgrees(s: Kernel, size: nat)
    requires Good(s)
    ensures var (i, cache) := FindPool(s.pools, s.cache, size);
      && (i < |s.pools| <==> exists j :: 0 <= j < |s.pools| && Accepts(s.pools[j], size))
      && (i < |s.pools| ==> Accepts(s.pools[i], size))
      && CacheOk(s.pools, cache)
  {
  }

  /** Taking a page from a pool that accepts. */
  lemma TakeFromPool(s: Kernel, i: nat, cache: int)
    requires Good(s) && i < |s.pools| && s.pools[i].next_map != NIL && CacheOk(s.pools, cache)
    ensures var (p, a) := TakePage(s.pools[i]);
      var s' := s.(pools := s.pools[i := p], cache := cache);
      var x := Block(a, s.pools[i].alloc_size);
      && Good(s') && Direct(s') == Direct(s) && a != 0
      && x !in LivePages(s.pools) && LivePages(s'.pools) == LivePages(s.pools) + {x}
  {
    hide Inv, LiveOf, Laid, Chained, PagesOf;
    ChainHead(s.pools[i]);
    var p, a := TakePage(s.pools[i]).0, TakePage(s.pools[i]).1;
    TakeKeepsInv(s.pools[i]);
    PageAtPositive(s.pools[i], s.pools[i].next_map);
    var x := Block(a, s.pools[i].alloc_size);
    PagesGain(s.pools, i, p, x);
    ReplaceGood(s, i, p, cache);
    FreshInPool(s, i);
  }

  lemma PageAtPositive(p: Pool, i: nat)
    requires Laid(p) && i < |p.entries|
    ensures PageAt(p, i).addr > 0
  {
    PageInside(p, i);
  }

  lemma FreshInPool(s: Kernel, i: nat)
    requires Good(s) && i < |s.pools| && s.pools[i].next_map != NIL
    ensures 0 <= s.pools[i].next_map < |s.pools[i].entries|
    ensures PageAt(s.pools[i], s.pools[i].next_map) !in LivePages(s.pools)
  {
    ChainHead(s.pools[i]);
    var m := s.pools[i].next_map;
    var x := PageAt(s.pools[i], m);
    PageInside(s.pools[i], m);
    if x in LivePages(s.pools) {
      var j :| 0 <= j < |s.pools| && x in PagesOf(s.pools[j]);
      var k := PageInPool(s.pools[j], x);
      if j != i {
        PoolsApart(s, i, j);
      } else if k != m {
        PagesDiffer(s.pools[i], k, m);
      }
    }
  }

  /** Adding a pool over a freshly allocated block. */
  lemma AddPool(s: Kernel, blk: Blocks, p: Pool)
    requires Good(s) && Inv(blk) && PoolInv(p) && (p.obj_count >= 1 ==> p.afindx >= 1)
    requires PoolBlock(p) !in Live(s.blk) && Live(blk) == Live(s.blk) + {PoolBlock(p)}
    requires forall i | 0 <= i < |s.pools| :: s.pools[i].start != p.start
    ensures var s' := Kernel(blk, s.pools + [p], s.cache, s.count + 1);
      Good(s') && Direct(s') == Direct(s) && LivePages(s'.pools) == LivePages(s.pools) + PagesOf(p)
  {
    hide Inv, PoolInv, PagesOf, LiveOf;
    var q := s.pools + [p];
    assert q[..|s.pools|] == s.pools && q[|s.pools|] == p;
    assert PoolBlocks(q) == PoolBlocks(s.pools) + {PoolBlock(p)} by {
      assert forall i | 0 <= i < |s.pools| :: PoolBlock(q[i]) == PoolBlock(s.pools[i]);
    }
    assert LivePages(q) == LivePages(s.pools) + PagesOf(p) by {
      assert forall i | 0 <= i < |s.pools| :: PagesOf(q[i]) == PagesOf(s.pools[i]);
    }
    if s.cache != 0 {
      var i :| 0 <= i < |s.pools| && s.pools[i].start == s.cache;
      assert q[i].start == s.cache;
    }
  }

  lemma PageAligned(a: int, size: nat)
    requires (size == 0x20000 || size == 0x40000) && a % size == 0
    ensures a % PAGE_SIZE == 0
  {
  }

  /** The pool made from a freshly allocated block, after its first page was taken. */
  lemma PoolFromBlock(a: int, size: nat)
    requires BlockFor(size) != 0 && 0 < a && a % BlockFor(size) == 0 && a + BlockFor(size) - 1 + 0x20000 < TWO_32
    ensures var end := a + BlockFor(size) - 1;
      var (p, page) := TakePage(NewPool(a, end, size));
      && !InitRejects(a, end) && PoolInv(p) && p.start == a && p.end == end
      && (p.obj_count >= 1 ==> p.afindx >= 1)
      && PagesOf(p) == (if page == 0 then {} else {Block(page, size)})
      && (page == 0 <==> 0x1f000 < size)
  {
    PageAligned(a, BlockFor(size));
    var p := NewPool(a, a + BlockFor(size) - 1, size);
    NewPoolInv(a, size);
    NoObjectIff(p);
    hide PoolInv, Chained, Chain, PagesOf;
    if p.obj_count > 0 {
      TakeKeepsInv(p);
    }
  }

  /** Requests that no pool serves: refused, or served from a new pool, and never a call of sys_die.
      A new pool without objects keeps its block although the request fails. */
  lemma NewPoolServes(s: Kernel, size: nat)
    requires Good(s)
    ensures var (s', r) := AllocFromNewPool(s, size);
      && r.Got? && Good(s') && Direct(s') == Direct(s)
      && (r.addr != 0 ==> LivePages(s'.pools) == LivePages(s.pools) + {Block(r.addr, size)}
                          && Block(r.addr, size) !in LivePages(s.pools))
      && (r.addr == 0 ==> LivePages(s'.pools) == LivePages(s.pools))
      && (r.addr == 0 <==> BlockFor(size) == 0 || 0x1f000 < size || Alloc(s.blk, BlockFor(size)).1 == 0)
      && (s' == s <==> BlockFor(size) == 0 || Alloc(s.blk, BlockFor(size)).1 == 0)
  {
    AllocNullIff(s.blk, BlockFor(size));
    if BlockFor(size) != 0 && Alloc(s.blk, BlockFor(size)).1 != 0 {
      NewPoolTakes(s, size);
    }
  }

  lemma NewPoolTakes(s: Kernel, size: nat)
    requires Good(s) && BlockFor(size) != 0 && Alloc(s.blk, BlockFor(size)).1 != 0
    ensures var (s', r) := AllocFromNewPool(s, size);
      && r.Got? && Good(s') && Direct(s') == Direct(s) && s' != s
      && (r.addr == 0 <==> 0x1f000 < size)
      && (r.addr != 0 ==> LivePages(s'.pools) == LivePages(s.pools) + {Block(r.addr, size)}
                          && Block(r.addr, size) !in LivePages(s.pools))
      && (r.addr == 0 ==> LivePages(s'.pools) == LivePages(s.pools))
  {
    hide Placed, Sorted, Geometry, LiveOf, Alloc, PagesOf, PoolInv, LivePages, TakePage;
    var (blk, a) := Alloc(s.blk, BlockFor(size));
    var z := NewBlock(s.blk, BlockFor(size));
    PoolFromBlock(a, size);
    var (p, page) := TakePage(NewPool(a, a + BlockFor(size) - 1, size));
    forall j | 0 <= j < |s.pools| ensures s.pools[j].start != a {
      assert PoolBlock(s.pools[j]) in PoolBlocks(s.pools);
      assert PoolInv(s.pools[j]);
      BlockNotEmpty(s.pools[j]);
    }
    AddPool(s, blk, p);
    if page != 0 {
      var s' := AllocFromNewPool(s, size).0;
      assert s'.pools[|s'.pools| - 1] == p && s'.pools[..|s'.pools| - 1] == s.pools;
      LastPoolsPage(s', Block(page, size));
    }
  }

  /** The block a new pool gets is accepted by page_mpool_init and starts at no other pool. */
  lemma NewBlockForPool(s: Kernel, size: nat)
    requires Good(s) && BlockFor(size) != 0 && Alloc(s.blk, BlockFor(size)).1 != 0
    ensures var a := Alloc(s.blk, BlockFor(size)).1;
      && 0 < a && a + BlockFor(size) - 1 + 0x20000 < TWO_32 && !InitRejects(a, a + BlockFor(size) - 1)
      && forall j | 0 <= j < |s.pools| :: s.pools[j].start != a
  {
    hide Placed, Sorted, Geometry, LiveOf, Alloc, PoolInv;
    var (blk, a) := Alloc(s.blk, BlockFor(size));
    var z := NewBlock(s.blk, BlockFor(size));
    PageAligned(a, BlockFor(size));
    forall j | 0 <= j < |s.pools| ensures s.pools[j].start != a {
      assert PoolBlock(s.pools[j]) in PoolBlocks(s.pools);
      assert PoolInv(s.pools[j]);
      BlockNotEmpty(s.pools[j]);
    }
  }

  lemma BlockNotEmpty(p: Pool)
    requires PoolInv(p)
    ensures PoolBlock(p).size > 0
  {
  }

  lemma LastPoolsPage(s: Kernel, x: Block)
    requires Good(s) && s.pools != [] && x in PagesOf(s.pools[|s.pools| - 1])
    ensures x !in LivePages(s.pools[..|s.pools| - 1])
  {
    var n := |s.pools| - 1;
    if x in LivePages(s.pools[..n]) {
      var j :| 0 <= j < n && x in PagesOf(s.pools[..n][j]);
      PageOwner(s, x, j, n);
    }
  }

  /** Page allocation never dies and keeps the state in order.  A page it returns is new and joins the
      live pages; otherwise they stay.  Directly allocated blocks are not touched. */
  lemma PageAllocKeeps(s: Kernel, size: nat)
    requires Good(s)
    ensures var (s', r) := PageAlloc(s, size);
      && r.Got? && Good(s') && Direct(s') == Direct(s)
      && (r.addr != 0 ==> LivePages(s'.pools) == LivePages(s.pools) + {Block(r.addr, size)}
                          && Block(r.addr, size) !in LivePages(s.pools))
      && (r.addr == 0 ==> LivePages(s'.pools) == LivePages(s.pools))
  {
    hide Inv, LivePages, LiveOf, AllocFromNewPool, TakePage;
    CacheAgrees(s, size);
    var (i, cache) := FindPool(s.pools, s.cache, size);
    if i < |s.pools| {
      TakeFromPool(s, i, cache);
    } else {
      NewPoolServes(s, size);
    }
  }

  /** A page allocation returns no page exactly when no pool accepts and either the size is out of
      range, or it leaves no room for an object, or no block is to be had. */
  lemma PageAllocNullIff(s: Kernel, size: nat)
    requires Good(s)
    ensures PageAlloc(s, size).1 == Got(0) <==>
      && (forall j | 0 <= j < |s.pools| :: !Accepts(s.pools[j], size))
      && (BlockFor(size) == 0 || 0x1f000 < size || Exhausted(s.blk, ClassOf(BlockFor(size))))
  {
    hide Inv, LivePages, LiveOf, AllocFromNewPool, TakePage;
    CacheAgrees(s, size);
    var (i, cache) := FindPool(s.pools, s.cache, size);
    if i < |s.pools| {
      TakeFromPool(s, i, cache);
    } else {
      NewPoolServes(s, size);
      AllocNullIff(s.blk, BlockFor(size));
    }
  }

  /** A failed page allocation changes nothing, except for the sizes above 0x1f000 that still get a
      block: they leave an empty pool behind, and the block stays borrowed. */
  lemma FailedAllocLeaksIff(s: Kernel, size: nat)
    requires Good(s) && PageAlloc(s, size).1 == Got(0)
    ensures PageAlloc(s, size).0 != s <==> 0x1f000 < size < 0x20000 && !Exhausted(s.blk, ClassOf(BlockFor(size)))
  {
    hide Inv, LivePages, LiveOf, AllocFromNewPool, TakePage;
    CacheAgrees(s, size);
    var (i, cache) := FindPool(s.pools, s.cache, size);
    if i < |s.pools| {
      TakeFromPool(s, i, cache);
    } else {
      NewPoolServes(s, size);
      AllocNullIff(s.blk, BlockFor(size));
    }
  }

  // ---------- Results: page free ----------

  lemma PageBounds(s: Kernel, i: nat, x: Block) returns (k: nat)
    requires Good(s) && i < |s.pools| && x in PagesOf(s.pools[i])
    ensures Taken(s.pools[i], k) && x.size == s.pools[i].alloc_size && s.pools[i].afindx >= 1
    ensures s.pools[i].start + PAGE_SIZE <= x.addr && x.addr + x.size - 1 <= s.pools[i].end
    ensures 0 <= x.addr < TWO_32 && 0 < x.size < TWO_32 && Wrap32(x.addr + x.size - 1) == x.addr + x.size - 1
  {
    hide Inv, Chained, LiveOf, PagesOf;
    assert PoolInv(s.pools[i]);
    k := PageInPool(s.pools[i], x);
    TakenMeansUsed(s.pools[i], k);
    WordKept(x.addr + x.size - 1);
  }

  lemma WordKept(a: int)
    requires 0 <= a < TWO_32
    ensures Wrap32(a) == a
  {
  }

  /** The pool of a live page owns it, and no other pool does. */
  lemma OwnerOwns(s: Kernel, i: nat, x: Block, j: nat)
    requires Good(s) && i < |s.pools| && x in PagesOf(s.pools[i]) && j < |s.pools|
    ensures 0 <= x.addr < TWO_32 && 0 <= x.size < TWO_32
    ensures Owns(s.pools[j], x.addr, x.size) <==> j == i
  {
    hide Good, PagesOf, Wrap32;
    var k := PageBounds(s, i, x);
    if j != i {
      PoolsApart(s, i, j);
    }
  }

  /** find_deleted_pool_head finds the owner of a live page exactly when the owner is cached or first on
      the list; otherwise it walks off the list through a null pointer. */
  lemma FindOwnerIff(s: Kernel, i: nat, x: Block)
    requires Good(s) && i < |s.pools| && x in PagesOf(s.pools[i])
    ensures 0 <= x.addr < TWO_32 && 0 <= x.size < TWO_32
    ensures var w := FindOwner(s.pools, s.cache, x.addr, x.size);
      if s.cache == s.pools[i].start || i == 0 then w == Found(i) else w == Fault
  {
    hide Inv, Chained, LiveOf, PagesOf, Owns, PoolBlocks;
    OwnerOwns(s, i, x, i);
    OwnerOwns(s, i, x, 0);
    var c := PoolAt(s.pools, s.cache);
    if c < |s.pools| {
      OwnerOwns(s, i, x, c);
    }
    assert s.pools[i].start != 0;
  }

  /** For any address and size, the lookup avoids the null pointer exactly when the cached pool owns the
      range, or the list is empty, or its first pool owns the range. */
  lemma LookupDefinedIff(s: Kernel, addr: u32, size: u32)
    requires Good(s)
    ensures FindOwner(s.pools, s.cache, addr, size) != Fault <==>
      || (exists i :: 0 <= i < |s.pools| && s.pools[i].start == s.cache && s.cache != 0 && Owns(s.pools[i], addr, size))
      || s.pools == []
      || Owns(s.pools[0], addr, size)
  {
    hide Inv, LiveOf, Owns, PoolInv;
    var c := PoolAt(s.pools, s.cache);
    forall i | 0 <= i < |s.pools| && s.pools[i].start == s.cache ensures i == c {
      assert !(i < c) && !(c < i);
    }
  }

  /** A pool that still has a page out after one is given back. */
  lemma GiveToPool(s: Kernel, i: nat, j: nat)
    requires Good(s) && i < |s.pools| && Taken(s.pools[i], j)
    ensures var x := PageAt(s.pools[i], j);
      var (p, ok) := GivePage(s.pools[i], x.addr);
      && ok && PoolInv(p) && p.start == s.pools[i].start && p.end == s.pools[i].end
      && p.afindx == s.pools[i].afindx - 1 && p.obj_count == s.pools[i].obj_count
      && LivePages(s.pools[i := p]) == LivePages(s.pools) - {x}
      && PagesOf(p) == PagesOf(s.pools[i]) - {x}
  {
    hide Inv, LiveOf, Chained;
    var x := PageAt(s.pools[i], j);
    GiveKeepsInv(s.pools[i], j);
    var p := GivePage(s.pools[i], x.addr).0;
    assert x in PagesOf(s.pools[i]);
    forall k: nat | k < |s.pools| && k != i ensures x !in PagesOf(s.pools[k]) {
      if x in PagesOf(s.pools[k]) {
        PageOwner(s, x, i, k);
      }
    }
    PagesLoss(s.pools, i, p, x);
  }

  /** A pool with no page out has no live page. */
  lemma {:induction false} UnusedPool(p: Pool)
    requires PoolInv(p) && p.afindx == 0
    ensures PagesOf(p) == {}
  {
    forall j: nat | Taken(p, j) ensures false {
      TakenMeansUsed(p, j);
    }
  }

  function Remove(pools: seq<Pool>, i: nat): seq<Pool>
    requires i < |pools|
  {
    pools[..i] + pools[i + 1..]
  }

  lemma RemovedAt(pools: seq<Pool>, i: nat, j: nat)
    requires i < |pools| && j < |pools| - 1
    ensures Remove(pools, i)[j] == pools[if j < i then j else j + 1]
  {
  }

  lemma KeptAt(pools: seq<Pool>, i: nat, j: nat)
    requires i < |pools| && j < |pools| && j != i
    ensures Remove(pools, i)[if j < i then j else j - 1] == pools[j]
  {
  }

  lemma RemoveBlocks(pools: seq<Pool>, i: nat)
    requires i < |pools| && forall j, k | 0 <= j < k < |pools| :: pools[j].start != pools[k].start
    ensures PoolBlocks(Remove(pools, i)) == PoolBlocks(pools) - {PoolBlock(pools[i])}
  {
    var q := Remove(pools, i);
    forall z | z in PoolBlocks(pools) && z != PoolBlock(pools[i]) ensures z in PoolBlocks(q) {
      var j :| 0 <= j < |pools| && z == PoolBlock(pools[j]);
      KeptAt(pools, i, j);
    }
    forall z | z in PoolBlocks(q) ensures z in PoolBlocks(pools) && z != PoolBlock(pools[i]) {
      var j :| 0 <= j < |q| && z == PoolBlock(q[j]);
      RemovedAt(pools, i, j);
    }
  }

  lemma RemovePages(pools: seq<Pool>, i: nat)
    requires i < |pools| && PagesOf(pools[i]) == {}
    ensures LivePages(Remove(pools, i)) == LivePages(pools)
  {
    hide PagesOf;
    var q := Remove(pools, i);
    forall x | x in LivePages(pools) ensures x in LivePages(q) {
      var j :| 0 <= j < |pools| && x in PagesOf(pools[j]);
      KeptAt(pools, i, j);
    }
    forall x | x in LivePages(q) ensures x in LivePages(pools) {
      var j :| 0 <= j < |q| && x in PagesOf(q[j]);
      RemovedAt(pools, i, j);
    }
  }

  lemma RemoveOk(pools: seq<Pool>, i: nat, cache: int)
    requires i < |pools| && CacheOk(pools, cache)
    requires forall j, k | 0 <= j < k < |pools| :: pools[j].start != pools[k].start
    requires forall j | 0 <= j < |pools| && j != i :: PoolInv(pools[j]) && (pools[j].obj_count >= 1 ==> pools[j].afindx >= 1)
    ensures PoolsOk(Remove(pools, i)) && CacheOk(Remove(pools, i), if cache == pools[i].start then 0 else cache)
  {
    hide PoolInv;
    var q := Remove(pools, i);
    forall j: nat | j < |q| ensures q[j] == pools[if j < i then j else j + 1] {
      RemovedAt(pools, i, j);
    }
    if cache != 0 && cache != pools[i].start {
      var j :| 0 <= j < |pools| && pools[j].start == cache;
      assert q[if j < i then j else j - 1].start == cache;
    }
  }

  /** The block of a pool can be given back: it is live, and its start is no descriptor's last byte. */
  lemma PoolBlockFrees(b: Blocks, p: Pool)
    requires Inv(b) && Laid(p) && PoolBlock(p) in Live(b)
    ensures var (b', ok) := Free(b, p.start, p.end - p.start + 1);
      ok && Inv(b') && Live(b') == Live(b) - {PoolBlock(p)}
  {
    hide Placed, Sorted, FreeAt, FindForFree;
    var z := PoolBlock(p);
    forall d | 0 <= d < |b.descs| ensures b.descs[d].end != p.start {
      WholeDesc(b, d);
      NotLastByte(b.descs[d].start, p.start);
    }
    FreeSuffices(b, p.start, z);
    FreeKeepsInv(b, p.start, z.size);
    var y := FreeRemovesOne(b, p.start, z.size);
    if y != z {
      LiveBlocksDisjoint(b, y, z);
    }
  }

  lemma NotLastByte(start: int, a: int)
    requires start % DESC_SIZE == 0 && a % PAGE_SIZE == 0
    ensures start + DESC_SIZE - 1 != a
  {
  }

  /** A drained pool is dropped without a call of sys_die, and its block goes back to the block layer. */
  lemma DrainedPoolDrops(s: Kernel, i: nat, p: Pool)
    requires Good(s) && i < |s.pools| && PoolInv(p) && p.afindx == 0
    requires p.start == s.pools[i].start && p.end == s.pools[i].end
    ensures var (s', r) := DropPool(s.(pools := s.pools[i := p]), i);
      && r == Done(true) && Good(s') && Direct(s') == Direct(s)
      && LivePages(s'.pools) == LivePages(s.pools[i := p])
      && Live(s'.blk) == Live(s.blk) - {PoolBlock(p)} && |s'.pools| == |s.pools| - 1
  {
    hide Placed, Sorted, Geometry, Chained, LiveOf, LivePages, Free, CacheOk, PagesOf;
    var q := s.pools[i := p];
    SamePoolBlocks(s.pools, i, p);
    assert PoolBlock(p) in PoolBlocks(q) by {
      assert q[i] == p;
    }
    PoolBlockFrees(s.blk, p);
    UnusedPool(p);
    assert forall j, k | 0 <= j < k < |q| :: q[j].start != q[k].start;
    RemoveBlocks(q, i);
    RemovePages(q, i);
    SameCache(s.pools, i, p, s.cache);
    RemoveOk(q, i, s.cache);
  }

  lemma SameCache(pools: seq<Pool>, i: nat, p: Pool, cache: int)
    requires i < |pools| && p.start == pools[i].start && CacheOk(pools, cache)
    ensures CacheOk(pools[i := p], cache)
  {
    if cache != 0 {
      var j :| 0 <= j < |pools| && pools[j].start == cache;
      assert pools[i := p][j].start == cache;
    }
  }

  /** Freeing a live page whose pool the lookup finds succeeds; it takes that page out of the live set,
      touches no directly allocated block, and calls sys_die nowhere.  Freeing a live page whose pool it
      does not find runs into the null pointer. */
  lemma PageFreeOfLivePage(s: Kernel, i: nat, x: Block)
    requires Good(s) && i < |s.pools| && x in PagesOf(s.pools[i])
    ensures 0 <= x.addr < TWO_32 && 0 <= x.size < TWO_32
    ensures var (s', r) := PageFree(s, x.addr, x.size);
      if s.cache == s.pools[i].start || i == 0 then
        r == Done(true) && Good(s') && Direct(s') == Direct(s) && LivePages(s'.pools) == LivePages(s.pools) - {x}
      else
        r == NullDeref && s' == s
  {
    hide Inv, LiveOf, LivePages, PagesOf, CacheOk, GivePage, PoolBlocks, DropPool;
    FindOwnerIff(s, i, x);
    var j := PageInPool(s.pools[i], x);
    GiveToPool(s, i, j);
    var p := GivePage(s.pools[i], x.addr).0;
    if p.afindx > 0 {
      ReplaceGood(s, i, p, s.cache);
    } else {
      DrainedPoolDrops(s, i, p);
    }
  }

  /** The page layer starts without pools. */
  lemma NoPoolsIsGood(b: Blocks)
    requires Inv(b)
    ensures Good(Kernel(b, [], 0, 0)) && Direct(Kernel(b, [], 0, 0)) == Live(b)
  {
    hide Inv;
  }

  lemma OtherCache(s: Kernel, cache: int)
    requires Good(s) && CacheOk(s.pools, cache)
    ensures Good(s.(cache := cache))
  {
    hide Inv, PoolInv;
  }
}
