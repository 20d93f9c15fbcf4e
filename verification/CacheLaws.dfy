/** Which pool serves a page request, what becomes of the cached pool (kernel/mem_pool.c), and what a client can
    therefore free afterwards. */
module CacheLaws {
  import opened Words
  import opened BlockModel
  import opened PoolModel
  import opened PageModel
  import opened FreeExactness

  // ---------- Who serves ----------

  /** Pool `i` is the cached one. */
  predicate Cached(s: Kernel, i: nat) {
    i < |s.pools| && s.cache == s.pools[i].start
  }

  predicate FirstToAccept(s: Kernel, i: nat, size: nat) {
    i < |s.pools| && Accepts(s.pools[i], size) && forall j | 0 <= j < i :: !Accepts(s.pools[j], size)
  }

  /** Pool `i` serves: it hands out the page of its next map entry, becomes the cached pool, and nothing else
      changes in either layer. */
  ghost predicate Serves(s: Kernel, i: nat, size: nat, t: Kernel, addr: int) {
    && i < |s.pools| == |t.pools| && 0 <= s.pools[i].next_map < |s.pools[i].entries|
    && addr == PageAt(s.pools[i], s.pools[i].next_map).addr != 0 && s.pools[i].alloc_size == size
    && Block(addr, size) !in PagesOf(s.pools[i]) && PagesOf(t.pools[i]) == PagesOf(s.pools[i]) + {Block(addr, size)}
    && t.pools[i].start == s.pools[i].start && t.pools[i].end == s.pools[i].end
    && Chain(t.pools[i]) == Chain(s.pools[i])[1..]
    && (forall j | 0 <= j < |s.pools| && j != i :: t.pools[j] == s.pools[j])
    && t.cache == s.pools[i].start && t.blk == s.blk && t.count == s.count
  }

  lemma CachedPosition(s: Kernel, c: nat)
    requires Good(s) && Cached(s, c)
    ensures PoolAt(s.pools, s.cache) == c && s.cache != 0
  {
    hide Inv, LiveOf;
    StartPositive(s, c);
    var k := PoolAt(s.pools, s.cache);
    assert !(k < c);
  }

  lemma ServesFrom(s: Kernel, i: nat, size: nat)
    requires Good(s) && i < |s.pools| && Accepts(s.pools[i], size)
    requires FindPool(s.pools, s.cache, size) == (i, s.pools[i].start)
    ensures var (t, r) := PageAlloc(s, size); r.Got? && Serves(s, i, size, t, r.addr)
  {
    hide Inv, LiveOf, Laid, Chained, PagesOf, Chain, FindPool;
    var p := s.pools[i];
    assert PoolInv(p);
    ChainHead(p);
    TakeKeepsInv(p);
    PageAtPositive(p, p.next_map);
    NotOut(p);
  }

  lemma NotOut(p: Pool)
    requires PoolInv(p) && p.next_map != NIL
    ensures 0 <= p.next_map < |p.entries| && PageAt(p, p.next_map) !in PagesOf(p)
  {
    hide Chain, Chained;
    ChainHead(p);
    TakeKeepsInv(p);
    EntryIsPage(p, PageAt(p, p.next_map).addr);
    EntryAtIs(p, p.next_map);
  }

  /** A cached pool that accepts is the one that serves, wherever on the list it is and whatever other pools
      would do. */
  lemma CachedServes(s: Kernel, c: nat, size: nat)
    requires Good(s) && Cached(s, c) && Accepts(s.pools[c], size)
    ensures var (t, r) := PageAlloc(s, size); r.Got? && Serves(s, c, size, t, r.addr) && t.cache == s.cache
  {
    hide Good, PageAlloc, Serves;
    CachedPosition(s, c);
    ServesFrom(s, c, size);
    assert PageAlloc(s, size).1.Got? ==> PageAlloc(s, size).0.cache == s.cache by {
      ServedCache(s, c, size);
    }
  }

  lemma ServedCache(s: Kernel, i: nat, size: nat)
    requires Good(s) && PageAlloc(s, size).1.Got? && Serves(s, i, size, PageAlloc(s, size).0, PageAlloc(s, size).1.addr)
    ensures PageAlloc(s, size).0.cache == s.pools[i].start
  {
    hide Good;
  }

  /** Without such a pool the first pool on the list that accepts serves, and is cached from then on. */
  lemma FirstServes(s: Kernel, i: nat, size: nat)
    requires Good(s) && FirstToAccept(s, i, size)
    requires forall c | 0 <= c < |s.pools| && Cached(s, c) :: !Accepts(s.pools[c], size)
    ensures var (t, r) := PageAlloc(s, size); r.Got? && Serves(s, i, size, t, r.addr)
  {
    hide Good, PageAlloc, Serves;
    assert FindPool(s.pools, s.cache, size) == (i, s.pools[i].start) by {
      var c := PoolAt(s.pools, s.cache);
      assert c < |s.pools| ==> Cached(s, c);
      var k := FirstAccepting(s.pools, size);
      assert !(k < i) && !(i < k);
    }
    ServesFrom(s, i, size);
  }

  /** When no pool accepts, no pool changes and the cache stays; at most a new pool joins the end of the list, on
      the block that the block layer hands out, and the page comes from it. */
  lemma NewServes(s: Kernel, size: nat)
    requires Good(s) && forall j | 0 <= j < |s.pools| :: !Accepts(s.pools[j], size)
    ensures var (t, r) := PageAlloc(s, size);
      && r.Got? && t.cache == s.cache && |s.pools| <= |t.pools| <= |s.pools| + 1 && t.pools[..|s.pools|] == s.pools
      && (|t.pools| == |s.pools| <==> BlockFor(size) == 0 || Alloc(s.blk, BlockFor(size)).1 == 0)
      && (|t.pools| > |s.pools| ==>
            var (blk, a) := Alloc(s.blk, BlockFor(size));
            var p := t.pools[|s.pools|];
            && t.blk == blk && p.start == a && p.end == a + BlockFor(size) - 1 && p.alloc_size == size
            && (r.addr == 0 || (r.addr == a + PAGE_SIZE && PagesOf(p) == {Block(r.addr, size)})))
  {
    hide Placed, Sorted, Geometry, LiveOf, Alloc, PoolInv, PagesOf, TakePage, NewPool;
    CacheAgrees(s, size);
    NewPoolServes(s, size);
    AllocNullIff(s.blk, BlockFor(size));
    if BlockFor(size) != 0 && Alloc(s.blk, BlockFor(size)).1 != 0 {
      NewBlockForPool(s, size);
      var a := Alloc(s.blk, BlockFor(size)).1;
      BlockForPool(s.blk, size);
      PoolFromBlock(a, size);
      NewPoolTakenFirst(a, size);
    }
  }

  lemma BlockForPool(b: Blocks, size: nat)
    requires Inv(b) && BlockFor(size) != 0 && Alloc(b, BlockFor(size)).1 != 0
    ensures Alloc(b, BlockFor(size)).1 % BlockFor(size) == 0
  {
    hide Placed, Sorted, Geometry, LiveOf, Alloc;
    var z := NewBlock(b, BlockFor(size));
  }

  lemma NewPoolTakenFirst(a: int, size: nat)
    requires size > 0 && BlockFor(size) > 0
    ensures var q := NewPool(a, a + BlockFor(size) - 1, size);
      && TakePage(q).0.alloc_size == size && (TakePage(q).1 != 0 ==> TakePage(q).1 == a + PAGE_SIZE)
  {
    hide BlockFor, Capacity;
  }

  // ---------- What a free leaves ----------

  /** What a successful free does to the list and the cache: with pages left the pool stays, and so do the list
      and the cache; without, the pool leaves the list, and the cache is emptied if, and only if, it was the
      cached one. */
  ghost predicate FreedFrom(s: Kernel, i: nat, t: Kernel)
    requires i < |s.pools|
  {
    if s.pools[i].afindx > 1 then
      && |t.pools| == |s.pools| && t.cache == s.cache && t.blk == s.blk && t.count == s.count
      && t.pools[i].start == s.pools[i].start && t.pools[i].end == s.pools[i].end
      && t.pools[i].afindx == s.pools[i].afindx - 1
      && (forall j | 0 <= j < |s.pools| && j != i :: t.pools[j] == s.pools[j])
    else
      && t.pools == s.pools[..i] + s.pools[i + 1..] && t.count == |s.pools| - 1
      && (if Cached(s, i) then t.cache == 0 else t.cache == s.cache)
      && PoolBlock(s.pools[i]) !in Live(t.blk) && Live(t.blk) == Live(s.blk) - {PoolBlock(s.pools[i])}
  }

  /** For every address and size: a free that answers TRUE does that to the pool it found, and any other free
      changes nothing. */
  lemma CacheAfterFree(s: Kernel, addr: u32, size: u32)
    requires Good(s)
    ensures var (t, r) := PageFree(s, addr, size);
      if r == Done(true) then
        var w := FindOwner(s.pools, s.cache, addr, size);
        w.Found? && w.i < |s.pools| && FreedFrom(s, w.i, t)
      else t == s
  {
    hide Inv, Laid, Chained, LiveOf, LivePages, PagesOf, GivePage, Free, DropPool, IsTail, LosesPage, Corrupts,
         FindOwner, FreedFrom;
    PageFreeExact(s, addr, size);
    var w := FindOwner(s.pools, s.cache, addr, size);
    if w.Found? && PageFree(s, addr, size).1 == Done(true) {
      var p := s.pools[w.i];
      assert PoolInv(p) && p.afindx >= 1;
      GiveCases(p, addr);
      StepOut(s, w.i, addr);
    }
  }

  lemma StepOut(s: Kernel, i: nat, addr: int)
    requires Good(s) && i < |s.pools| && s.pools[i].afindx >= 1 && GivePage(s.pools[i], addr).1
    requires var p := GivePage(s.pools[i], addr).0;
      p.start == s.pools[i].start && p.end == s.pools[i].end && p.afindx == s.pools[i].afindx - 1
    ensures var p := GivePage(s.pools[i], addr).0;
      var u := s.(pools := s.pools[i := p]);
      FreedFrom(s, i, if p.afindx > 0 then u else DropPool(u, i).0)
  {
    hide Inv, Laid, Chained, LiveOf, LivePages, PagesOf, GivePage, Free;
    var p := GivePage(s.pools[i], addr).0;
    if p.afindx == 0 {
      PoolGoes(s, i, p);
      var q := s.pools[i := p];
      assert q[..i] == s.pools[..i] && q[i + 1..] == s.pools[i + 1..];
    }
  }

  // ---------- Whose range it is ----------

  /** A pool takes a range for its own exactly when it has a page out, the size is that of its pages, the range
      begins behind the first page of its block, and the last byte, counted in 32 bits, is not behind the block. */
  lemma OwnsIff(p: Pool, addr: u32, size: u32)
    requires PoolInv(p)
    ensures Owns(p, addr, size) <==>
      && PagesOf(p) != {} && size == p.alloc_size && addr >= p.start + PAGE_SIZE
      && (addr + size - 1) % TWO_32 <= p.end
  {
    hide PagesOf, Chained, Laid;
    if p.afindx == 0 {
      UnusedPool(p);
    } else {
      SomePageOut(p);
    }
  }

  lemma SomePageOut(p: Pool)
    requires PoolInv(p) && p.afindx >= 1
    ensures PagesOf(p) != {}
  {
    hide Laid, Follow;
    var c, n := Chain(p), |p.entries|;
    CountOfEntries(p);
    SizeOfImage(c);
    if Below(n) <= Image(c) {
      SubsetSize(Below(n), Image(c));
    }
    var j :| j in Below(n) && j !in Image(c);
    assert Taken(p, j) by {
      assert forall k | 0 <= k < |c| :: c[k] in Image(c);
    }
    assert PageAt(p, j) in PagesOf(p);
  }

  /** A range that wraps around the end of memory is taken for the first pool's, if its size is that of the pool's
      pages, and is refused; it does not run into the null pointer. */
  lemma WrappedIsRefused(s: Kernel, addr: u32, size: u32)
    requires Good(s) && s.pools != [] && s.cache == 0 && s.pools[0].alloc_size == size && s.pools[0].afindx >= 1
    requires addr + size - 1 >= TWO_32 && s.pools[0].start + PAGE_SIZE <= addr
    ensures PageFree(s, addr, size) == (s, Done(false))
  {
    hide Inv, Chained, LiveOf, GivePage, DropPool;
    var p := s.pools[0];
    assert PoolInv(p);
    assert Owns(p, addr, size);
    NoEntryThere(p, addr);
  }

  lemma NoEntryThere(p: Pool, addr: int)
    requires PoolInv(p) && addr + p.alloc_size - 1 > p.end
    ensures GivePage(p, addr) == (p, false)
  {
    hide Chained, BlockFor;
    var i := EntryAt(p.entries, addr);
    if i < |p.entries| {
      PageInside(p, i);
    }
  }

  // ---------- What can be freed next ----------

  /** The pool of a page is the cached one or first on the list. */
  ghost predicate Reachable(s: Kernel, y: Block)
  {
    exists j :: 0 <= j < |s.pools| && y in PagesOf(s.pools[j]) && (Cached(s, j) || j == 0)
  }

  /** A live page can be freed exactly when it is reachable. */
  lemma FreeableIff(s: Kernel, y: Block)
    requires Good(s) && y in LivePages(s.pools)
    ensures 0 <= y.addr < TWO_32 && 0 <= y.size < TWO_32
    ensures PageFree(s, y.addr, y.size).1 == Done(true) <==> Reachable(s, y)
  {
    hide Inv, LiveOf, PagesOf, PageFree;
    var j :| 0 <= j < |s.pools| && y in PagesOf(s.pools[j]);
    PageFreeOfLivePage(s, j, y);
    forall k: nat | k < |s.pools| && y in PagesOf(s.pools[k])
      ensures k == j
    {
      PageOwner(s, y, j, k);
    }
  }

  /** After the free of a live page x from pool i, another live page y of pool j can be freed exactly when its
      pool is still the cached one or is now first on the list: when it is that of x, or was cached, or first, or
      second behind a first pool that x drained. */
  lemma FreeableAfterFreeIff(s: Kernel, i: nat, x: Block, j: nat, y: Block)
    requires Good(s) && i < |s.pools| && x in PagesOf(s.pools[i]) && (Cached(s, i) || i == 0)
    requires j < |s.pools| && y in PagesOf(s.pools[j]) && y != x
    ensures 0 <= x.addr < TWO_32 && 0 <= x.size < TWO_32 && 0 <= y.addr < TWO_32 && 0 <= y.size < TWO_32
    ensures Good(PageFree(s, x.addr, x.size).0)
    ensures var (t, r) := PageFree(s, x.addr, x.size);
      && r == Done(true)
      && (PageFree(t, y.addr, y.size).1 == Done(true) <==>
          j == i || Cached(s, j) || j == 0 || (j == 1 && i == 0 && s.pools[i].afindx == 1))
  {
    hide Inv, LiveOf, PagesOf, PageFree, PoolInv, Laid, Chained, PoolBlocks;
    PageFreeOfLivePage(s, i, x);
    FindOwnerIff(s, i, x);
    CacheAfterFree(s, x.addr, x.size);
    var t := PageFree(s, x.addr, x.size).0;
    var k := PageBounds(s, j, y);
    assert y in LivePages(s.pools);
    assert y in LivePages(t.pools);
    FreeableIff(t, y);
    if s.pools[i].afindx > 1 {
      StayedPool(s, i, x, t, j, y);
    } else {
      GonePool(s, i, x, t, j, y);
    }
  }

  /** The pool of a live page is known by where it starts. */
  lemma SamePool(s: Kernel, t: Kernel, j: nat, k: nat, y: Block)
    requires Good(s) && Good(t) && j < |s.pools| && k < |t.pools| && y in PagesOf(s.pools[j])
    requires t.pools[k] == s.pools[j]
    ensures forall n: nat | n < |t.pools| && y in PagesOf(t.pools[n]) :: n == k
  {
    hide Inv, LiveOf, PagesOf;
    forall n: nat | n < |t.pools| && y in PagesOf(t.pools[n])
      ensures n == k
    {
      PageOwner(t, y, n, k);
    }
  }

  lemma StayedPool(s: Kernel, i: nat, x: Block, t: Kernel, j: nat, y: Block)
    requires Good(s) && Good(t) && i < |s.pools| && s.pools[i].afindx > 1 && FreedFrom(s, i, t)
    requires Cached(s, i) || i == 0
    requires j < |s.pools| && y in PagesOf(s.pools[j]) && y in LivePages(t.pools)
    ensures Reachable(t, y) <==> j == i || Cached(s, j) || j == 0
  {
    hide Inv, LiveOf, PagesOf, PoolInv, PoolBlocks;
    if j != i {
      SamePool(s, t, j, j, y);
    } else {
      var n :| 0 <= n < |t.pools| && y in PagesOf(t.pools[n]);
      if n != i {
        PageOwner(s, y, n, i);
      }
    }
  }

  lemma GonePool(s: Kernel, i: nat, x: Block, t: Kernel, j: nat, y: Block)
    requires Good(s) && Good(t) && i < |s.pools| && s.pools[i].afindx == 1 && FreedFrom(s, i, t)
    requires x in PagesOf(s.pools[i]) && y != x && (Cached(s, i) || i == 0)
    requires j < |s.pools| && y in PagesOf(s.pools[j]) && y in LivePages(t.pools)
    ensures j != i
    ensures Reachable(t, y) <==> Cached(s, j) || j == 0 || (j == 1 && i == 0)
  {
    hide Inv, LiveOf, PagesOf, PoolInv, PoolBlocks, Laid, Chained, Chain;
    if j == i {
      assert PoolInv(s.pools[i]);
      var n := OneTaken(s.pools[i]);
    }
    var k := if j < i then j else j - 1;
    KeptAt(s.pools, i, j);
    SamePool(s, t, j, k, y);
    StartPositive(s, j);
    assert Cached(t, k) <==> t.cache == s.pools[j].start;
    assert s.pools[i].start != s.pools[j].start;
  }

  // ---------- Freed and taken again ----------

  /** A page freed to a pool that stays is the next one handed out, if its pool is the cached one: pages are
      reused last in, first out. */
  lemma FreedIsNext(s: Kernel, i: nat, x: Block)
    requires Good(s) && i < |s.pools| && x in PagesOf(s.pools[i]) && s.pools[i].afindx >= 2 && Cached(s, i)
    ensures 0 <= x.addr < TWO_32 && 0 <= x.size < TWO_32 && Good(PageFree(s, x.addr, x.size).0)
    ensures var (t, r) := PageFree(s, x.addr, x.size);
      var (u, q) := PageAlloc(t, x.size);
      && r == Done(true) && q == Got(x.addr) && LivePages(u.pools) == LivePages(s.pools) && u.cache == s.cache
  {
    hide Inv, LiveOf, PagesOf, PageFree, Laid, Chained, PoolBlocks, LivePages, PageAlloc, GivePage, FindOwner;
    FindOwnerIff(s, i, x);
    PageFreeOfLivePage(s, i, x);
    FirstFree(s, i, x);
    var t := PageFree(s, x.addr, x.size).0;
    var j := PageInPool(s.pools[i], x);
    GivenIsHead(s.pools[i], j);
    CachedServes(t, i, x.size);
    PageAllocKeeps(t, x.size);
    var u := PageAlloc(t, x.size).0;
    assert x in LivePages(s.pools) by {
      LivesHere(s, i, x);
    }
  }

  lemma LivesHere(s: Kernel, i: nat, x: Block)
    requires i < |s.pools| && x in PagesOf(s.pools[i])
    ensures x in LivePages(s.pools)
  {
  }

  lemma GivenIsHead(p: Pool, j: nat)
    requires PoolInv(p) && Taken(p, j) && p.afindx >= 2
    ensures var x := PageAt(p, j);
      var q := GivePage(p, x.addr).0;
      Accepts(q, x.size) && 0 <= q.next_map < |q.entries| && PageAt(q, q.next_map) == x
  {
    hide Chain, PoolInv, EntryAt, PagesOf, Taken;
    TakenIsEntry(p, j);
    EntryAtIs(p, j);
    GiveKeepsInv(p, j);
    CountOfEntries(p);
  }

  lemma TakenIsEntry(p: Pool, j: nat)
    requires PoolInv(p) && Taken(p, j)
    ensures Laid(p) && j < |p.entries| && p.entries[j].next == NIL && p.afindx <= p.obj_count
  {
    hide Chain, BlockFor;
  }
}
