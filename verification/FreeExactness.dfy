/** kmem_pool_free_page (kernel/mem_pool.c) on any address and size: when it does what it says, when it
    refuses, and what the free of a page that is not handed out can do. */
module FreeExactness {
  import opened Words
  import opened BlockModel
  import opened PoolModel
  import opened PageModel

  /** The page at `addr` is free, and last on the free chain: its entry looks handed out. */
  ghost predicate IsTail(p: Pool, addr: int) {
    var i := EntryAt(p.entries, addr);
    i < |p.entries| && !Taken(p, i) && p.entries[i].next == NIL
  }

  // ---------- One pool ----------

  lemma EntryIsPage(p: Pool, addr: int)
    requires Laid(p)
    ensures var i := EntryAt(p.entries, addr);
      Block(addr, p.alloc_size) in PagesOf(p) <==> i < |p.entries| && Taken(p, i)
    ensures var i := EntryAt(p.entries, addr); i < |p.entries| ==> PageAt(p, i) == Block(addr, p.alloc_size)
  {
    hide BlockFor, Chain;
    var i := EntryAt(p.entries, addr);
    if Block(addr, p.alloc_size) in PagesOf(p) {
      var j :| 0 <= j < |p.entries| && Taken(p, j) && Block(addr, p.alloc_size) == PageAt(p, j);
      EntryAtIs(p, j);
    }
  }

  /** What the test of the map entry makes of an address, in a pool that has pages out. */
  lemma GiveCases(p: Pool, addr: int)
    requires PoolInv(p) && p.afindx >= 1
    ensures GivePage(p, addr).1 <==> Block(addr, p.alloc_size) in PagesOf(p) || IsTail(p, addr)
    ensures !GivePage(p, addr).1 ==> GivePage(p, addr).0 == p
    ensures !(Block(addr, p.alloc_size) in PagesOf(p) && IsTail(p, addr))
    ensures var q := GivePage(p, addr).0; q.start == p.start && q.end == p.end && q.obj_count == p.obj_count
    ensures GivePage(p, addr).1 ==> GivePage(p, addr).0.afindx == p.afindx - 1
  {
    hide Chain, PagesOf, Laid;
    EntryIsPage(p, addr);
  }

  /** Giving back the tail breaks the pool. */
  lemma TailBreaks(p: Pool, addr: int)
    requires PoolInv(p) && p.afindx >= 1 && IsTail(p, addr)
    ensures !PoolInv(GivePage(p, addr).0)
  {
    hide Chain, Laid, Chained;
    FreedTwice(p, GivePage(p, addr).0, EntryAt(p.entries, addr));
  }

  /** With one page out there is one entry off the chain. */
  lemma OneTaken(p: Pool) returns (j: nat)
    requires PoolInv(p) && p.afindx == 1
    ensures Taken(p, j) && PagesOf(p) == {PageAt(p, j)}
  {
    hide Laid, Follow;
    var c, n := Chain(p), |p.entries|;
    assert |c| == n - 1 by {
      CountOfEntries(p);
    }
    SizeOfImage(c);
    if Below(n) <= Image(c) {
      SubsetSize(Below(n), Image(c));
    }
    j :| j in Below(n) && j !in Image(c);
    assert Taken(p, j) by {
      assert forall k | 0 <= k < |c| :: c[k] in Image(c);
    }
    forall k: nat | Taken(p, k)
      ensures k == j
    {
      if k != j {
        SubsetSize(Image(c), Below(n) - {j, k});
      }
    }
  }

  lemma CountOfEntries(p: Pool)
    requires PoolInv(p)
    ensures p.obj_count == |p.entries|
  {
  }

  // ---------- The pool goes ----------

  lemma RemovedPages(s: Kernel, i: nat)
    requires Good(s) && i < |s.pools|
    ensures LivePages(Remove(s.pools, i)) == LivePages(s.pools) - PagesOf(s.pools[i])
  {
    hide PagesOf, Inv, LiveOf, PoolInv;
    var q := Remove(s.pools, i);
    forall x | x in LivePages(s.pools) && x !in PagesOf(s.pools[i])
      ensures x in LivePages(q)
    {
      var j :| 0 <= j < |s.pools| && x in PagesOf(s.pools[j]);
      KeptAt(s.pools, i, j);
    }
    forall x | x in LivePages(q)
      ensures x in LivePages(s.pools) && x !in PagesOf(s.pools[i])
    {
      var j :| 0 <= j < |q| && x in PagesOf(q[j]);
      RemovedAt(s.pools, i, j);
      if x in PagesOf(s.pools[i]) {
        PageOwner(s, x, i, if j < i then j else j + 1);
      }
    }
  }

  /** Dropping a pool whose count has reached 0, whatever its map looks like: the state stays in order, and
      every page that was out in the pool is gone with its block. */
  lemma PoolGoes(s: Kernel, i: nat, p: Pool)
    requires Good(s) && i < |s.pools| && p.start == s.pools[i].start && p.end == s.pools[i].end
    ensures var (s', r) := DropPool(s.(pools := s.pools[i := p]), i);
      && r == Done(true) && Good(s') && Direct(s') == Direct(s)
      && s'.pools == Remove(s.pools, i)
      && LivePages(s'.pools) == LivePages(s.pools) - PagesOf(s.pools[i])
      && Live(s'.blk) == Live(s.blk) - {PoolBlock(s.pools[i])}
  {
    hide Inv, Laid, Chained, LiveOf, LivePages, Free, PagesOf;
    var gone := s.pools[i];
    assert PoolBlock(gone) in PoolBlocks(s.pools);
    PoolBlockFrees(s.blk, gone);
    RemovedPages(s, i);
    RemoveBlocks(s.pools, i);
    RemoveOk(s.pools, i, s.cache);
    var q := s.pools[i := p];
    assert q[..i] == s.pools[..i] && q[i + 1..] == s.pools[i + 1..];
  }

  // ---------- Every free ----------

  /** A free of the tail of a pool with one page out: accepted, and the pool goes with the block that holds
      the page that is out. */
  ghost predicate LosesPage(s: Kernel, i: nat, addr: int, s': Kernel)
    requires i < |s.pools|
  {
    && Good(s')
    && (exists y :: PagesOf(s.pools[i]) == {y} && y.addr != addr && LivePages(s'.pools) == LivePages(s.pools) - {y})
    && PoolBlock(s.pools[i]) in Live(s.blk) && PoolBlock(s.pools[i]) !in Live(s'.blk)
  }

  /** A free of the tail of a pool with more pages out: accepted, and the chain is broken. */
  ghost predicate Corrupts(s: Kernel, i: nat, s': Kernel)
    requires i < |s.pools|
  {
    !Good(s') && |s'.pools| == |s.pools| && !PoolInv(s'.pools[i]) && s'.blk == s.blk
  }

  lemma TailFree(s: Kernel, i: nat, addr: u32, size: u32)
    requires Good(s) && FindOwner(s.pools, s.cache, addr, size) == Found(i) && i < |s.pools|
    requires IsTail(s.pools[i], addr)
    ensures var (s', r) := PageFree(s, addr, size);
      r == Done(true) && if s.pools[i].afindx == 1 then LosesPage(s, i, addr, s') else Corrupts(s, i, s')
  {
    hide Inv, Laid, Chained, LiveOf, LivePages, PagesOf, GivePage, DropPool, IsTail;
    var p := s.pools[i];
    assert PoolInv(p) && p.alloc_size == size && p.afindx >= 1;
    GiveCases(p, addr);
    var q := GivePage(p, addr).0;
    if p.afindx == 1 {
      PoolGoes(s, i, q);
      var j := OneTaken(p);
      OtherAddress(p, j, addr);
      assert PoolBlock(p) in PoolBlocks(s.pools);
    } else {
      TailBreaks(p, addr);
      BrokenPool(PageFree(s, addr, size).0, i);
    }
  }

  lemma BrokenPool(t: Kernel, i: nat)
    requires i < |t.pools| && !PoolInv(t.pools[i])
    ensures !Good(t)
  {
    hide Inv, LiveOf;
  }

  lemma OtherAddress(p: Pool, j: nat, addr: int)
    requires PoolInv(p) && Taken(p, j) && IsTail(p, addr)
    ensures PageAt(p, j).addr != addr
  {
    hide Chained, Chain;
    EntryAtIs(p, j);
  }

  /** kmem_pool_free_page for every address and size.  It dereferences null, or answers FALSE, and then
      changes nothing; it answers TRUE for a page that is out, and takes exactly that page; and it answers TRUE
      for the tail of the owner's free chain, which loses the one page that is out or breaks the chain. */
  lemma PageFreeExact(s: Kernel, addr: u32, size: u32)
    requires Good(s)
    ensures var (s', r) := PageFree(s, addr, size);
      match FindOwner(s.pools, s.cache, addr, size)
      case Fault => r == NullDeref && s' == s
      case Missing => r == Done(false) && s' == s
      case Found(i) =>
        var p, x := s.pools[i], Block(addr, size);
        if x in PagesOf(p) then
          r == Done(true) && Good(s') && Direct(s') == Direct(s) && LivePages(s'.pools) == LivePages(s.pools) - {x}
        else if IsTail(p, addr) then
          r == Done(true) && if p.afindx == 1 then LosesPage(s, i, addr, s') else Corrupts(s, i, s')
        else
          r == Done(false) && s' == s
  {
    hide Inv, Laid, Chained, LiveOf, LivePages, PagesOf, GivePage, DropPool, PoolBlocks, IsTail, LosesPage, Corrupts;
    var w := FindOwner(s.pools, s.cache, addr, size);
    if w.Found? {
      var p, x := s.pools[w.i], Block(addr, size);
      assert PoolInv(p) && p.alloc_size == size && p.afindx >= 1;
      GiveCases(p, addr);
      if x in PagesOf(p) {
        FindOwnerIff(s, w.i, x);
        PageFreeOfLivePage(s, w.i, x);
      } else if IsTail(p, addr) {
        TailFree(s, w.i, addr, size);
      }
    }
  }

  /** TRUE means that exactly the page (addr, size) was out and now is not. */
  ghost predicate KeepsItsWord(s: Kernel, addr: u32, size: u32)
    requires Good(s)
  {
    var (s', r) := PageFree(s, addr, size);
    r == Done(true) ==>
      Good(s') && Block(addr, size) in LivePages(s.pools) && LivePages(s'.pools) == LivePages(s.pools) - {Block(addr, size)}
  }

  /** The call keeps its word exactly when the address is not the tail of the free chain of the pool it finds. */
  lemma KeepsItsWordIff(s: Kernel, addr: u32, size: u32)
    requires Good(s)
    ensures var w := FindOwner(s.pools, s.cache, addr, size);
      KeepsItsWord(s, addr, size) <==> !(w.Found? && IsTail(s.pools[w.i], addr))
  {
    hide Inv, Laid, Chained, LiveOf, PagesOf, GivePage, DropPool, PoolBlocks, IsTail, PageFree;
    PageFreeExact(s, addr, size);
    var w := FindOwner(s.pools, s.cache, addr, size);
    if w.Found? {
      TailIsNotOut(s, w.i, addr, size);
    }
  }

  lemma TailIsNotOut(s: Kernel, i: nat, addr: u32, size: u32)
    requires Good(s) && i < |s.pools| && Owns(s.pools[i], addr, size)
    ensures Block(addr, size) in LivePages(s.pools) ==> Block(addr, size) in PagesOf(s.pools[i])
    ensures Block(addr, size) in PagesOf(s.pools[i]) ==> !IsTail(s.pools[i], addr)
  {
    hide Inv, Laid, Chained, LiveOf, PagesOf, PoolBlocks;
    var x := Block(addr, size);
    if x in LivePages(s.pools) {
      var j :| 0 <= j < |s.pools| && x in PagesOf(s.pools[j]);
      OwnerOwns(s, j, x, i);
    }
    GiveCases(s.pools[i], addr);
  }

  // ---------- Freeing twice ----------

  /** The page is out of the pool's chain of several, and the pool stays: what a second free of it meets. */
  lemma AfterFree(p: Pool, x: Block)
    requires PoolInv(p) && x in PagesOf(p) && p.afindx >= 2
    ensures var q := GivePage(p, x.addr).0;
      && PoolInv(q) && x !in PagesOf(q) && q.alloc_size == p.alloc_size == x.size && q.afindx >= 1
      && (IsTail(q, x.addr) <==> p.next_map == NIL)
  {
    hide Chain, Chained, BlockFor;
    var j := PageInPool(p, x);
    GiveKeepsInv(p, j);
    EntryAtIs(p, j);
    var q := GivePage(p, x.addr).0;
    TakenNext(p, j);
    EntryIsPage(q, x.addr);
    assert q.entries[j].start == x.addr && q.entries[j].next == p.next_map;
    SameStarts(p, q, j);
  }

  lemma TakenNext(p: Pool, j: nat)
    requires PoolInv(p) && Taken(p, j)
    ensures p.entries[j].next == NIL
  {
  }

  lemma SameStarts(p: Pool, q: Pool, j: nat)
    requires Laid(p) && Laid(q) && p.start == q.start && p.alloc_size == q.alloc_size && |p.entries| == |q.entries|
    requires j < |p.entries|
    ensures EntryAt(q.entries, p.entries[j].start) == j
  {
    EntryAtIs(q, j);
  }

  lemma OwnerAgain(s: Kernel, i: nat, x: Block, p: Pool)
    requires Good(s) && i < |s.pools| && x in PagesOf(s.pools[i]) && (s.cache == s.pools[i].start || i == 0)
    requires p.start == s.pools[i].start && p.end == s.pools[i].end && p.alloc_size == s.pools[i].alloc_size && p.afindx >= 1
    requires Good(s.(pools := s.pools[i := p]))
    ensures 0 <= x.addr < TWO_32 && 0 <= x.size < TWO_32
    ensures FindOwner(s.pools[i := p], s.cache, x.addr, x.size) == Found(i)
  {
    hide Inv, PoolInv, LiveOf, PagesOf, Owns, PoolBlocks;
    OwnerOwns(s, i, x, i);
    OwnerOwns(s, i, x, 0);
    assert Owns(p, x.addr, x.size) by {
      SameOwner(s.pools[i], p, x.addr, x.size);
    }
    var q := s.pools[i := p];
    var c := PoolAt(q, s.cache);
    if c < |q| && c != i {
      OwnerOwns(s, i, x, c);
      assert q[c] == s.pools[c];
    }
    if s.cache == p.start {
      assert q[i].start == s.cache;
      assert !(c < i);
    }
    if i == 0 && c < |q| && c != 0 {
      assert !Owns(q[c], x.addr, x.size);
    }
    StartPositive(s, i);
  }

  lemma SameOwner(p: Pool, q: Pool, addr: u32, size: u32)
    requires Owns(p, addr, size)
    requires p.start == q.start && p.end == q.end && p.alloc_size == q.alloc_size && q.afindx != 0
    ensures Owns(q, addr, size)
  {
  }

  lemma StartPositive(s: Kernel, i: nat)
    requires Good(s) && i < |s.pools|
    ensures s.pools[i].start > 0
  {
    hide Inv, LiveOf, Chained;
    assert PoolInv(s.pools[i]);
  }

  /** The second free of a page whose pool still has other pages out: accepted exactly when the pool had been
      handed out completely before the first.  Then it loses the last page that is out, or breaks the chain;
      otherwise it is refused. */
  lemma SecondFreeIff(s: Kernel, i: nat, x: Block)
    requires Good(s) && i < |s.pools| && x in PagesOf(s.pools[i]) && s.pools[i].afindx >= 2
    requires s.cache == s.pools[i].start || i == 0
    ensures 0 <= x.addr < TWO_32 && 0 <= x.size < TWO_32
    ensures var (t, r) := PageFree(s, x.addr, x.size);
      && r == Done(true) && Good(t) && i < |t.pools| && x !in LivePages(t.pools)
      && var (u, f) := PageFree(t, x.addr, x.size);
      if s.pools[i].next_map == NIL then
        f == Done(true) && if s.pools[i].afindx == 2 then LosesPage(t, i, x.addr, u) else Corrupts(t, i, u)
      else
        f == Done(false) && u == t
  {
    hide Inv, Laid, Chained, LiveOf, LivePages, PagesOf, GivePage, DropPool, PoolBlocks, IsTail, LosesPage,
         Corrupts, FindOwner;
    FindOwnerIff(s, i, x);
    PageFreeOfLivePage(s, i, x);
    FirstFree(s, i, x);
    var p := GivePage(s.pools[i], x.addr).0;
    AfterFree(s.pools[i], x);
    var t := s.(pools := s.pools[i := p]);
    OwnerAgain(s, i, x, p);
    PageFreeExact(t, x.addr, x.size);
  }

  lemma FirstFree(s: Kernel, i: nat, x: Block)
    requires Good(s) && i < |s.pools| && x in PagesOf(s.pools[i]) && s.pools[i].afindx >= 2
    requires 0 <= x.addr < TWO_32 && 0 <= x.size < TWO_32
    requires FindOwner(s.pools, s.cache, x.addr, x.size) == Found(i)
    ensures var p := GivePage(s.pools[i], x.addr).0;
      PageFree(s, x.addr, x.size) == (s.(pools := s.pools[i := p]), Done(true)) && p.afindx == s.pools[i].afindx - 1
      && p.start == s.pools[i].start && p.end == s.pools[i].end
  {
    hide Inv, Laid, Chained, LiveOf, LivePages, FindOwner, EntryAt;
    var j := PageInPool(s.pools[i], x);
    GiveToPool(s, i, j);
  }

  /** The second free of the page that drained its pool: FALSE when that was the only pool, the null pointer
      otherwise. */
  lemma SecondFreeOfLast(s: Kernel, i: nat, x: Block)
    requires Good(s) && i < |s.pools| && x in PagesOf(s.pools[i]) && s.pools[i].afindx == 1
    requires s.cache == s.pools[i].start || i == 0
    ensures 0 <= x.addr < TWO_32 && 0 <= x.size < TWO_32
    ensures var (t, r) := PageFree(s, x.addr, x.size);
      && r == Done(true) && Good(t)
      && PageFree(t, x.addr, x.size) == (t, if |s.pools| == 1 then Done(false) else NullDeref)
  {
    hide Inv, Laid, Chained, LiveOf, LivePages, PagesOf, DropPool, PoolBlocks, Owns, EntryAt;
    FindOwnerIff(s, i, x);
    PageFreeOfLivePage(s, i, x);
    var j := PageInPool(s.pools[i], x);
    GiveToPool(s, i, j);
    var p := GivePage(s.pools[i], x.addr).0;
    PoolGoes(s, i, p);
    var t := PageFree(s, x.addr, x.size).0;
    hide PageFree;
    forall k: nat | k < |t.pools|
      ensures !Owns(t.pools[k], x.addr, x.size)
    {
      RemovedAt(s.pools, i, k);
      OwnerOwns(s, i, x, if k < i then k else k + 1);
    }
    NobodyOwns(t, x.addr, x.size);
  }

  lemma NobodyOwns(t: Kernel, addr: u32, size: u32)
    requires Inv(t.blk) && forall k: nat | k < |t.pools| :: !Owns(t.pools[k], addr, size)
    ensures PageFree(t, addr, size) == (t, if t.pools == [] then Done(false) else NullDeref)
  {
    hide Inv, Owns, GivePage, DropPool;
  }
}
