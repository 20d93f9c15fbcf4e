/** One page pool (kernel/mem_pool.c) as a value: a block whose first page holds the header and the
    page map, and whose free pages are threaded through the map. */
module PoolModel {
  import opened Words
  import opened BlockModel

  const PAGE_SIZE: nat := 0x1000
  /** The null pointer of the map; any other pointer is the index of a map entry. */
  const NIL: int := -1
  /** Sizes of struct mem_pool_head and struct mem_pool_map on the 32-bit target. */
  const HEAD_BYTES: nat := 60
  const ENTRY_BYTES: nat := 8

  datatype Entry = Entry(start: int, next: int)
  datatype Pool = Pool(start: int, end: int, alloc_size: nat, obj_count: nat, afindx: nat, next_map: int,
                       entries: seq<Entry>)

  // ---------- Operations ----------

  /** The block size new_page_mpool asks for; 0 when the request is refused. */
  function BlockFor(size: nat): (blk: nat)
    ensures blk == 0x40000 <==> 0x3000 <= size < 0x1_1000
    ensures blk == 0x20000 <==> 0x1000 <= size < 0x3000 || 0x1_1000 <= size < 0x2_0000
    ensures blk != 0 <==> 0x1000 <= size < 0x20000
    ensures blk != 0 ==> ClassOf(blk) >= 0
  {
    var page_nr := size / PAGE_SIZE;
    if page_nr < 1 then 0
    else if page_nr <= 2 then 0x20000
    else if page_nr <= 16 then 0x40000
    else if page_nr <= 31 then 0x20000
    else 0
  }

  /** How many objects of `size` fit behind the first page of [start, end]. */
  function Capacity(start: int, end: int, size: nat): nat
    requires size > 0
  {
    if end < start + PAGE_SIZE then 0 else (end + 1 - (start + PAGE_SIZE)) / size
  }

  function NewEntries(start: int, size: nat, n: nat): (s: seq<Entry>)
    ensures |s| == n
    ensures forall i | 0 <= i < n :: s[i] == Entry(start + PAGE_SIZE + i * size, if i + 1 < n then i + 1 else NIL)
  {
    seq(n, i => Entry(start + PAGE_SIZE + i * size, if i + 1 < n then i + 1 else NIL))
  }

  /** page_mpool_init on an accepted block. */
  function NewPool(start: int, end: int, size: nat): Pool
    requires size > 0
  {
    var n := Capacity(start, end, size);
    Pool(start, end, size, n, 0, if n > 0 then 0 else NIL, NewEntries(start, size, n))
  }

  /** The test at the head of page_mpool_init. */
  predicate InitRejects(start: int, end: int) {
    start % PAGE_SIZE != 0 || end - start < PAGE_SIZE * 2 - 1
  }

  /** pool_head_is_ok. */
  predicate Accepts(p: Pool, size: nat) {
    p.next_map != NIL && p.alloc_size == size && p.afindx < p.obj_count
  }

  /** page_new_on_mplhead: the address is 0 when no page is handed out. */
  function TakePage(p: Pool): (Pool, int)
    requires p.next_map == NIL || 0 <= p.next_map < |p.entries|
  {
    if p.afindx >= p.obj_count || p.next_map == NIL then (p, 0)
    else
      var e := p.entries[p.next_map];
      (p.(next_map := e.next, entries := p.entries[p.next_map := e.(next := NIL)], afindx := p.afindx + 1), e.start)
  }

  /** deleted_pool_head_isok; the end of the page wraps at 32 bits. */
  predicate Owns(p: Pool, addr: u32, size: u32) {
    && p.alloc_size == size && p.afindx != 0
    && p.start + PAGE_SIZE <= addr && Wrap32(addr + size - 1) <= p.end
  }

  /** First entry whose page starts at `addr`, or the number of entries. */
  function EntryAt(es: seq<Entry>, addr: int): (i: nat)
    ensures i <= |es|
    ensures i < |es| ==> es[i].start == addr
    ensures forall j | 0 <= j < i :: es[j].start != addr
  {
    if es == [] then 0 else if es[0].start == addr then 0
    else
      var i := EntryAt(es[1..], addr);
      assert forall j | 1 <= j < i + 1 :: es[j] == es[1..][j - 1];
      1 + i
  }

  /** delete_page_on_mplhead. */
  function GivePage(p: Pool, addr: int): (Pool, bool) {
    var i := EntryAt(p.entries, addr);
    if p.afindx < 1 || i == |p.entries| || p.entries[i].next != NIL then (p, false)
    else
      (p.(entries := p.entries[i := p.entries[i].(next := p.next_map)], next_map := i, afindx := p.afindx - 1), true)
  }

  // ---------- The free chain ----------

  /** The entries met when following the map from `head` for at most `n` steps. */
  function Follow(es: seq<Entry>, head: int, n: nat): seq<nat>
    decreases n
  {
    if n == 0 || head < 0 || head >= |es| then [] else [head] + Follow(es, es[head].next, n - 1)
  }

  /** `c` is the whole chain from `head`: it ends in the null pointer. */
  ghost predicate IsChain(es: seq<Entry>, head: int, c: seq<nat>)
    decreases |c|
  {
    if c == [] then head == NIL
    else c[0] == head && c[0] < |es| && IsChain(es, es[c[0]].next, c[1..])
  }

  ghost predicate NoDup(c: seq<nat>) {
    forall i, j | 0 <= i < j < |c| :: c[i] != c[j]
  }

  function Chain(p: Pool): seq<nat> {
    Follow(p.entries, p.next_map, if p.obj_count >= p.afindx then p.obj_count - p.afindx else 0)
  }

  /** Entry `i` is handed out. */
  ghost predicate Taken(p: Pool, i: nat) {
    i < |p.entries| && i !in Chain(p)
  }

  function PageAt(p: Pool, i: nat): Block {
    Block(p.start + PAGE_SIZE + i * p.alloc_size, p.alloc_size)
  }

  ghost function PagesOf(p: Pool): set<Block> {
    set i | 0 <= i < |p.entries| && Taken(p, i) :: PageAt(p, i)
  }

  /** `n` objects of `size` fit behind the first page of [start, end], and no more. */
  predicate Fills(start: int, end: int, size: nat, n: nat) {
    start + PAGE_SIZE + n * size <= end + 1 < start + PAGE_SIZE + n * size + size
  }

  lemma CapacityFills(start: int, end: int, size: nat, n: nat)
    requires size > 0 && start + PAGE_SIZE <= end + 1
    ensures Fills(start, end, size, n) <==> n == Capacity(start, end, size)
  {
    var room: nat := end + 1 - (start + PAGE_SIZE);
    var q, r := room / size, room % size;
    assert room == size * q + r;
    if Fills(start, end, size, n) {
      DivideExactly(room, size, n, room - n * size);
    }
  }

  /** The geometry of a pool, fixed when it is made. */
  ghost predicate Laid(p: Pool) {
    && 0 < p.start && p.start % PAGE_SIZE == 0 && 0x1000 <= p.alloc_size < 0x20000
    && p.end + 1 - p.start == BlockFor(p.alloc_size) && p.end + 0x20000 < TWO_32
    && p.obj_count == |p.entries| && Fills(p.start, p.end, p.alloc_size, p.obj_count)
    && forall i | 0 <= i < |p.entries| :: p.entries[i].start == p.start + PAGE_SIZE + i * p.alloc_size
  }

  /** The chain from `next_map` is acyclic, ends in the null pointer and has obj_count - afindx
      entries; the entries off the chain have a null pointer. */
  ghost predicate Chained(p: Pool) {
    && p.afindx <= p.obj_count
    && |Chain(p)| == p.obj_count - p.afindx
    && IsChain(p.entries, p.next_map, Chain(p)) && NoDup(Chain(p))
    && (forall i | 0 <= i < |Chain(p)| :: Chain(p)[i] < |p.entries|)
    && forall i: nat | Taken(p, i) :: p.entries[i].next == NIL
  }

  ghost predicate PoolInv(p: Pool) {
    Laid(p) && Chained(p)
  }

  // ---------- Laws: chains ----------

  lemma {:induction false} ChainIsFollow(es: seq<Entry>, head: int, c: seq<nat>)
    requires IsChain(es, head, c)
    ensures Follow(es, head, |c|) == c
    decreases |c|
  {
    if c != [] {
      ChainIsFollow(es, es[c[0]].next, c[1..]);
      assert c == [c[0]] + c[1..];
    }
  }

  /** A write to an entry off the chain leaves the chain alone. */
  lemma {:induction false} ChainOffWrite(es: seq<Entry>, head: int, c: seq<nat>, i: nat, e: Entry)
    requires IsChain(es, head, c) && i < |es| && i !in c
    ensures IsChain(es[i := e], head, c)
    decreases |c|
  {
    if c != [] {
      assert c[0] in c;
      assert forall x | x in c[1..] :: x in c;
      ChainOffWrite(es, es[c[0]].next, c[1..], i, e);
    }
  }

  /** A pool that realises the chain `c` is chained. */
  lemma ChainedBy(p: Pool, c: seq<nat>)
    requires p.afindx <= p.obj_count && |c| == p.obj_count - p.afindx
    requires IsChain(p.entries, p.next_map, c) && NoDup(c) && forall i | 0 <= i < |c| :: c[i] < |p.entries|
    requires forall i: nat | i < |p.entries| && i !in c :: p.entries[i].next == NIL
    ensures Chained(p) && Chain(p) == c
  {
    ChainIsFollow(p.entries, p.next_map, c);
    hide IsChain, Follow;
  }

  function UpTo(i: nat, n: nat): (s: seq<nat>)
    requires i <= n
    ensures |s| == n - i && forall j | 0 <= j < n - i :: s[j] == i + j
    decreases n - i
  {
    if i == n then [] else [i] + UpTo(i + 1, n)
  }

  lemma {:induction false} NewChain(start: int, size: nat, n: nat, i: nat)
    requires i <= n
    ensures IsChain(NewEntries(start, size, n), if i < n then i else NIL, UpTo(i, n))
    decreases n - i
  {
    if i < n {
      NewChain(start, size, n, i + 1);
      assert UpTo(i, n)[1..] == UpTo(i + 1, n);
    }
  }

  /** A new pool is in order and has handed out nothing. */
  lemma NewPoolInv(start: int, size: nat)
    requires 0 < start && start % PAGE_SIZE == 0 && 0x1000 <= size < 0x20000
    requires start + BlockFor(size) - 1 + 0x20000 < TWO_32
    ensures var p := NewPool(start, start + BlockFor(size) - 1, size); PoolInv(p) && PagesOf(p) == {}
    ensures !InitRejects(start, start + BlockFor(size) - 1)
  {
    hide IsChain, Follow, Chained, Fills, Capacity;
    NewPoolChained(start, start + BlockFor(size) - 1, size);
    CapacityFills(start, start + BlockFor(size) - 1, size, Capacity(start, start + BlockFor(size) - 1, size));
  }

  lemma NewPoolChained(start: int, end: int, size: nat)
    requires size > 0
    ensures Chained(NewPool(start, end, size)) && PagesOf(NewPool(start, end, size)) == {}
  {
    hide Capacity;
    var p := NewPool(start, end, size);
    NewChain(start, size, p.obj_count, 0);
    hide IsChain, Follow;
    forall i: nat | i < |p.entries| ensures i in UpTo(0, p.obj_count) {
      assert UpTo(0, p.obj_count)[i] == i;
    }
    ChainedBy(p, UpTo(0, p.obj_count));
  }

  /** The chain starts at `next_map`. */
  lemma ChainHead(p: Pool)
    requires PoolInv(p)
    ensures p.next_map == NIL <==> p.afindx == p.obj_count
    ensures p.next_map != NIL ==> 0 <= p.next_map < |p.entries| && Chain(p) != [] && Chain(p)[0] == p.next_map
  {
  }

  lemma TakeChained(p: Pool)
    requires Chained(p) && |p.entries| == p.obj_count && p.next_map != NIL
    requires 0 <= p.next_map < |p.entries| && Chain(p) != [] && Chain(p)[0] == p.next_map
    ensures var p' := TakePage(p).0;
      Chained(p') && Chain(p') == Chain(p)[1..] && p.next_map !in Chain(p)[1..]
  {
    hide BlockFor, Follow;
    var c, i := Chain(p), p.next_map;
    var p' := TakePage(p).0;
    assert i !in c[1..];
    ChainOffWrite(p.entries, p.entries[i].next, c[1..], i, p.entries[i].(next := NIL));
    assert forall j: nat | j < |p.entries| && j !in c[1..] :: j == i || j !in c;
    ChainedBy(p', c[1..]);
  }

  lemma TakePages(p: Pool, p': Pool, i: nat)
    requires i < |p.entries| == |p'.entries| && p'.start == p.start && p'.alloc_size == p.alloc_size
    requires Chain(p) != [] && Chain(p)[0] == i && Chain(p') == Chain(p)[1..] && i !in Chain(p)[1..]
    ensures PagesOf(p') == PagesOf(p) + {PageAt(p, i)} && !Taken(p, i)
  {
    hide Chain;
    assert forall j | 0 <= j < |p.entries| :: PageAt(p', j) == PageAt(p, j);
    assert forall j: nat | j < |p.entries| :: Taken(p', j) <==> Taken(p, j) || j == i;
  }

  /** Taking a page from a pool with a free one hands out the head of the chain, which was free. */
  lemma TakeKeepsInv(p: Pool)
    requires PoolInv(p) && p.next_map != NIL
    ensures var (p', a) := TakePage(p);
      && PoolInv(p') && Chain(p') == Chain(p)[1..]
      && a == PageAt(p, p.next_map).addr
      && PagesOf(p') == PagesOf(p) + {Block(a, p.alloc_size)}
      && !Taken(p, p.next_map)
  {
    hide Chain, Chained, BlockFor, PagesOf, Taken;
    ChainHead(p);
    UsedBelowCount(p);
    TakeChained(p);
    TakePages(p, TakePage(p).0, p.next_map);
  }

  lemma UsedBelowCount(p: Pool)
    requires PoolInv(p) && p.next_map != NIL
    ensures p.afindx < p.obj_count == |p.entries|
  {
    ChainHead(p);
  }

  /** Entries start at distinct addresses, so the search by address finds the entry. */
  lemma EntryAtIs(p: Pool, i: nat)
    requires Laid(p) && i < |p.entries|
    ensures EntryAt(p.entries, PageAt(p, i).addr) == i
  {
    var j := EntryAt(p.entries, PageAt(p, i).addr);
    assert p.entries[i].start == PageAt(p, i).addr;
    if j < i {
      MulGap(j, i, p.alloc_size);
    }
  }

  /** Giving back a page that is handed out succeeds, and puts its entry at the head of the chain. */
  lemma GiveKeepsInv(p: Pool, i: nat)
    requires PoolInv(p) && Taken(p, i)
    ensures var (p', ok) := GivePage(p, PageAt(p, i).addr);
      && ok && PoolInv(p') && Chain(p') == [i] + Chain(p) && p'.afindx == p.afindx - 1
      && PagesOf(p') == PagesOf(p) - {PageAt(p, i)}
  {
    EntryAtIs(p, i);
    TakenMeansUsed(p, i);
    GiveChained(p, i);
    var p' := GivePage(p, PageAt(p, i).addr).0;
    assert Laid(p') by {
      hide Chained, Chain, Follow, IsChain;
    }
    GivePages(p, p', i);
  }

  lemma GivePages(p: Pool, p': Pool, i: nat)
    requires Laid(p) && Taken(p, i) && Chain(p') == [i] + Chain(p)
    requires |p'.entries| == |p.entries| && p'.start == p.start && p'.alloc_size == p.alloc_size
    ensures PagesOf(p') == PagesOf(p) - {PageAt(p, i)}
  {
    hide Chain, BlockFor;
    forall j: nat | j < |p.entries| ensures PageAt(p', j) == PageAt(p, j) && (Taken(p', j) <==> Taken(p, j) && j != i)
      && (PageAt(p, j) == PageAt(p, i) ==> j == i)
    {
      if j != i {
        PagesDiffer(p, i, j);
      }
    }
    hide PageAt, Taken;
  }

  /** Pages of one pool do not overlap. */
  lemma PagesDiffer(p: Pool, i: nat, j: nat)
    requires p.alloc_size > 0 && i != j
    ensures !Overlap(PageAt(p, i), PageAt(p, j)) && PageAt(p, i) != PageAt(p, j)
  {
    if i < j {
      MulGap(i, j, p.alloc_size);
    } else {
      MulGap(j, i, p.alloc_size);
    }
  }

  lemma {:induction false} MulGap(i: nat, j: nat, s: nat)
    requires i < j && s > 0
    ensures i * s + s <= j * s
    decreases j
  {
    assert j * s == (j - 1) * s + s;
    if i < j - 1 {
      MulGap(i, j - 1, s);
    }
  }

  /** When some page is handed out the count of handed-out pages is positive. */
  lemma TakenMeansUsed(p: Pool, i: nat)
    requires PoolInv(p) && Taken(p, i)
    ensures p.afindx >= 1
  {
    if p.afindx == 0 {
      AllCovered(Chain(p), |p.entries|, i);
    }
  }

  /** `n` distinct numbers below `n` are all of them. */
  lemma {:induction false} AllCovered(c: seq<nat>, n: nat, i: nat)
    requires NoDup(c) && |c| == n && i < n && forall j | 0 <= j < |c| :: c[j] < n
    ensures i in c
  {
    SizeOfImage(c);
    if i !in c {
      SubsetSize(Image(c), Below(n) - {i});
      assert false;
    }
  }

  ghost function Image(c: seq<nat>): set<nat> {
    set j | 0 <= j < |c| :: c[j]
  }

  ghost function Below(n: nat): (s: set<nat>)
    ensures |s| == n && forall x: nat :: x in s <==> x < n
  {
    if n == 0 then {} else Below(n - 1) + {n - 1}
  }

  lemma {:induction false} SizeOfImage(c: seq<nat>)
    requires NoDup(c)
    ensures |Image(c)| == |c|
    decreases |c|
  {
    if c != [] {
      var d := c[..|c| - 1];
      SizeOfImage(d);
      assert Image(c) == Image(d) + {c[|c| - 1]};
    }
  }

  lemma {:induction false} SubsetSize(s: set<nat>, t: set<nat>)
    requires s <= t
    ensures |s| <= |t|
  {
    if s != {} {
      var x :| x in s;
      SubsetSize(s - {x}, t - {x});
    }
  }

  lemma GiveChained(p: Pool, i: nat)
    requires PoolInv(p) && Taken(p, i) && p.afindx >= 1 && EntryAt(p.entries, PageAt(p, i).addr) == i
    ensures var (p', ok) := GivePage(p, PageAt(p, i).addr);
      ok && Chained(p') && Chain(p') == [i] + Chain(p)
  {
    hide Laid, BlockFor, Follow;
    var c := Chain(p);
    var p' := GivePage(p, PageAt(p, i).addr).0;
    ChainOffWrite(p.entries, p.next_map, c, i, p.entries[i].(next := p.next_map));
    assert ([i] + c)[1..] == c;
    assert forall j: nat | j < |p.entries| && j !in [i] + c :: j != i && j !in c;
    ChainedBy(p', [i] + c);
  }

  // ---------- Results about one pool ----------

  /** Pages lie behind the first page of the block and end inside it. */
  lemma PageInside(p: Pool, i: nat)
    requires Laid(p) && i < |p.entries|
    ensures p.start + PAGE_SIZE <= PageAt(p, i).addr && PageAt(p, i).addr + p.alloc_size - 1 <= p.end
  {
    MulAtLeast(p.obj_count, i + 1, p.alloc_size);
    assert (i + 1) * p.alloc_size == i * p.alloc_size + p.alloc_size;
  }

  lemma QuotientFits(m: nat, d: nat)
    requires d > 0
    ensures (m / d) * d <= m < (m / d) * d + d
  {
    assert m == d * (m / d) + m % d;
  }

  lemma CapacitySmall(start: int, size: nat)
    requires BlockFor(size) != 0
    ensures Capacity(start, start + BlockFor(size) - 1, size) <= 31
  {
    var m := BlockFor(size) - PAGE_SIZE;
    QuotientFits(m, size);
    if m / size >= 32 {
      MulAtLeast(m / size, 32, size);
    }
  }

  /** The header and the page map fit in the first page of the block, also the extra entry written
      when the pool has no object at all. */
  lemma MapFits(p: Pool)
    requires Laid(p)
    ensures HEAD_BYTES + ENTRY_BYTES * (if p.obj_count == 0 then 1 else p.obj_count) <= PAGE_SIZE
    ensures p.obj_count <= 31
  {
    if p.obj_count >= 32 {
      MulAtLeast(p.obj_count, 32, p.alloc_size);
    }
  }

  lemma MulAtLeast(n: nat, k: nat, s: nat)
    requires n >= k
    ensures n * s >= k * s
  {
    assert n * s == k * s + (n - k) * s;
  }

  /** A pool has no object exactly for the sizes that leave no room behind the first page. */
  lemma NoObjectIff(p: Pool)
    requires Laid(p)
    ensures p.obj_count == 0 <==> 0x1f000 < p.alloc_size
  {
    var m := p.end + 1 - (p.start + PAGE_SIZE);
    assert m >= 0x1f000 && (0x1f000 < p.alloc_size ==> m == 0x1f000);
    if p.obj_count >= 1 {
      MulAtLeast(p.obj_count, 1, p.alloc_size);
    }
  }

  /** delete_page_on_mplhead takes a page start for handed out when its entry has a null pointer.
      That is right for every entry but the last of the free chain: giving back the page of entry `i`
      keeps the pool in order exactly when the entry is handed out, or not accepted at all. */
  lemma GiveKeepsInvIff(p: Pool, i: nat)
    requires PoolInv(p) && i < |p.entries|
    ensures PoolInv(GivePage(p, PageAt(p, i).addr).0) <==>
      (Taken(p, i) || p.afindx == 0 || p.entries[i].next != NIL)
  {
    EntryAtIs(p, i);
    if Taken(p, i) {
      GiveKeepsInv(p, i);
    } else if p.afindx > 0 && p.entries[i].next == NIL {
      FreedTwice(p, GivePage(p, PageAt(p, i).addr).0, i);
    }
  }

  /** Along a chain each entry points to the next, and the last one to null. */
  lemma {:induction false} ChainStep(es: seq<Entry>, head: int, c: seq<nat>, k: nat)
    requires IsChain(es, head, c) && k < |c|
    ensures c[k] < |es| && es[c[k]].next == if k + 1 < |c| then c[k + 1] else NIL
    decreases k
  {
    if k > 0 {
      ChainStep(es, es[c[0]].next, c[1..], k - 1);
    }
  }

  /** While the old chain has not reached its last entry, the new chain runs along it one behind. */
  lemma {:induction false} RunsAlong(p: Pool, p': Pool, i: nat, k: nat)
    requires PoolInv(p) && Chained(p') && i < |p.entries|
    requires p'.entries == p.entries[i := p.entries[i].(next := p.next_map)] && p'.next_map == i
    requires |Chain(p')| == |Chain(p)| + 1 && k < |Chain(p)| && Chain(p)[|Chain(p)| - 1] == i
    ensures Chain(p')[k + 1] == Chain(p)[k]
    decreases k
  {
    hide Laid, Follow, Taken;
    ChainStep(p'.entries, p'.next_map, Chain(p'), k);
    if k > 0 {
      RunsAlong(p, p', i, k - 1);
      ChainStep(p.entries, p.next_map, Chain(p), k - 1);
    }
  }

  /** Entry `i` cannot both start a chain and be its end. */
  lemma FreedTwice(p: Pool, p': Pool, i: nat)
    requires PoolInv(p) && i < |p.entries| && i in Chain(p) && p.entries[i].next == NIL
    requires p'.entries == p.entries[i := p.entries[i].(next := p.next_map)] && p'.next_map == i
    requires p'.afindx == p.afindx - 1 && p'.obj_count == p.obj_count
    ensures !Chained(p')
  {
    if Chained(p') {
      var c := Chain(p);
      var k :| 0 <= k < |c| && c[k] == i;
      ChainStep(p.entries, p.next_map, c, k);
      RunsAlong(p, p', i, k);
    }
  }

  /** A concrete double free that is accepted and ties the free chain into a loop: of three pages two
      are handed out, and the third is given back. */
  lemma DoubleFreeOfTail() returns (p: Pool)
    ensures PoolInv(p) && p.obj_count == 3 && p.afindx == 2 && !Taken(p, 2)
    ensures GivePage(p, PageAt(p, 2).addr).1
    ensures !PoolInv(GivePage(p, PageAt(p, 2).addr).0)
  {
    var q := NewPool(0x8000_0000, 0x8003_ffff, 0x10000);
    NewPoolInv(0x8000_0000, 0x10000);
    assert q.obj_count == 3;
    TakeKeepsInv(q);
    var r := TakePage(q).0;
    ChainHead(r);
    assert r.next_map == 1;
    TakeKeepsInv(r);
    p := TakePage(r).0;
    ChainHead(p);
    assert p.next_map == 2 && Chain(p)[0] == 2;
    EntryAtIs(p, 2);
    GiveKeepsInvIff(p, 2);
  }
}
