/** The page layer as the program has it (kernel/mem_pool.c): pool headers are objects on an intrusive
    ring, each with its page map in an array that is updated in place. */
module PagePool {
  import opened Words
  import opened BlockModel
  import opened IntrusiveList
  import opened PhysMem
  import opened PoolModel
  import opened PageModel

  /** Room for map entries behind the header in the first page of a block. */
  const MAP_MAX: nat := (PAGE_SIZE - HEAD_BYTES) / ENTRY_BYTES

  class MemPoolHead {
    const list: ListHead
    const start: int
    const end: int
    const alloc_size: nat
    var next_map: int
    var obj_count: nat
    var afindx: nat
    const pool_map: array<Entry>

    /** mem_pool_head_init and the plain assignments of page_mpool_init. */
    constructor (start: int, end: int, size: nat)
      ensures this.start == start && this.end == end && alloc_size == size
      ensures next_map == NIL && obj_count == 0 && afindx == 0
      ensures fresh(list) && list.id == start && SelfLinked(list)
      ensures fresh(pool_map) && pool_map.Length == MAP_MAX
    {
      list := new ListHead(start);
      this.start, this.end, alloc_size := start, end, size;
      next_map, obj_count, afindx := NIL, 0, 0;
      pool_map := new Entry[MAP_MAX](_ => Entry(0, NIL));
    }

    ghost predicate Ok()
      reads this
    {
      list.id == start && pool_map.Length == MAP_MAX && obj_count <= MAP_MAX
    }

    ghost function Val(): Pool
      requires Ok()
      reads this, pool_map
    {
      Pool(start, end, alloc_size, obj_count, afindx, next_map, pool_map[..obj_count])
    }

    static lemma EntriesAre(es: seq<Entry>, start: int, size: nat, n: nat)
      requires |es| == n
      requires forall i | 0 <= i < n :: es[i] == Entry(start + PAGE_SIZE + i * size, if i + 1 < n then i + 1 else NIL)
      ensures es == NewEntries(start, size, n)
    {
    }

    /** The loop of page_mpool_init and what follows it.  The map never outgrows the first page. */
    method FillMap()
      requires Ok() && obj_count == 0 && afindx == 0 && next_map == NIL
      requires 0 < start && start % PAGE_SIZE == 0 && BlockFor(alloc_size) != 0
      requires end == start + BlockFor(alloc_size) - 1 && end + 0x20000 < TWO_32
      modifies this, pool_map
      ensures Ok() && Val() == NewPool(start, end, alloc_size)
    {
      var sadr, pi := start + PAGE_SIZE, 0;
      ghost var n := Capacity(start, end, alloc_size);
      CapacitySmall(start, alloc_size);
      hide Capacity, BlockFor;
      while sadr + alloc_size - 1 <= end
        invariant pi <= n && sadr == start + PAGE_SIZE + pi * alloc_size
        invariant forall i | 0 <= i < pi :: pool_map[i] == Entry(start + PAGE_SIZE + i * alloc_size, i + 1)
        invariant Ok() && obj_count == 0 && afindx == 0 && next_map == NIL
        decreases n - pi
      {
        CapacityTest(start, end, alloc_size, pi);
        pool_map[pi] := Entry(sadr, pi + 1);
        sadr := sadr + alloc_size;
        pi := pi + 1;
      }
      CapacityTest(start, end, alloc_size, pi);
      if pi > 0 {
        pool_map[pi - 1] := pool_map[pi - 1].(next := NIL);
        next_map := 0;
      } else {
        pool_map[pi] := Entry(0, NIL);
      }
      obj_count := pi;
      EntriesAre(pool_map[..obj_count], start, alloc_size, n);
    }

    /** pool_head_is_ok. */
    method IsOk(size: nat) returns (ok: bool)
      requires Ok()
      ensures ok <==> Accepts(Val(), size)
    {
      if next_map == NIL {
        return false;
      }
      if alloc_size != size {
        return false;
      }
      if afindx >= obj_count {
        return false;
      }
      ok := true;
    }

    /** page_new_on_mplhead. */
    method NewPage() returns (addr: int)
      requires Ok() && (next_map == NIL || 0 <= next_map < obj_count)
      modifies this, pool_map
      ensures Ok() && (Val(), addr) == TakePage(old(Val()))
    {
      if afindx >= obj_count {
        return 0;
      }
      if next_map != NIL {
        var map_index := next_map;
        next_map := pool_map[map_index].next;
        pool_map[map_index] := pool_map[map_index].(next := NIL);
        afindx := afindx + 1;
        return pool_map[map_index].start;
      }
      return 0;
    }

    /** deleted_pool_head_isok. */
    method IsOwner(addr: u32, size: u32) returns (ok: bool)
      requires Ok()
      ensures ok <==> Owns(Val(), addr, size)
    {
      if alloc_size != size {
        return false;
      }
      if afindx == 0 {
        return false;
      }
      if addr < start + PAGE_SIZE || Wrap32(addr + size - 1) > end {
        return false;
      }
      ok := true;
    }

    /** delete_page_on_mplhead. */
    method DeletePage(addr: int) returns (ok: bool)
      requires Ok()
      modifies this, pool_map
      ensures Ok() && (Val(), ok) == GivePage(old(Val()), addr)
    {
      ghost var p := Val();
      if afindx < 1 || obj_count < 1 {
        return false;
      }
      var i := 0;
      while i < obj_count
        invariant i <= obj_count && forall j | 0 <= j < i :: pool_map[j].start != addr
        invariant Ok() && Val() == p
      {
        if addr == pool_map[i].start {
          if pool_map[i].next != NIL {
            return false;
          }
          pool_map[i] := pool_map[i].(next := next_map);
          next_map := i;
          afindx := afindx - 1;
          return true;
        }
        i := i + 1;
      }
      return false;
    }
  }

  /** The loop test of page_mpool_init holds exactly while fewer objects are laid out than fit. */
  lemma CapacityTest(start: int, end: int, size: nat, k: nat)
    requires size > 0 && start + PAGE_SIZE <= end
    ensures start + PAGE_SIZE + k * size + size - 1 <= end <==> k < Capacity(start, end, size)
  {
    var m := end + 1 - (start + PAGE_SIZE);
    QuotientFits(m, size);
    if k < m / size {
      MulAtLeast(m / size, k + 1, size);
      assert (k + 1) * size == k * size + size;
    } else {
      MulAtLeast(k, m / size, size);
    }
  }

  ghost function Lists(pools: seq<MemPoolHead>): (s: seq<ListHead>)
    ensures |s| == |pools| && forall i | 0 <= i < |s| :: s[i] == pools[i].list
  {
    seq(|pools|, i requires 0 <= i < |pools| => pools[i].list)
  }

  class KmemPool {
    const page_pool_head: ListHead
    var page_pool_count: int
    var page_pool_cache: MemPoolHead?
    const phys: PhyMem
    /** The memory as far as list_entry needs it: the header that starts at an address. */
    var header_at: map<int, MemPoolHead>
    ghost var pools: seq<MemPoolHead>
    ghost var nodes: set<ListHead>
    ghost var maps: set<array<Entry>>
    /** The state as a value; `Rep` ties it to the fields. */
    ghost var kernel: Kernel

    ghost function Ring(): Rings
      reads `pools
    {
      map[page_pool_head := Lists(pools)]
    }

    /** The pool objects, one by one and against each other. */
    ghost predicate PoolsRep()
      reads `kernel, `pools, `header_at, `maps, pools, maps
    {
      && |kernel.pools| == |pools|
      && (forall i | 0 <= i < |pools| :: pools[i].pool_map in maps)
      && (forall i | 0 <= i < |pools| :: pools[i].Ok() && kernel.pools[i] == pools[i].Val())
      && (forall i | 0 <= i < |pools| :: pools[i].start in header_at && header_at[pools[i].start] == pools[i])
      && (forall i, j | 0 <= i < j < |pools| :: pools[i] != pools[j] && pools[i].pool_map != pools[j].pool_map)
    }

    /** The same, except that the fields of pool `k` may have moved on. */
    ghost predicate PoolsRepBut(k: nat)
      reads `kernel, `pools, `header_at, `maps, set i | 0 <= i < |pools| && i != k :: pools[i],
            set i | 0 <= i < |pools| && i != k :: pools[i].pool_map
    {
      && |kernel.pools| == |pools|
      && (forall i | 0 <= i < |pools| :: pools[i].pool_map in maps)
      && (forall i | 0 <= i < |pools| && i != k :: pools[i].Ok() && kernel.pools[i] == pools[i].Val())
      && (forall i | 0 <= i < |pools| :: pools[i].start in header_at && header_at[pools[i].start] == pools[i])
      && (forall i, j | 0 <= i < j < |pools| :: pools[i] != pools[j] && pools[i].pool_map != pools[j].pool_map)
    }

    ghost predicate CacheRep()
      reads `kernel, `page_pool_cache, `pools
    {
      && kernel.cache == (if page_pool_cache == null then 0 else page_pool_cache.start)
      && (page_pool_cache != null ==> page_pool_cache in pools)
    }

    ghost predicate Rep()
      reads this, nodes, pools, maps, phys, phys.heads, phys.descs
    {
      && PoolsRep() && CacheRep()
      && WellFormed(nodes, Ring()) && nodes !! phys.heads
      && kernel.count == page_pool_count
      && phys.Valid() && kernel.blk == phys.blocks
    }

    ghost predicate Valid()
      reads this, nodes, pools, maps, phys, phys.heads, phys.descs
    {
      Rep() && Good(kernel)
    }

    /** kmem_pool_init, on top of a block layer that is in order. */
    constructor (phys: PhyMem)
      requires phys.Valid()
      ensures Valid() && this.phys == phys && kernel == Kernel(phys.blocks, [], 0, 0)
      ensures fresh(nodes) && pools == []
    {
      hide WellFormed, Inv, Good, PhyMem.Valid, PhyMem.Rep, Valid, Rep, Ring, PoolsRep, CacheRep;
      page_pool_head := new ListHead(0);
      page_pool_count, page_pool_cache := 0, null;
      this.phys := phys;
      header_at := map[];
      pools, maps := [], {};
      nodes := {page_pool_head};
      kernel := Kernel(phys.blocks, [], 0, 0);
      new;
      EmptyRep();
    }

    lemma EmptyRep()
      requires pools == [] && maps == {} && nodes == {page_pool_head} && SelfLinked(page_pool_head)
      requires kernel == Kernel(phys.blocks, [], 0, 0) && page_pool_count == 0 && page_pool_cache == null
      requires phys.Valid() && page_pool_head !in phys.heads
      ensures Valid()
    {
      hide PhyMem.Valid, PhyMem.Rep, Inv, Good;
      phys.InvSeen();
      NoPoolsIsGood(phys.blocks);
      EmptyLists(nodes, nodes);
      assert (map h | h in nodes :: []) == Ring();
    }

    // ---------- What the representation says ----------

    lemma PoolSeen(i: nat)
      requires Rep() && i < |kernel.pools|
      ensures |pools| == |kernel.pools| && pools[i].Ok() && kernel.pools[i] == pools[i].Val()
      ensures pools[i].start in header_at && header_at[pools[i].start] == pools[i] && pools[i].list.id == pools[i].start
      ensures pools[i].pool_map in maps
    {
    }

    lemma RingSeen()
      requires Rep()
      ensures WellFormed(nodes, Ring()) && |Ring()[page_pool_head]| == |pools| == |kernel.pools|
      ensures kernel.count == page_pool_count
      ensures forall i | 0 <= i < |pools| :: Ring()[page_pool_head][i] == pools[i].list
    {
    }

    /** The cached header is the pool whose block starts there. */
    lemma CacheSeen()
      requires Valid()
      ensures kernel.cache == 0 <==> page_pool_cache == null
      ensures page_pool_cache != null ==>
        var c := PoolAt(kernel.pools, kernel.cache);
        c < |kernel.pools| == |pools| && page_pool_cache == pools[c]
    {
      hide PhyMem.Valid, WellFormed, Inv;
      if page_pool_cache != null {
        var i :| 0 <= i < |pools| && pools[i] == page_pool_cache;
        PoolSeen(i);
        CacheIndex(kernel, i);
      }
    }

    lemma CacheIndex(s: Kernel, i: nat)
      requires Good(s) && i < |s.pools| && s.cache == s.pools[i].start
      ensures s.cache != 0 && PoolAt(s.pools, s.cache) == i
    {
      hide Inv, Chained;
      assert PoolInv(s.pools[i]);
      var c := PoolAt(s.pools, s.cache);
      assert !(c < i) && !(i < c);
    }

    /** list_entry on a node of the ring. */
    method Header(node: ListHead, ghost i: nat) returns (h: MemPoolHead)
      requires Rep() && i < |pools| && node == pools[i].list
      ensures h == pools[i]
    {
      PoolSeen(i);
      h := header_at[node.id];
    }

    // ---------- Allocation ----------

    /** A write to the cache. */
    method SetCache(h: MemPoolHead, ghost i: nat)
      requires Rep() && i < |pools| && h == pools[i]
      modifies this`page_pool_cache, this`kernel
      ensures Rep() && kernel == old(kernel).(cache := h.start)
    {
      hide WellFormed, PhyMem.Valid;
      page_pool_cache := h;
      kernel := kernel.(cache := h.start);
    }

    /** find_pool_head_by_size. */
    method FindPoolHeadBySize(size: nat) returns (h: MemPoolHead?, ghost i: nat)
      requires Valid()
      modifies this`page_pool_cache, this`kernel
      ensures Valid() && i == FindPool(old(kernel).pools, old(kernel).cache, size).0
      ensures kernel == old(kernel).(cache := FindPool(old(kernel).pools, old(kernel).cache, size).1)
      ensures if i < |kernel.pools| then i < |pools| && h == pools[i] else h == null
    {
      hide Rep, Inv, PoolsOk, PoolBlocks, LiveOf, CacheOk;
      CacheSeen();
      CacheAgrees(kernel, size);
      OtherCache(kernel, FindPool(kernel.pools, kernel.cache, size).1);
      i := PoolAt(kernel.pools, kernel.cache);
      if page_pool_cache != null {
        PoolSeen(i);
        var ok := page_pool_cache.IsOk(size);
        if ok {
          h := page_pool_cache;
          return;
        }
      }
      h, i := FirstOk(size);
      if h != null {
        PoolSeen(i);
        SetCache(h, i);
      }
    }

    /** The node after position `i` of the list walk; position 0 is the anchor. */
    method Following(cursor: ListHead, ghost i: nat) returns (next: ListHead)
      requires Rep() && i <= |pools| && cursor == if i == 0 then page_pool_head else pools[i - 1].list
      ensures next == if i < |pools| then pools[i].list else page_pool_head
      ensures next == page_pool_head <==> i == |pools|
    {
      hide Rep, WellFormed, At;
      RingSeen();
      AtEnds(page_pool_head, Ring()[page_pool_head]);
      if i > 0 {
        NodeSeen(i - 1);
      }
      next := Next(cursor, nodes, Ring(), page_pool_head, i);
      if i < |pools| {
        NodeSeen(i);
      }
    }

    /** The list walk of find_pool_head_by_size. */
    method FirstOk(size: nat) returns (h: MemPoolHead?, ghost i: nat)
      requires Rep()
      ensures i == FirstAccepting(kernel.pools, size)
      ensures if i < |kernel.pools| then i < |pools| && h == pools[i] else h == null
    {
      hide Rep, Accepts, FirstAccepting, Ring;
      ghost var first := FirstAccepting(kernel.pools, size);
      RingSeen();
      var cursor := Following(page_pool_head, 0);
      i := 0;
      while cursor != page_pool_head
        invariant i <= first <= |pools| && cursor == if i < |pools| then pools[i].list else page_pool_head
        invariant cursor == page_pool_head <==> i == |pools|
        decreases |pools| - i
      {
        PoolSeen(i);
        FirstStep(kernel.pools, size, i);
        h := Header(cursor, i);
        var ok := h.IsOk(size);
        if ok {
          return;
        }
        cursor := Following(cursor, i + 1);
        i := i + 1;
      }
      h := null;
    }

    lemma NodeSeen(i: nat)
      requires Rep() && i < |pools|
      ensures At(page_pool_head, Ring()[page_pool_head], i + 1) == pools[i].list
      ensures |kernel.pools| == |pools| && pools[i].Ok() && kernel.pools[i] == pools[i].Val()
    {
      PoolSeen(i);
    }

    lemma FirstStep(pools: seq<Pool>, size: nat, i: nat)
      requires i < |pools| && i <= FirstAccepting(pools, size)
      ensures Accepts(pools[i], size) ==> FirstAccepting(pools, size) == i
      ensures !Accepts(pools[i], size) ==> i < FirstAccepting(pools, size)
    {
      hide Accepts;
    }

    lemma AtEnds(h: ListHead, s: seq<ListHead>)
      ensures At(h, s, 0) == h && At(h, s, |s| + 1) == h
    {
    }

    /** page_new_on_mplhead on the pool at position `i`. */
    method TakeFrom(h: MemPoolHead, ghost i: nat) returns (addr: int)
      requires Rep() && i < |pools| && h == pools[i]
      requires i < |kernel.pools| && (kernel.pools[i].next_map == NIL || 0 <= kernel.pools[i].next_map < |kernel.pools[i].entries|)
      modifies this`kernel, h, h.pool_map
      ensures Rep() && i < |old(kernel).pools| && pools == old(pools)
      ensures (old(kernel).pools[i].next_map == NIL || 0 <= old(kernel).pools[i].next_map < |old(kernel).pools[i].entries|)
      ensures var (p, a) := TakePage(old(kernel).pools[i]);
        addr == a && kernel == old(kernel).(pools := old(kernel).pools[i := p])
    {
      hide WellFormed, PhyMem.Valid, PhyMem.Rep, PoolsRep, CacheRep, PoolsRepBut;
      RingSeen();
      PoolSeen(i);
      AllBut(i);
      ghost var p := TakePage(h.Val()).0;
      addr := h.NewPage();
      Refresh(h, i, p);
    }

    lemma AllBut(i: nat)
      requires PoolsRep() && i < |pools|
      ensures PoolsRepBut(i)
      ensures forall j | 0 <= j < |pools| && j != i :: pools[j] != pools[i] && pools[j].pool_map != pools[i].pool_map
    {
    }

    /** The value of the pools follows the pool at position `i`, the only one whose fields changed. */
    ghost method Refresh(h: MemPoolHead, i: nat, p: Pool)
      requires i < |pools| == |kernel.pools| && h == pools[i] && h.Ok() && h.Val() == p
      requires p.start == kernel.pools[i].start && CacheRep()
      requires PoolsRepBut(i)
      modifies this`kernel
      ensures PoolsRep() && CacheRep() && kernel == old(kernel).(pools := old(kernel).pools[i := p])
    {
      kernel := kernel.(pools := kernel.pools[i := p]);
    }

    /** alloc_mem_blk. */
    method BorrowBlock(size: int) returns (addr: int)
      requires Rep()
      modifies this`kernel, phys, phys.heads, phys.descs
      ensures Rep() && Inv(old(kernel).blk) && pools == old(pools)
      ensures var (blk, a) := Alloc(old(kernel).blk, size); addr == a && kernel == old(kernel).(blk := blk)
    {
      hide WellFormed, PhyMem.Valid, PhyMem.Rep, Inv, PoolsRep, CacheRep, Ring;
      phys.InvSeen();
      addr := phys.AllocMemBlk(size);
      SetBlocks();
    }

    ghost method SetBlocks()
      requires PoolsRep() && CacheRep()
      modifies this`kernel
      ensures PoolsRep() && CacheRep() && kernel == old(kernel).(blk := phys.blocks)
    {
      kernel := kernel.(blk := phys.blocks);
    }

    /** free_mem_blk. */
    method ReturnBlock(addr: int, size: int) returns (ok: bool)
      requires Rep()
      modifies this`kernel, phys, phys.heads, phys.descs
      ensures Rep() && Inv(old(kernel).blk) && pools == old(pools)
      ensures var (blk, r) := Free(old(kernel).blk, addr, size); ok == r && kernel == old(kernel).(blk := blk)
    {
      hide WellFormed, PhyMem.Valid, PhyMem.Rep, Inv, PoolsRep, CacheRep, Ring;
      phys.InvSeen();
      ok := phys.FreeMemBlk(addr, size);
      SetBlocks();
    }

    /** list_add_tail on the ring of the pools. */
    method Link(h: MemPoolHead)
      requires WellFormed(nodes, Ring()) && h.list !in nodes
      modifies nodes, h.list
      ensures WellFormed(nodes + {h.list}, map[page_pool_head := Lists(pools + [h])])
    {
      ghost var R := Ring();
      hide WellFormed;
      MoreNodes(nodes, h.list, R);
      LastNode(nodes, R, page_pool_head);
      ListAddTail(h.list, page_pool_head, nodes + {h.list}, R);
      assert Lists(pools + [h]) == Lists(pools) + [h.list];
      assert Appended(R, page_pool_head, h.list) == map[page_pool_head := Lists(pools + [h])];
    }

    /** The last lines of page_mpool_init: a new header joins the list. */
    method AddHeader(h: MemPoolHead)
      requires Rep() && h.Ok() && h !in pools && h.pool_map !in maps && h.list !in nodes && h.list !in phys.heads
      requires forall i | 0 <= i < |pools| :: pools[i].start != h.start
      modifies this, nodes, h.list
      ensures Rep() && pools == old(pools) + [h] && nodes == old(nodes) + {h.list} && maps == old(maps) + {h.pool_map}
      ensures kernel == old(kernel).(pools := old(kernel).pools + [old(h.Val())], count := old(kernel).count + 1)
    {
      hide WellFormed, PhyMem.Valid, PhyMem.Rep, Lists, PoolsRep, CacheRep;
      Link(h);
      Record(h);
      page_pool_count := page_pool_count + 1;
      nodes := nodes + {h.list};
    }

    method Record(h: MemPoolHead)
      requires PoolsRep() && CacheRep() && h.Ok() && h !in pools && h.pool_map !in maps
      requires forall i | 0 <= i < |pools| :: pools[i].start != h.start
      modifies this`pools, this`maps, this`header_at, this`kernel
      ensures PoolsRep() && CacheRep() && pools == old(pools) + [h] && maps == old(maps) + {h.pool_map}
      ensures kernel == old(kernel).(pools := old(kernel).pools + [old(h.Val())], count := old(kernel).count + 1)
    {
      header_at := header_at[h.start := h];
      pools, maps := pools + [h], maps + {h.pool_map};
      kernel := kernel.(pools := kernel.pools + [h.Val()], count := kernel.count + 1);
    }

    /** page_mpool_init: null when the block is rejected. */
    method PageMpoolInit(start: int, end: int, size: nat) returns (h: MemPoolHead?)
      requires Rep() && BlockFor(size) != 0 && 0 < start && end == start + BlockFor(size) - 1 && end + 0x20000 < TWO_32
      requires forall i | 0 <= i < |pools| :: pools[i].start != start
      modifies this, nodes
      ensures h == null <==> InitRejects(start, end)
      ensures h == null ==> Rep() && kernel == old(kernel) && pools == old(pools)
      ensures h != null ==> Rep() && pools == old(pools) + [h] && fresh(h) && fresh(h.pool_map)
      ensures h != null ==>
        kernel == old(kernel).(pools := old(kernel).pools + [NewPool(start, end, size)], count := old(kernel).count + 1)
    {
      hide Rep, NewPool, BlockFor;
      if start % PAGE_SIZE != 0 || end - start < PAGE_SIZE * 2 - 1 {
        return null;
      }
      h := new MemPoolHead(start, end, size);
      h.FillMap();
      AddHeader(h);
    }

    /** The switch of new_page_mpool on the number of pages: the block size, or 0. */
    method BlockSize(size: u32) returns (blk_size: nat)
      ensures blk_size == BlockFor(size)
    {
      var page_nr := size / PAGE_SIZE;
      if page_nr < 1 {
        return 0;
      }
      if page_nr <= 2 {
        return 0x20000;
      }
      if page_nr <= 4 {
        return 0x40000;
      }
      if page_nr <= 8 {
        return 0x40000;
      }
      if page_nr <= 16 {
        return 0x40000;
      }
      if page_nr <= 31 {
        return 0x20000;
      }
      return 0;
    }

    /** new_page_mpool: no header, a header at the end of the list, or the call of sys_die. */
    method NewPageMpool(size: u32) returns (h: MemPoolHead?, died: bool)
      requires Valid()
      modifies this, nodes, phys, phys.heads, phys.descs
      ensures !died && Rep()
      ensures h == null <==> BlockFor(size) == 0 || Alloc(old(kernel).blk, BlockFor(size)).1 == 0
      ensures h == null ==> kernel == old(kernel) && pools == old(pools)
      ensures h != null ==> pools == old(pools) + [h] && fresh(h) && fresh(h.pool_map)
      ensures h != null ==>
        var (blk, a) := Alloc(old(kernel).blk, BlockFor(size));
        kernel == Kernel(blk, old(kernel).pools + [NewPool(a, a + BlockFor(size) - 1, size)], old(kernel).cache,
                         old(kernel).count + 1)
    {
      hide Rep, NewPool, Alloc, Placed, Sorted, Geometry, PoolsOk, PoolBlocks, LiveOf, CacheOk;
      died := false;
      var blk_size := BlockSize(size);
      if blk_size == 0 {
        return null, false;
      }
      AllocNullIff(kernel.blk, blk_size);
      ghost var s := kernel;
      var blk_addr := BorrowBlock(blk_size);
      if blk_addr == 0 {
        return null, false;
      }
      NewBlockForPool(s, size);
      NewStart(s, blk_addr);
      h := PageMpoolInit(blk_addr, blk_addr + blk_size - 1, size);
      if h == null {
        return null, true;
      }
    }

    lemma NewStart(s: Kernel, a: int)
      requires Rep() && |s.pools| == |kernel.pools| && kernel.pools == s.pools
      requires forall j | 0 <= j < |s.pools| :: s.pools[j].start != a
      ensures forall i | 0 <= i < |pools| :: pools[i].start != a
    {
      forall i | 0 <= i < |pools| ensures pools[i].start != a {
        PoolSeen(i);
      }
    }

    /** The branch of kmem_pool_alloc_page that makes a pool. */
    method AllocFromNew(size: u32) returns (r: AllocResult)
      requires Valid()
      modifies this, nodes, phys, phys.heads, phys.descs
      ensures Rep() && (kernel, r) == AllocFromNewPool(old(kernel), size)
    {
      hide Rep, NewPool, Alloc, Placed, Sorted, Geometry, PoolsOk, PoolBlocks, LiveOf, CacheOk, TakePage;
      ghost var s := kernel;
      RingSeen();
      AllocNullIff(s.blk, BlockFor(size));
      var h, died := NewPageMpool(size);
      if h == null {
        return Got(0);
      }
      NewBlockForPool(s, size);
      ghost var i := |s.pools|;
      ghost var a := Alloc(s.blk, BlockFor(size)).1;
      NewPoolHead(a, a + BlockFor(size) - 1, size);
      ghost var np := NewPool(a, a + BlockFor(size) - 1, size);
      assert kernel.pools[i] == np;
      var addr := TakeFrom(h, i);
      ghost var p := TakePage(np).0;
      assert (s.pools + [np])[i := p] == s.pools + [p];
      r := Got(addr);
    }

    /** kmem_pool_alloc_page. */
    method KmemPoolAllocPage(size: u32) returns (r: AllocResult)
      requires Valid()
      modifies this, nodes, pools, maps, phys, phys.heads, phys.descs
      ensures Valid() && (kernel, r) == PageAlloc(old(kernel), size)
    {
      hide Rep, Inv, PoolsOk, PoolBlocks, LiveOf, CacheOk, TakePage, AllocFromNewPool;
      RingSeen();
      PageAllocKeeps(kernel, size);
      ghost var s := kernel;
      var h, i := FindPoolHeadBySize(size);
      if h == null {
        r := AllocFromNew(size);
      } else {
        PoolSeen(i);
        FoundHead(s, i);
        var addr := TakeFrom(h, i);
        r := Got(addr);
      }
    }

    lemma FoundHead(s: Kernel, i: nat)
      requires Good(s) && i < |s.pools|
      ensures s.pools[i].next_map == NIL || 0 <= s.pools[i].next_map < |s.pools[i].entries|
    {
      hide Inv, Chained;
      assert PoolInv(s.pools[i]);
      ChainHead(s.pools[i]);
    }

    lemma NewPoolHead(start: int, end: int, size: nat)
      requires size > 0
      ensures var p := NewPool(start, end, size); p.next_map == NIL || 0 <= p.next_map < |p.entries|
    {
    }

    // ---------- Free ----------

    /** find_deleted_pool_head.  After a first pool that is not the owner the cursor is null, and the step
        of the list walk reads through it. */
    method FindDeletedPoolHead(addr: u32, size: u32) returns (fault: bool, h: MemPoolHead?, ghost w: Lookup)
      requires Valid()
      ensures w == FindOwner(kernel.pools, kernel.cache, addr, size)
      ensures var found := FindOwner(kernel.pools, kernel.cache, addr, size);
        && (fault <==> found == Fault) && (h != null <==> found.Found?)
        && (found.Found? ==> found.i < |pools| && h == pools[found.i])
    {
      hide Rep, Good, WellFormed, Owns, At;
      CacheSeen();
      RingSeen();
      ghost var ring := Ring()[page_pool_head];
      ghost var c := PoolAt(kernel.pools, kernel.cache);
      if page_pool_cache != null {
        PoolSeen(c);
        var ok := page_pool_cache.IsOwner(addr, size);
        if ok {
          return false, page_pool_cache, Found(c);
        }
      }
      AtEnds(page_pool_head, ring);
      var cursor := Next(page_pool_head, nodes, Ring(), page_pool_head, 0);
      if cursor == page_pool_head {
        return false, null, Missing;
      }
      NodeSeen(0);
      h := Header(cursor, 0);
      var ok := h.IsOwner(addr, size);
      if ok {
        return false, h, Found(0);
      }
      return true, null, Fault;
    }

    /** delete_page_on_mplhead on the pool at position `i`. */
    method GiveTo(h: MemPoolHead, addr: int, ghost i: nat) returns (ok: bool)
      requires Rep() && i < |pools| && h == pools[i]
      modifies this`kernel, h, h.pool_map
      ensures Rep() && i < |old(kernel).pools| && pools == old(pools)
      ensures var (p, r) := GivePage(old(kernel).pools[i], addr);
        ok == r && kernel == old(kernel).(pools := old(kernel).pools[i := p])
    {
      hide WellFormed, PhyMem.Valid, PhyMem.Rep, PoolsRep, CacheRep, PoolsRepBut;
      RingSeen();
      PoolSeen(i);
      AllBut(i);
      ghost var p := GivePage(h.Val(), addr).0;
      ok := h.DeletePage(addr);
      Refresh(h, i, p);
    }

    /** list_del on the ring of the pools. */
    method Unlink(h: MemPoolHead, ghost i: nat)
      requires WellFormed(nodes, Ring()) && i < |pools| && h == pools[i]
      modifies nodes
      ensures WellFormed(nodes, map[page_pool_head := Lists(pools[..i] + pools[i + 1..])])
    {
      ghost var R := Ring();
      hide WellFormed;
      ListDel(h.list, nodes, R, page_pool_head, i);
      assert Lists(pools[..i] + pools[i + 1..]) == Lists(pools)[..i] + Lists(pools)[i + 1..];
      assert Without(R, page_pool_head, i) == map[page_pool_head := Lists(pools[..i] + pools[i + 1..])];
    }

    /** The pool leaves the cache, if it is there. */
    method DropCache(h: MemPoolHead, ghost i: nat)
      requires CacheRep() && i < |pools| && h == pools[i]
      requires forall j | 0 <= j < |pools| && j != i :: pools[j].start != h.start
      modifies this`page_pool_cache, this`kernel
      ensures kernel == old(kernel).(cache := if old(kernel).cache == h.start then 0 else old(kernel).cache)
      ensures CacheRep() && page_pool_cache != h
    {
      if page_pool_cache == h {
        page_pool_cache := null;
        kernel := kernel.(cache := 0);
      }
    }

    /** The pool leaves the list. */
    ghost method Forget(h: MemPoolHead, i: nat)
      requires PoolsRep() && CacheRep() && i < |pools| && h == pools[i] && page_pool_cache != h
      modifies this`pools, this`kernel
      ensures PoolsRep() && CacheRep() && pools == old(pools)[..i] + old(pools)[i + 1..]
      ensures i < |old(kernel).pools|
      ensures kernel == old(kernel).(pools := old(kernel).pools[..i] + old(kernel).pools[i + 1..],
                                     count := old(kernel).count - 1)
    {
      pools := pools[..i] + pools[i + 1..];
      kernel := kernel.(pools := kernel.pools[..i] + kernel.pools[i + 1..], count := kernel.count - 1);
    }

    /** The bookkeeping of del_page_mpool between list_del and free_mem_blk. */
    method Detach(h: MemPoolHead, ghost i: nat)
      requires Rep() && i < |pools| && h == pools[i] && kernel.count >= 1
      requires forall j | 0 <= j < |pools| && j != i :: pools[j].start != h.start
      modifies this`pools, this`kernel, this`page_pool_count, this`page_pool_cache, nodes
      ensures Rep() && pools == old(pools)[..i] + old(pools)[i + 1..] && i < |old(kernel).pools|
      ensures kernel == Kernel(old(kernel).blk, old(kernel).pools[..i] + old(kernel).pools[i + 1..],
                               if old(kernel).cache == h.start then 0 else old(kernel).cache, old(kernel).count - 1)
    {
      hide WellFormed, PhyMem.Valid, PhyMem.Rep, PoolsRep, CacheRep, Lists;
      Unlink(h, i);
      DropCacheKeeps(h, i);
      Forget(h, i);
      page_pool_count := page_pool_count - 1;
    }

    method DropCacheKeeps(h: MemPoolHead, ghost i: nat)
      requires CacheRep() && PoolsRep() && i < |pools| && h == pools[i]
      requires forall j | 0 <= j < |pools| && j != i :: pools[j].start != h.start
      modifies this`page_pool_cache, this`kernel
      ensures kernel == old(kernel).(cache := if old(kernel).cache == h.start then 0 else old(kernel).cache)
      ensures CacheRep() && PoolsRep() && page_pool_cache != h
    {
      hide CacheRep;
      DropCache(h, i);
    }

    /** del_page_mpool. */
    method DelPageMpool(h: MemPoolHead, ghost i: nat) returns (r: FreeResult)
      requires Rep() && i < |pools| && h == pools[i] && Inv(kernel.blk)
      requires forall j | 0 <= j < |pools| && j != i :: pools[j].start != h.start
      modifies this`pools, this`kernel, this`page_pool_count, this`page_pool_cache, nodes, phys, phys.heads, phys.descs
      ensures Rep() && i < |old(kernel).pools|
      ensures (kernel, r) ==
        if old(kernel).pools[i].afindx > 0 then (old(kernel), Done(true)) else DropPool(old(kernel), i)
    {
      hide Rep, Inv, Free;
      RingSeen();
      PoolSeen(i);
      if h.afindx > 0 {
        return Done(true);
      }
      if page_pool_count < 1 {
        return FreeDied;
      }
      Detach(h, i);
      var ok := ReturnBlock(h.start, h.end - h.start + 1);
      if !ok {
        return FreeDied;
      }
      r := Done(true);
    }

    /** kmem_pool_free_page. */
    method KmemPoolFreePage(addr: u32, size: u32) returns (r: FreeResult)
      requires Valid()
      modifies this`pools, this`kernel, this`page_pool_count, this`page_pool_cache, nodes, pools, maps
      modifies phys, phys.heads, phys.descs
      ensures Rep() && (kernel, r) == PageFree(old(kernel), addr, size)
    {
      hide Rep, Inv, Free, Owns, CacheOk, PoolBlocks, PoolInv;
      RingSeen();
      var fault, h, w := FindDeletedPoolHead(addr, size);
      if fault {
        return NullDeref;
      }
      if h == null {
        return Done(false);
      }
      PoolSeen(w.i);
      DistinctStarts(w.i);
      ghost var s := kernel;
      var ok := GiveTo(h, addr, w.i);
      if !ok {
        assert s.pools[w.i := s.pools[w.i]] == s.pools;
        return Done(false);
      }
      r := DelPageMpool(h, w.i);
    }

    lemma DistinctStarts(i: nat)
      requires Valid() && i < |pools|
      ensures forall j | 0 <= j < |pools| && j != i :: pools[j].start != pools[i].start
      ensures kernel.count >= 1
    {
      hide Inv, PhyMem.Valid, PoolInv, WellFormed;
      PoolSeen(i);
      forall j | 0 <= j < |pools| && j != i ensures pools[j].start != pools[i].start {
        PoolSeen(j);
        assert kernel.pools[j].start != kernel.pools[i].start;
      }
    }
  }
}