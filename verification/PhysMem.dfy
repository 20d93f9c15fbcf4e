/** The block layer as the program has it (hal/mm.c): descriptors and slabs are objects that are
    updated in place and linked through intrusive rings.  Every operation is proved against the
    value-level functions of BlockModel. */
module PhysMem {
  import opened Words
  import opened BlockModel
  import opened IntrusiveList

  class MemDesc {
    const list: ListHead
    const start_addr: int
    const end_addr: int
    var map_count: u32
    var flag: u32

    /** mem_desc_t_init; `index` is the position in the descriptor array. */
    constructor (index: nat, start_addr: int, end_addr: int, all_count: u32, flag: u32)
      ensures this.start_addr == start_addr && this.end_addr == end_addr
      ensures map_count == all_count && this.flag == flag
      ensures fresh(list) && list.id == index && list.next == list && list.prev == list
    {
      list := new ListHead(index);
      this.start_addr, this.end_addr := start_addr, end_addr;
      map_count, this.flag := all_count, flag;
    }
  }

  class MemSlab {
    const size: nat
    const full_list: ListHead
    const empty_list: ListHead
    const partial_list: ListHead

    /** mem_slab_init; `index` is the position in the slab array. */
    constructor (index: nat, size: nat)
      ensures this.size == size
      ensures fresh(full_list) && full_list.next == full_list && full_list.prev == full_list
      ensures fresh(empty_list) && empty_list.next == empty_list && empty_list.prev == empty_list
      ensures fresh(partial_list) && partial_list.next == partial_list && partial_list.prev == partial_list
      ensures forall c :: AnchorIn(this, c).id == AnchorTag(RingId(index, c))
    {
      this.size := size;
      full_list := new ListHead(AnchorTag(RingId(index, Full)));
      empty_list := new ListHead(AnchorTag(RingId(index, Empty)));
      partial_list := new ListHead(AnchorTag(RingId(index, Partial)));
    }
  }

  /** A negative number that tells a list anchor from every other anchor and from every descriptor. */
  function AnchorTag(r: RingId): int {
    -1 - 3 * r.slab - match r.kind case Full => 0 case Empty => 1 case Partial => 2
  }

  /** All ring names: three lists for each of the six slabs. */
  function AllRings(): (s: set<RingId>)
    ensures forall r :: r in s <==> r.slab < CLASSES
  {
    set k: nat, c: Kind | k < CLASSES :: RingId(k, c)
  }

  function AnchorIn(s: MemSlab, c: Kind): ListHead {
    match c
    case Full => s.full_list
    case Empty => s.empty_list
    case Partial => s.partial_list
  }

  ghost predicate SlabsOk(slabs: seq<MemSlab>) {
    && |slabs| == CLASSES
    && (forall k: nat | k < CLASSES :: slabs[k].size == SizeOf(k))
    && (forall r | r in AllRings() :: AnchorIn(slabs[r.slab], r.kind).id == AnchorTag(r))
  }

  ghost function Anchor(slabs: seq<MemSlab>, r: RingId): ListHead
    requires |slabs| == CLASSES && r in AllRings()
  {
    AnchorIn(slabs[r.slab], r.kind)
  }

  ghost predicate NodeOk(descs: seq<MemDesc>, x: ListHead) {
    0 <= x.id < |descs| && descs[x.id].list == x
  }

  /** The anchors of the slabs are in the family `R`; the nodes of their rings are the list heads of
      descriptors. */
  ghost predicate RingsOk(slabs: seq<MemSlab>, descs: seq<MemDesc>, R: Rings)
    requires |slabs| == CLASSES
  {
    && (forall r | r in AllRings() :: Anchor(slabs, r) in R)
    && (forall r, p | r in AllRings() && 0 <= p < |R[Anchor(slabs, r)]| :: NodeOk(descs, R[Anchor(slabs, r)][p]))
  }

  ghost function Ids(s: seq<ListHead>): (t: seq<nat>)
    requires forall p | 0 <= p < |s| :: s[p].id >= 0
    ensures |t| == |s| && forall p | 0 <= p < |s| :: t[p] == s[p].id
  {
    seq(|s|, p requires 0 <= p < |s| => s[p].id)
  }

  ghost function RingValues(slabs: seq<MemSlab>, descs: seq<MemDesc>, R: Rings): (m: map<RingId, seq<nat>>)
    requires |slabs| == CLASSES && RingsOk(slabs, descs, R)
    ensures forall r :: r in m <==> r.slab < CLASSES
    ensures forall r | r in m :: m[r] == Ids(R[Anchor(slabs, r)])
  {
    map r | r in AllRings() :: Ids(R[Anchor(slabs, r)])
  }

  lemma OtherAnchors(slabs: seq<MemSlab>, q: RingId, r: RingId)
    requires SlabsOk(slabs) && q in AllRings() && r in AllRings() && q != r
    ensures Anchor(slabs, q) != Anchor(slabs, r)
  {
  }

  lemma WithoutOk(slabs: seq<MemSlab>, descs: seq<MemDesc>, R: Rings, r: RingId, p: nat)
    requires SlabsOk(slabs) && RingsOk(slabs, descs, R) && r in AllRings() && p < |R[Anchor(slabs, r)]|
    ensures RingsOk(slabs, descs, Without(R, Anchor(slabs, r), p))
  {
    var f := Anchor(slabs, r);
    var Q := Without(R, f, p);
    assert forall j | 0 <= j < |Q[f]| :: Q[f][j] == R[f][if j < p then j else j + 1];
  }

  lemma WithoutValues(slabs: seq<MemSlab>, descs: seq<MemDesc>, R: Rings, r: RingId, p: nat)
    requires SlabsOk(slabs) && RingsOk(slabs, descs, R) && r in AllRings() && p < |R[Anchor(slabs, r)]|
    requires RingsOk(slabs, descs, Without(R, Anchor(slabs, r), p))
    ensures var m := RingValues(slabs, descs, R);
      RingValues(slabs, descs, Without(R, Anchor(slabs, r), p)) == m[r := m[r][..p] + m[r][p + 1..]]
  {
    var f := Anchor(slabs, r);
    var Q := Without(R, f, p);
    assert Ids(Q[f]) == Ids(R[f])[..p] + Ids(R[f])[p + 1..];
    forall q | q in AllRings() && q != r ensures Q[Anchor(slabs, q)] == R[Anchor(slabs, q)] {
      OtherAnchors(slabs, q, r);
    }
  }

  lemma AppendedValues(slabs: seq<MemSlab>, descs: seq<MemDesc>, R: Rings, r: RingId, d: nat)
    requires SlabsOk(slabs) && RingsOk(slabs, descs, R) && r in AllRings()
    requires d < |descs| && NodeOk(descs, descs[d].list) && descs[d].list.id == d
    ensures var Q, m := Appended(R, Anchor(slabs, r), descs[d].list), RingValues(slabs, descs, R);
      RingsOk(slabs, descs, Q) && RingValues(slabs, descs, Q) == m[r := m[r] + [d]]
  {
    var t := Anchor(slabs, r);
    var Q := Appended(R, t, descs[d].list);
    assert RingsOk(slabs, descs, Q);
    assert Ids(Q[t]) == Ids(R[t]) + [d];
    forall q | q in AllRings() && q != r ensures Q[Anchor(slabs, q)] == R[Anchor(slabs, q)] {
      OtherAnchors(slabs, q, r);
    }
  }

  /** Moving a node between rings is what `Move` does to their values. */
  lemma MoveValues(slabs: seq<MemSlab>, descs: seq<MemDesc>, R: Rings, from: RingId, p: nat, to: RingId)
    requires SlabsOk(slabs) && RingsOk(slabs, descs, R) && from in AllRings() && to in AllRings()
    requires p < |R[Anchor(slabs, from)]|
    ensures var R' := Appended(Without(R, Anchor(slabs, from), p), Anchor(slabs, to), R[Anchor(slabs, from)][p]);
      && RingsOk(slabs, descs, R')
      && RingValues(slabs, descs, R') == Move(RingValues(slabs, descs, R), from, p, to)
  {
    WithoutOk(slabs, descs, R, from, p);
    WithoutValues(slabs, descs, R, from, p);
    var Q := Without(R, Anchor(slabs, from), p);
    var x := R[Anchor(slabs, from)][p];
    assert NodeOk(descs, x) && RingValues(slabs, descs, R)[from][p] == x.id;
    AppendedValues(slabs, descs, Q, to, x.id);
  }

  class PhyMem {
    const slabs: seq<MemSlab>
    const descs: seq<MemDesc>
    ghost const heads: set<ListHead>
    ghost var rings: Rings
    /** The state as a value; `Rep` ties it to the fields. */
    ghost var blocks: Blocks

    ghost predicate Rep()
      reads this, heads, descs
    {
      && SlabsOk(slabs) && RingsOk(slabs, descs, rings) && WellFormed(heads, rings)
      && blocks.rings == RingValues(slabs, descs, rings)
      && |blocks.descs| == |descs|
      && forall i | 0 <= i < |descs| ::
           && descs[i].list.id == i && descs[i].list in heads
           && blocks.descs[i] == Desc(descs[i].start_addr, descs[i].end_addr, descs[i].map_count, descs[i].flag)
    }

    ghost predicate Valid()
      reads this, heads, descs
    {
      Rep() && Inv(blocks)
    }

    // ---------- What the representation says ----------

    lemma RingSeen(r: RingId)
      requires Rep() && r.slab < CLASSES
      ensures |slabs| == CLASSES && r in blocks.rings && Anchor(slabs, r) in rings && WellFormed(heads, rings)
      ensures |blocks.rings[r]| == |rings[Anchor(slabs, r)]|
      ensures forall p | 0 <= p < |blocks.rings[r]| ::
        && blocks.rings[r][p] < |descs| == |blocks.descs|
        && descs[blocks.rings[r][p]].list == rings[Anchor(slabs, r)][p]
        && blocks.rings[r][p] == rings[Anchor(slabs, r)][p].id
    {
      assert forall p | 0 <= p < |rings[Anchor(slabs, r)]| :: NodeOk(descs, rings[Anchor(slabs, r)][p]);
    }

    lemma NodeSeen(r: RingId, p: nat)
      requires Rep() && r.slab < CLASSES && p < |blocks.rings[r]|
      ensures |slabs| == CLASSES && Anchor(slabs, r) in rings && WellFormed(heads, rings)
      ensures p < |rings[Anchor(slabs, r)]| && 0 <= rings[Anchor(slabs, r)][p].id < |descs| == |blocks.descs|
      ensures rings[Anchor(slabs, r)][p].id == blocks.rings[r][p]
      ensures descs[blocks.rings[r][p]].list == rings[Anchor(slabs, r)][p]
    {
      RingSeen(r);
    }

    lemma InvSeen()
      requires Valid()
      ensures Inv(blocks)
    {
    }

    lemma DescSeen(x: nat)
      requires Rep() && x < |blocks.descs|
      ensures |descs| == |blocks.descs|
      ensures var d := blocks.descs[x];
        && d.start == descs[x].start_addr && d.end == descs[x].end_addr
        && d.map_count == descs[x].map_count && d.flag == descs[x].flag
    {
    }

    lemma CountSeen()
      requires Rep()
      ensures |blocks.descs| == |descs|
    {
    }

    lemma AnchorSeen(r: RingId)
      requires Rep() && r.slab < CLASSES
      ensures |slabs| == CLASSES && r in blocks.rings && Anchor(slabs, r) in rings
    {
    }

    lemma SlabSeen(k: nat)
      requires Rep() && k < CLASSES
      ensures |slabs| == CLASSES && slabs[k].size == SizeOf(k)
    {
    }

    // ---------- Primitive updates ----------

    method IsEmpty(list: ListHead, ghost r: RingId) returns (empty: bool)
      requires Rep() && r.slab < CLASSES && list == Anchor(slabs, r)
      ensures empty <==> blocks.rings[r] == []
    {
      hide Rep;
      RingSeen(r);
      empty := ListEmpty(list, heads, rings);
    }

    /** list_entry(list.next): the structure the first node is embedded in. */
    method First(list: ListHead, ghost r: RingId) returns (desc: MemDesc)
      requires Rep() && r.slab < CLASSES && list == Anchor(slabs, r) && blocks.rings[r] != []
      ensures blocks.rings[r][0] < |descs| && desc == descs[blocks.rings[r][0]]
    {
      hide Rep;
      RingSeen(r);
      var node := Next(list, heads, rings, list, 0);
      assert blocks.rings[r][0] == node.id;
      desc := descs[node.id];
    }

    /** A write to the bitmap and the flag word of one descriptor. */
    method Write(desc: MemDesc, map_count: u32, flag: u32, ghost x: nat)
      requires Rep() && x < |descs| && desc == descs[x]
      modifies desc, this`blocks
      ensures desc.map_count == map_count && desc.flag == flag
      ensures Rep() && x < |old(blocks).descs|
      ensures blocks == old(blocks).(descs := old(blocks).descs[x :=
                          old(blocks).descs[x].(map_count := map_count, flag := flag)])
    {
      hide WellFormed, RingsOk, SlabsOk;
      desc.map_count, desc.flag := map_count, flag;
      blocks := blocks.(descs := blocks.descs[x := blocks.descs[x].(map_count := map_count, flag := flag)]);
      assert forall i | 0 <= i < |descs| && i != x :: descs[i].list.id != descs[x].list.id;
    }

    /** list_move_tail on the list head of a descriptor. */
    method Requeue(desc: MemDesc, list: ListHead, ghost from: RingId, ghost p: nat, ghost to: RingId)
      requires Rep() && from.slab < CLASSES && to.slab < CLASSES && list == Anchor(slabs, to)
      requires p < |blocks.rings[from]| && blocks.rings[from][p] < |descs| && desc == descs[blocks.rings[from][p]]
      modifies this`rings, this`blocks, heads
      ensures Rep()
      ensures blocks == old(blocks).(rings := Move(old(blocks).rings, from, p, to))
    {
      hide WellFormed, SlabsOk, RingValues, Move, Appended, RingsOk;
      NodeSeen(from, p);
      AnchorSeen(to);
      MoveValues(slabs, descs, rings, from, p, to);
      ListMoveTail(desc.list, list, heads, rings, Anchor(slabs, from), p);
      rings := Appended(Without(rings, Anchor(slabs, from), p), list, desc.list);
      blocks := blocks.(rings := Move(blocks.rings, from, p, to));
    }

    // ---------- Allocation ----------

    /** The loop over `phyp->slabs` for the slab of a size: its index, or 6. */
    method SlabIndex(size: int) returns (i: nat)
      requires Rep()
      ensures |slabs| == CLASSES && i <= CLASSES
      ensures i < CLASSES ==> SizeOf(i) == size && ClassOf(size) == i && slabs[i].size == size
      ensures i == CLASSES ==> ClassOf(size) < 0
    {
      hide Rep;
      SlabSeen(0);
      i := 0;
      while i < CLASSES
        invariant i <= CLASSES
        invariant forall j: nat | j < i :: SizeOf(j) != size
      {
        SlabSeen(i);
        if slabs[i].size == size {
          ClassOfSize(i);
          return;
        }
        i := i + 1;
      }
    }

    /** find_slab_by_size: the slab to take a block from and the slab of the requested size. */
    method FindSlabBySize(size: int) returns (tmp: MemSlab?, ret_slab: MemSlab?, ret_size: nat)
      requires Valid()
      ensures tmp != null <==> ClassOf(size) >= 0 && !Exhausted(blocks, ClassOf(size))
      ensures tmp != null ==>
        && |slabs| == CLASSES
        && tmp == slabs[Source(blocks.rings, ClassOf(size)).slab]
        && ret_slab == slabs[ClassOf(size)] && ret_size == size
    {
      hide Rep, Sorted, Geometry;
      tmp, ret_slab, ret_size := null, null, 0;
      var i := SlabIndex(size);
      if i == CLASSES {
        return;
      }
      tmp, ret_slab, ret_size := slabs[i], slabs[i], slabs[i].size;
      EmptyOnlyInLastClass(blocks, i);
      var noEmpty := IsEmpty(tmp.empty_list, RingId(i, Empty));
      var noPartial := IsEmpty(tmp.partial_list, RingId(i, Partial));
      if !noEmpty || !noPartial {
        return;
      }
      tmp := slabs[CLASSES - 1];
      noEmpty := IsEmpty(tmp.empty_list, RingId(5, Empty));
      if !noEmpty {
        return;
      }
      tmp := null;
    }

    /** find_desc_in_slab: the first descriptor of the partial list, else of the empty list. */
    method FindDescInSlab(slab: MemSlab, ghost k: nat) returns (desc: MemDesc?)
      requires Valid() && k < CLASSES == |slabs| && slab == slabs[k]
      ensures var partial, empty := blocks.rings[RingId(k, Partial)], blocks.rings[RingId(k, Empty)];
        if partial != [] then partial[0] < |descs| && desc == descs[partial[0]]
        else if empty != [] then empty[0] < |descs| && desc == descs[empty[0]]
        else desc == null
    {
      hide Rep, Sorted, Geometry;
      var none := IsEmpty(slab.partial_list, RingId(k, Partial));
      if !none {
        desc := First(slab.partial_list, RingId(k, Partial));
        return;
      }
      none := IsEmpty(slab.empty_list, RingId(k, Empty));
      if !none {
        desc := First(slab.empty_list, RingId(k, Empty));
        return;
      }
      desc := null;
    }

    /** The scan of alloc_blk_on_desc for the lowest clear bit. */
    method ScanMap(map_count: u32, bits: nat) returns (bi: nat)
      ensures bi == LowestClear(map_count, 0, bits)
    {
      bi := 0;
      while bi < bits
        invariant bi <= bits
        invariant LowestClear(map_count, 0, bits) == LowestClear(map_count, bi, bits)
      {
        ShiftAndTest(map_count, bi);
        if And(Shr(map_count, bi), 1) == 0 {
          return;
        }
        bi := bi + 1;
      }
    }

    /** The first half of alloc_blk_on_desc: the descriptor, the bit and the address to return.  It fails on an
        empty ring, and then only. */
    method LocateBlk(alloc_slab: MemSlab, moveto_slab: MemSlab, bits: nat, ghost k: nat, ghost r: RingId)
      returns (desc: MemDesc?, bi: nat, ret: int)
      requires Valid() && k < CLASSES == |slabs| && moveto_slab == slabs[k] && bits == BitsOf(k)
      requires r == Source(blocks.rings, k) && alloc_slab == slabs[r.slab]
      ensures desc == null <==> Exhausted(blocks, k)
      ensures desc == null ==> ret == 0
      ensures desc != null ==>
        && blocks.rings[r] != [] && blocks.rings[r][0] < |descs| && desc == descs[blocks.rings[r][0]]
        && bi == FreeBit(blocks, k, r) && bi < bits && ret == desc.start_addr + bi * SizeOf(k)
    {
      hide Rep, Sorted, Geometry, And, Or, Bit, Pow2, ClassIn;
      EmptyOnlyInLastClass(blocks, k);
      EmptyOnlyInLastClass(blocks, 5);
      bi, ret := 0, 0;
      desc := FindDescInSlab(alloc_slab, r.slab);
      if desc == null {
        return;
      }
      AllocPick(blocks, k);
      SlabSeen(k);
      ghost var x := blocks.rings[r][0];
      NodeSeen(r, 0);
      DescSeen(x);
      bi := ScanMap(desc.map_count, bits);
      if bi == bits {
        return;
      }
      ret := desc.start_addr + moveto_slab.size * bi;
      SlotInside(blocks, x, k, bi);
      if ret < desc.start_addr || ret >= desc.end_addr {
        ret := 0;
      }
    }

    /** The second half of alloc_blk_on_desc: takes bit `bi` and requeues the descriptor. */
    method TakeBit(desc: MemDesc, bi: nat, mflag: u32, mask: u32, moveto_slab: MemSlab, ghost k: nat, ghost r: RingId)
      requires Valid() && k < CLASSES == |slabs| && moveto_slab == slabs[k]
      requires r == Source(blocks.rings, k) && blocks.rings[r] != []
      requires mflag == AcszOf(k) && mask == MaskOf(k) && bi == FreeBit(blocks, k, r) && bi < BitsOf(k)
      requires blocks.rings[r][0] < |descs| && desc == descs[blocks.rings[r][0]]
      modifies this, heads, descs
      ensures Valid() && blocks == AllocAt(old(blocks), k, r, bi)
    {
      hide Rep, Sorted, Geometry, Placed;
      ghost var b := blocks;
      ghost var x := b.rings[r][0];
      RingSeen(r);
      DescSeen(x);
      AllocPick(b, k);
      AllocAtKeepsInv(b, k, r, bi);
      FullTest(desc.map_count, k, bi);
      var flag := And32(desc.flag, KEEP_FLAGS);
      Write(desc, Raise(desc.map_count, bi), Or32(flag, mflag), x);
      var full := And32(desc.map_count, mask) == mask;
      var list := if full then moveto_slab.full_list else moveto_slab.partial_list;
      Requeue(desc, list, r, 0, RingId(k, if full then Full else Partial));
    }

    /** alloc_blk_on_desc: takes the first free bit of the first usable descriptor of `alloc_slab`. */
    method AllocBlkOnDesc(mflag: u32, mask: u32, bits: nat, alloc_slab: MemSlab, moveto_slab: MemSlab, ghost k: nat)
      returns (ret: int)
      requires Valid() && k < CLASSES == |slabs| && moveto_slab == slabs[k]
      requires mflag == AcszOf(k) && mask == MaskOf(k) && bits == BitsOf(k)
      requires alloc_slab == slabs[Source(blocks.rings, k).slab]
      modifies this, heads, descs
      ensures Valid() && (blocks, ret) == Alloc(old(blocks), SizeOf(k))
    {
      hide Rep, Sorted, Geometry;
      ClassOfSize(k);
      ghost var r := Source(blocks.rings, k);
      var desc, bi;
      desc, bi, ret := LocateBlk(alloc_slab, moveto_slab, bits, k, r);
      if desc == null {
        AllocNullIff(blocks, SizeOf(k));
        return;
      }
      DescSeen(blocks.rings[r][0]) by {
        RingSeen(r);
      }
      TakeBit(desc, bi, mflag, mask, moveto_slab, k, r);
    }

    /** The cases of alloc_blk_in_slab: flag, mask and bit count of each size. */
    method SwitchOnSize(size: int, ghost k: nat) returns (mflag: u32, mask: u32, bits: nat)
      requires k < CLASSES && size == SizeOf(k)
      ensures mflag == AcszOf(k) && mask == MaskOf(k) && bits == BitsOf(k)
    {
      match size {
        case 0x20000 => mflag, mask, bits := 0x10, 0xffff_ffff, 32;
        case 0x40000 => mflag, mask, bits := 0x20, 0xffff, 16;
        case 0x80000 => mflag, mask, bits := 0x30, 0xff, 8;
        case 0x100000 => mflag, mask, bits := 0x40, 0xf, 4;
        case 0x200000 => mflag, mask, bits := 0x50, 3, 2;
        case _ => mflag, mask, bits := 0x60, 1, 1;
      }
    }

    /** alloc_blk_in_slab; its last case turns any other size away. */
    method AllocBlkInSlab(alloc_slab: MemSlab, moveto_slab: MemSlab, size: int) returns (ret: int)
      requires Valid() && |slabs| == CLASSES
      requires var k := ClassOf(size);
        k >= 0 ==> moveto_slab == slabs[k] && alloc_slab == slabs[Source(blocks.rings, k).slab]
      modifies this, heads, descs
      ensures Valid() && (blocks, ret) == Alloc(old(blocks), size)
    {
      hide Rep, Sorted, Geometry, Placed;
      if size !in [0x20000, 0x40000, 0x80000, 0x100000, 0x200000, 0x400000] {
        return 0;
      }
      ghost var k: nat := ClassOf(size);
      var mflag, mask, bits := SwitchOnSize(size, k);
      ret := AllocBlkOnDesc(mflag, mask, bits, alloc_slab, moveto_slab, k);
    }

    /** alloc_mem_blk, with alloc_mem_blk_core. */
    method AllocMemBlk(blk_size: int) returns (ret: int)
      requires Valid()
      modifies this, heads, descs
      ensures Valid() && (blocks, ret) == Alloc(old(blocks), blk_size)
    {
      hide Rep, Sorted, Geometry;
      if blk_size < 0x20000 || blk_size > 0x400000 {
        return 0;
      }
      AllocNullIff(blocks, blk_size);
      var tmp, slab, size := FindSlabBySize(blk_size);
      if tmp == null || slab == null || size == 0 {
        return 0;
      }
      SlabSeen(Source(blocks.rings, ClassOf(blk_size)).slab);
      if tmp.size != size && tmp.size != 0x400000 {
        return 0;
      }
      ret := AllocBlkInSlab(tmp, slab, size);
    }

    // ---------- Free ----------

    /** The list walk of find_desc_for_free over one list. */
    method WalkForFree(list: ListHead, addr: int, ghost r: RingId) returns (desc: MemDesc?, ghost p: nat)
      requires Valid() && r.slab < CLASSES && list == Anchor(slabs, r)
      ensures p == FindIn(blocks.descs, blocks.rings[r], addr)
      ensures if p < |blocks.rings[r]| then blocks.rings[r][p] < |descs| && desc == descs[blocks.rings[r][p]]
              else desc == null
    {
      hide Rep, Sorted, Geometry;
      ghost var ring := blocks.rings[r];
      RingSeen(r);
      var cursor := Next(list, heads, rings, list, 0);
      p := 0;
      while cursor != list
        invariant p <= |ring| && cursor == At(list, rings[list], p + 1)
        invariant cursor == list <==> p == |ring|
        invariant forall q | 0 <= q < p :: !Spans(blocks.descs[ring[q]], addr)
        decreases |ring| - p
      {
        assert cursor.id == ring[p];
        DescSeen(ring[p]);
        desc := descs[cursor.id];
        if desc.start_addr <= addr && addr < desc.end_addr {
          return;
        }
        cursor := Next(cursor, heads, rings, list, p + 1);
        p := p + 1;
      }
      desc := null;
    }

    /** find_desc_for_free: the full list first, then the partial list. */
    method FindDescForFree(addr: int, slab: MemSlab, ghost k: nat) returns (desc: MemDesc?, ghost w: (RingId, nat))
      requires Valid() && k < CLASSES == |slabs| && slab == slabs[k]
      ensures w == FindForFree(blocks, k, addr)
      ensures var (r, p) := FindForFree(blocks, k, addr);
        if p < |blocks.rings[r]| then blocks.rings[r][p] < |descs| && desc == descs[blocks.rings[r][p]] else desc == null
    {
      hide Rep, Sorted, Geometry;
      ghost var p;
      desc, p := null, 0;
      var none := IsEmpty(slab.full_list, RingId(k, Full));
      if !none {
        desc, p := WalkForFree(slab.full_list, addr, RingId(k, Full));
      }
      w := (RingId(k, Full), p);
      if desc != null {
        return;
      }
      none := IsEmpty(slab.partial_list, RingId(k, Partial));
      p := 0;
      if !none {
        desc, p := WalkForFree(slab.partial_list, addr, RingId(k, Partial));
      }
      w := (RingId(k, Partial), p);
    }

    /** The bit of the block that covers `addr`, if it is set. */
    method BitForFree(desc: MemDesc, addr: int, size: nat, ghost k: nat) returns (ok: bool, bit_nr: nat)
      requires desc.start_addr <= addr && k < CLASSES && size == SizeOf(k)
      ensures bit_nr == SlotAt(addr - desc.start_addr, k)
      ensures ok <==> bit_nr < 32 && Bit(desc.map_count, bit_nr)
    {
      SlotIsQuotient(addr - desc.start_addr, k);
      bit_nr := (addr - desc.start_addr) / size;
      if bit_nr > 31 {
        return false, bit_nr;
      }
      ShiftAndTest(desc.map_count, bit_nr);
      ok := And(Shr(desc.map_count, bit_nr), 1) == 1;
    }

    /** The first half of __free_blk_in_slab: the descriptor and bit to work on, if the free is accepted. */
    method LocateForFree(addr: int, in_slab: MemSlab, ghost k: nat)
      returns (desc: MemDesc?, bit_nr: nat, ghost w: (RingId, nat))
      requires Valid() && k < CLASSES == |slabs| && in_slab == slabs[k] && addr != 0
      ensures desc != null <==> FreeAccepts(blocks, addr, SizeOf(k))
      ensures desc != null ==>
        && w == FindForFree(blocks, k, addr) && w.1 < |blocks.rings[w.0]|
        && blocks.rings[w.0][w.1] < |descs| && desc == descs[blocks.rings[w.0][w.1]]
        && desc.start_addr <= addr && bit_nr == SlotAt(addr - desc.start_addr, k) && bit_nr < BitsOf(k)
    {
      hide Rep, Sorted, Geometry, SlotAt, FindForFree, Bit;
      ClassOfSize(k);
      SlabSeen(k);
      bit_nr := 0;
      desc, w := FindDescForFree(addr, in_slab, k);
      if desc == null {
        return;
      }
      FoundForFree(blocks, k, addr);
      RingSeen(w.0);
      DescSeen(blocks.rings[w.0][w.1]);
      var ok;
      ok, bit_nr := BitForFree(desc, addr, in_slab.size, k);
      if !ok {
        desc := null;
      }
    }

    /** The second half of __free_blk_in_slab: clears the bit, and sends the descriptor to the empty
        list when no bit is left. */
    method ReleaseBit(desc: MemDesc, bit_nr: nat, mvto_slab: MemSlab, flag: u32, mask: u32, ghost r: RingId, ghost p: nat)
      requires Valid() && r.slab < CLASSES == |slabs| && r.kind != Empty
      requires p < |blocks.rings[r]| && blocks.rings[r][p] < |descs| && desc == descs[blocks.rings[r][p]]
      requires bit_nr < BitsOf(r.slab)
      requires mvto_slab == slabs[5] && flag == AcszOf(5) && mask == MaskOf(r.slab)
      modifies this, heads, descs
      ensures Valid() && blocks == FreeAt(old(blocks), r, p, bit_nr)
    {
      hide Rep, Sorted, Geometry;
      ghost var b := blocks;
      ghost var x := b.rings[r][p];
      RingSeen(r);
      DescSeen(x);
      FreeAtKeepsInv(b, r, p, bit_nr);
      EmptyTest(b, r, p, bit_nr);
      Write(desc, Drop(desc.map_count, bit_nr), desc.flag, x);
      if And32(desc.map_count, mask) == 0 {
        var kept := And32(desc.flag, KEEP_FLAGS);
        Write(desc, desc.map_count, Or32(kept, flag), x);
        assert blocks.descs == b.descs[x := b.descs[x].(map_count := 0, flag := WithClass(b.descs[x].flag, 5))];
        Requeue(desc, mvto_slab.empty_list, r, p, RingId(5, Empty));
      }
    }

    /** __free_blk_in_slab. */
    method FreeBlkOnDesc(addr: int, in_slab: MemSlab, mvto_slab: MemSlab, flag: u32, mask: u32, ghost k: nat)
      returns (ok: bool)
      requires Valid() && k < CLASSES == |slabs| && in_slab == slabs[k] && addr != 0
      requires mvto_slab == slabs[5] && flag == AcszOf(5) && mask == MaskOf(k)
      modifies this, heads, descs
      ensures Valid() && (blocks, ok) == Free(old(blocks), addr, SizeOf(k))
    {
      hide Rep, Placed, Sorted, Geometry;
      ClassOfSize(k);
      var desc, bit_nr, w := LocateForFree(addr, in_slab, k);
      if desc == null {
        return false;
      }
      DescSeen(blocks.rings[w.0][w.1]) by {
        RingSeen(w.0);
      }
      ReleaseBit(desc, bit_nr, mvto_slab, flag, mask, w.0, w.1);
      ok := true;
    }

    /** free_mem_blk, with free_mem_blk_core and free_blk_in_slab. */
    method FreeMemBlk(addr: int, blk_size: int) returns (ok: bool)
      requires Valid()
      modifies this, heads, descs
      ensures Valid() && (blocks, ok) == Free(old(blocks), addr, blk_size)
    {
      hide Rep, Placed, Sorted, Geometry;
      if addr == 0 || blk_size < 0x20000 || blk_size > 0x400000 {
        return false;
      }
      var i := SlabIndex(blk_size);
      if i == CLASSES {
        return false;
      }
      var mflag, mask, bits := SwitchOnSize(blk_size, i);
      ok := FreeBlkOnDesc(addr, slabs[i], slabs[CLASSES - 1], 0x60, mask, i);
    }

    // ---------- Start-up ----------

    /** The slabs and descriptors before any descriptor is on a list. */
    constructor (slabs: seq<MemSlab>, descs: seq<MemDesc>, ghost heads: set<ListHead>, ghost R: Rings)
      requires SlabsOk(slabs) && RingsOk(slabs, descs, R) && WellFormed(heads, R)
      requires RingValues(slabs, descs, R) == NoRings()
      requires forall i | 0 <= i < |descs| :: descs[i].list.id == i && descs[i].list in heads
      ensures this.slabs == slabs && this.descs == descs && this.heads == heads
      ensures Rep() && blocks == Blocks(Values(descs), NoRings()) && rings == R
    {
      this.slabs, this.descs, this.heads, rings := slabs, descs, heads, R;
      blocks := Blocks(Values(descs), NoRings());
      new;
      hide WellFormed, RingsOk, RingValues, SlabsOk, NoRings;
    }

    /** add_mem_to_slab for a descriptor that is on no list: `list_empty` holds of its list head, so
        nothing is unlinked first. */
    method AddMemToSlab(memp: MemDesc, list: ListHead, ghost x: nat, ghost to: RingId)
      requires Rep() && to.slab < CLASSES && list == Anchor(slabs, to)
      requires x < |descs| && memp == descs[x] && SelfLinked(memp.list) && Loose(memp.list, rings)
      modifies this`rings, this`blocks, heads
      ensures Rep() && rings == Appended(old(rings), list, memp.list)
      ensures blocks == old(blocks).(rings := old(blocks).rings[to := old(blocks).rings[to] + [x]])
      ensures forall h: ListHead | h in heads && h != list && h != memp.list && h !in old(rings[list]) ::
        unchanged(h)
    {
      hide WellFormed, RingValues, SlabsOk, RingsOk;
      assert memp.list.next == memp.list;
      AnchorSeen(to);
      assert NodeOk(descs, memp.list) && memp.list.id == x;
      AppendedValues(slabs, descs, rings, to, x);
      LastNode(heads, rings, list);
      ListAddTail(memp.list, list, heads, rings);
      rings := Appended(rings, list, memp.list);
      blocks := blocks.(rings := blocks.rings[to := blocks.rings[to] + [x]]);
    }

    /** The lists hold only descriptors `1..i`; descriptor 0 and those from `i` on are on no list. */
    ghost predicate Listed(i: nat)
      requires |slabs| == CLASSES
      reads this, set j | 0 <= j < |descs| :: descs[j].list
    {
      && rings.Keys == Anchors(slabs)
      && (forall h, p | h in rings && 0 <= p < |rings[h]| :: 1 <= rings[h][p].id < i)
      && (forall j | 0 <= j < |descs| && (j == 0 || i <= j) :: SelfLinked(descs[j].list))
    }

    lemma ListedIsLoose(i: nat, x: nat)
      requires Rep() && Listed(i) && x < |descs| && (x == 0 || i <= x)
      ensures SelfLinked(descs[x].list) && Loose(descs[x].list, rings)
    {
      hide WellFormed, RingsOk, RingValues, SlabsOk;
      SlabSeen(0);
      assert descs[x].list.id == x;
      forall h | h in rings ensures h.id < 0 {
        var r :| r in AllRings() && h == Anchor(slabs, r);
        AnchorTagged(r);
      }
    }

    lemma AnchorTagged(r: RingId)
      requires Rep() && r.slab < CLASSES
      ensures |slabs| == CLASSES && Anchor(slabs, r).id == AnchorTag(r) < 0
    {
      hide WellFormed, RingsOk, RingValues;
      assert r in AllRings();
    }

    lemma StillSelfLinked(i: nat, list: ListHead, R: Rings, j: nat)
      requires Rep() && j < |descs| && list in R && list.id < 0 && (j == 0 || i <= j)
      requires forall p | 0 <= p < |R[list]| :: 1 <= R[list][p].id < i
      ensures descs[j].list.id == j && descs[j].list in heads && descs[j].list != list && descs[j].list !in R[list]
    {
    }

    /** One turn of the loop of mem_list_init. */
    method ListOne(i: nat)
      requires Rep() && Listed(i) && 1 <= i < |descs|
      modifies this`rings, this`blocks, heads
      ensures Rep() && Listed(i + 1)
      ensures var last := RingId(5, Empty);
        last in old(blocks).rings
        && blocks == old(blocks).(rings := old(blocks).rings[last := old(blocks).rings[last] + [i]])
    {
      hide Rep, RingsOk, RingValues, WellFormed, SlabsOk;
      SlabSeen(5);
      ListedIsLoose(i, i);
      AnchorSeen(RingId(5, Empty));
      AnchorTagged(RingId(5, Empty));
      ghost var R, list := rings, slabs[CLASSES - 1].empty_list;
      forall j: nat | j < |descs| && (j == 0 || i <= j)
        ensures descs[j].list.id == j && descs[j].list in heads && descs[j].list != list && descs[j].list !in R[list]
      {
        StillSelfLinked(i, list, R, j);
      }
      AddMemToSlab(descs[i], slabs[CLASSES - 1].empty_list, i, RingId(5, Empty));
      forall j: nat | j < |descs| && (j == 0 || i + 1 <= j) ensures SelfLinked(descs[j].list) {
        assert old(SelfLinked(descs[j].list));
        assert descs[j].list != descs[i].list;
      }
      assert descs[i].list.id == i;
    }

    /** mem_list_init: every descriptor but the first waits on the empty list of the last slab. */
    method MemListInit()
      requires Rep() && Listed(1) && |descs| > 0 && blocks.rings == NoRings()
      modifies this`rings, this`blocks, heads
      ensures Rep() && Listed(|descs|) && blocks.descs == old(blocks).descs
      ensures blocks.rings == NoRings()[RingId(5, Empty) := AllButFirst(|descs|)]
    {
      hide Rep, Listed;
      SlabSeen(5);
      var i := 1;
      assert blocks.rings == NoRings()[RingId(5, Empty) := AllButFirst(1)];
      while i < |descs|
        invariant 1 <= i <= |descs| && Rep() && |slabs| == CLASSES && Listed(i)
        invariant blocks.descs == old(blocks).descs
        invariant blocks.rings == NoRings()[RingId(5, Empty) := AllButFirst(i)]
      {
        ListOne(i);
        assert AllButFirst(i) + [i] == AllButFirst(i + 1);
        i := i + 1;
      }
    }

    /** init_kernel_mem: FALSE stands for the call of sys_die. */
    method InitKernelMem(kernel_start: u32, kernel_end: u32) returns (alive: bool)
      requires Rep() && Listed(|descs|) && |descs| > 0
      requires blocks.rings == NoRings()[RingId(5, Empty) := AllButFirst(|descs|)]
      modifies this, heads, descs
      ensures alive <==> Wrap32(kernel_end - kernel_start) <= SizeOf(0) && kernel_start >= old(blocks).descs[0].start
      ensures alive ==> Rep() && blocks == Start(old(blocks).descs)
    {
      hide Rep, Listed, RingsOk, RingValues, WellFormed, SlabsOk;
      CountSeen();
      DescSeen(0);
      if Wrap32(kernel_end - kernel_start) > 0x20000 || kernel_start < descs[0].start_addr {
        return false;
      }
      SlabSeen(0);
      AnchorSeen(RingId(0, Partial));
      assert blocks.rings[RingId(0, Partial)] == [];
      ListedIsLoose(|descs|, 0);
      Write(descs[0], 1, KERNEL_FLAG, 0);
      AddMemToSlab(descs[0], slabs[0].partial_list, 0, RingId(0, Partial));
      assert blocks.rings[RingId(0, Partial)] == [0];
      alive := true;
    }
  }

  ghost predicate SelfLinked(h: ListHead)
    reads h
  {
    h.next == h && h.prev == h
  }

  ghost function Anchors(slabs: seq<MemSlab>): set<ListHead>
    requires |slabs| == CLASSES
  {
    set r | r in AllRings() :: Anchor(slabs, r)
  }

  /** Fresh descriptors, numbered from `cur`, each on no list. */
  ghost predicate NewDescs(ds: seq<MemDesc>, cur: nat)
    reads set i | 0 <= i < |ds| :: ds[i].list
  {
    forall i | 0 <= i < |ds| :: ds[i].list.id == cur + i && SelfLinked(ds[i].list)
  }

  ghost function Values(ds: seq<MemDesc>): (s: seq<Desc>)
    reads ds
    ensures |s| == |ds|
    ensures forall i | 0 <= i < |s| :: s[i] == Desc(ds[i].start_addr, ds[i].end_addr, ds[i].map_count, ds[i].flag)
  {
    seq(|ds|, i requires 0 <= i < |ds| reads ds => Desc(ds[i].start_addr, ds[i].end_addr, ds[i].map_count, ds[i].flag))
  }

  lemma EmptyRep(slabs: seq<MemSlab>, descs: seq<MemDesc>, heads: set<ListHead>)
    requires SlabsOk(slabs) && Anchors(slabs) <= heads
    requires forall r | r in AllRings() :: SelfLinked(Anchor(slabs, r))
    ensures var R: Rings := map h | h in Anchors(slabs) :: [];
      WellFormed(heads, R) && RingsOk(slabs, descs, R) && RingValues(slabs, descs, R) == NoRings()
  {
    forall h | h in Anchors(slabs) ensures h.next == h && h.prev == h {
      var r :| r in AllRings() && h == Anchor(slabs, r);
      assert SelfLinked(Anchor(slabs, r));
    }
    hide Anchor, SlabsOk, RingsOk, WellFormed;
    EmptyLists(heads, Anchors(slabs));
    EmptyValues(slabs, descs);
  }

  lemma EmptyValues(slabs: seq<MemSlab>, descs: seq<MemDesc>)
    requires SlabsOk(slabs)
    ensures var R: Rings := map h | h in Anchors(slabs) :: [];
      RingsOk(slabs, descs, R) && RingValues(slabs, descs, R) == NoRings()
  {
    var R: Rings := map h | h in Anchors(slabs) :: [];
    forall r | r in AllRings() ensures Anchor(slabs, r) in R && R[Anchor(slabs, r)] == [] {
    }
  }

  /** init_core_mem_desc, for a region on which its loop ends. */
  method InitCoreMemDesc(start_addr: u32, end_addr: u32, cur_index: nat) returns (ds: seq<MemDesc>)
    requires CutEnds(start_addr, end_addr)
    ensures Values(ds) == Cut(start_addr, end_addr) && NewDescs(ds, cur_index)
    ensures forall i | 0 <= i < |ds| :: fresh(ds[i]) && fresh(ds[i].list)
  {
    hide Cut, CutEnds, Wrap32;
    ds := [];
    var start, tmp_end := start_addr, end_addr;
    while start < end_addr
      invariant CutEnds(start, end_addr)
      invariant NewDescs(ds, cur_index)
      invariant Values(ds) + Cut(start, end_addr) == Cut(start_addr, end_addr)
      invariant forall i | 0 <= i < |ds| :: fresh(ds[i]) && fresh(ds[i].list)
      decreases end_addr - start
    {
      CutStep(Values(ds), start, end_addr);
      CutStaysBelow(start, end_addr);
      WrapKept(start + DESC_SIZE);
      if Wrap32(start + DESC_SIZE) < end_addr {
        tmp_end := Wrap32(start + DESC_SIZE) - 1;
      } else {
        tmp_end := end_addr;
      }
      var d := new MemDesc(cur_index + |ds|, start, tmp_end, 0, NEW_FLAG);
      ds := ds + [d];
      start := Wrap32(start + DESC_SIZE);
    }
    CutDone(start, end_addr);
  }

  /** One turn of the loop of init_mem_desc. */
  method InitSpace(space: Space, ds: seq<MemDesc>) returns (all: seq<MemDesc>)
    requires NewDescs(ds, 0) && (space.sdram ==> CutEnds(space.start, space.end))
    ensures Values(all) == Values(ds) + if space.sdram then Cut(space.start, space.end) else []
    ensures NewDescs(all, 0) && ds <= all
    ensures forall j | |ds| <= j < |all| :: fresh(all[j]) && fresh(all[j].list)
  {
    hide Cut;
    all := ds;
    if space.sdram {
      var more := InitCoreMemDesc(space.start, space.end, |ds|);
      all := ds + more;
    }
  }

  /** The size of a descriptor: seven words. */
  const DESC_BYTES: nat := 28

  /** init_mem_desc; `mem_descs` is the address of the descriptor array. */
  method InitMemDesc(spaces: seq<Space>, mem_descs: u32) returns (ds: seq<MemDesc>, kmem_end: u32)
    requires AllCutsEnd(spaces)
    ensures kmem_end == Wrap32(mem_descs + DESC_BYTES * |CutAll(spaces)|)
    ensures Values(ds) == CutAll(spaces) && NewDescs(ds, 0)
    ensures forall i | 0 <= i < |ds| :: fresh(ds[i]) && fresh(ds[i].list)
  {
    hide Cut, CutAll, CutEnds;
    CutAllEnds(spaces);
    ds := [];
    var i := 0;
    while i < |spaces|
      invariant i <= |spaces| && NewDescs(ds, 0)
      invariant Values(ds) + CutAll(spaces[i..]) == CutAll(spaces)
      invariant forall j | 0 <= j < |ds| :: fresh(ds[j]) && fresh(ds[j].list)
    {
      CutAllStep(Values(ds), spaces, i);
      ds := InitSpace(spaces[i], ds);
      i := i + 1;
    }
    kmem_end := Wrap32(mem_descs + DESC_BYTES * |ds|);
  }

  /** The slab part of phy_mem_init. */
  method InitSlabs() returns (slabs: seq<MemSlab>)
    ensures SlabsOk(slabs)
    ensures forall r | r in AllRings() :: SelfLinked(Anchor(slabs, r)) && fresh(Anchor(slabs, r))
  {
    slabs := [];
    var sizes := [0x20000, 0x40000, 0x80000, 0x100000, 0x200000, 0x400000];
    while |slabs| < CLASSES
      invariant |slabs| <= CLASSES
      invariant forall k: nat | k < |slabs| :: slabs[k].size == SizeOf(k)
      invariant forall r: RingId | r.slab < |slabs| ::
        var h := AnchorIn(slabs[r.slab], r.kind);
        h.id == AnchorTag(r) && SelfLinked(h) && fresh(h)
    {
      var slab := new MemSlab(|slabs|, sizes[|slabs|]);
      slabs := slabs + [slab];
    }
  }

  /** The family of empty lists the machine starts from, and the set of all list heads. */
  lemma FirstLists(slabs: seq<MemSlab>, descs: seq<MemDesc>) returns (heads: set<ListHead>, R: Rings)
    requires SlabsOk(slabs) && NewDescs(descs, 0)
    requires forall r | r in AllRings() :: SelfLinked(Anchor(slabs, r))
    ensures heads == Anchors(slabs) + set i | 0 <= i < |descs| :: descs[i].list
    ensures R == map h | h in Anchors(slabs) :: []
    ensures WellFormed(heads, R) && RingsOk(slabs, descs, R) && RingValues(slabs, descs, R) == NoRings()
  {
    heads := Anchors(slabs) + set i | 0 <= i < |descs| :: descs[i].list;
    R := map h | h in Anchors(slabs) :: [];
    EmptyRep(slabs, descs, heads);
  }

  /** init_mem_desc and phy_mem_init: descriptors and slabs, nothing on a list yet. */
  method BuildMm(spaces: seq<Space>, mem_descs: u32) returns (m: PhyMem, kmem_end: u32)
    requires AllCutsEnd(spaces)
    ensures kmem_end == Wrap32(mem_descs + DESC_BYTES * |CutAll(spaces)|)
    ensures fresh(m) && (forall h | h in m.heads :: fresh(h)) && (forall i | 0 <= i < |m.descs| :: fresh(m.descs[i]))
    ensures m.Rep() && m.blocks == Blocks(CutAll(spaces), NoRings()) && |m.descs| == |CutAll(spaces)|
    ensures |m.slabs| == CLASSES && m.Listed(1)
  {
    hide WellFormed, RingsOk, RingValues, SlabsOk, Cut, CutAll, NoRings, PhyMem.Rep, AllCutsEnd;
    var descs;
    descs, kmem_end := InitMemDesc(spaces, mem_descs);
    var slabs := InitSlabs();
    ghost var heads, R := FirstLists(slabs, descs);
    forall h | h in heads ensures fresh(h) {
      if h in Anchors(slabs) {
        var r :| r in AllRings() && h == Anchor(slabs, r);
      }
    }
    m := new PhyMem(slabs, descs, heads, R);
  }

  /** The kernel, from its start to the end of the descriptor array behind it, passes the test of
      init_kernel_mem. */
  predicate KernelFits(spaces: seq<Space>, kmem_start: u32, mem_descs: u32)
    requires CutAll(spaces) != []
  {
    && Wrap32(Wrap32(mem_descs + DESC_BYTES * |CutAll(spaces)|) - kmem_start) <= SizeOf(0)
    && kmem_start >= CutAll(spaces)[0].start
  }

  /** init_mm: the block layer ready for use, or null where the program calls sys_die.  For a sound map the
      object is valid; for another the start state is the same, but its short descriptor is not whole. */
  method InitMm(spaces: seq<Space>, kmem_start: u32, mem_descs: u32) returns (m: PhyMem?)
    requires AllCutsEnd(spaces) && CutAll(spaces) != []
    ensures m != null <==> KernelFits(spaces, kmem_start, mem_descs)
    ensures m != null ==> m.Rep() && m.blocks == Start(CutAll(spaces)) && fresh(m)
    ensures m != null && Sound(spaces) ==> m.Valid()
  {
    hide Cut, CutAll, NoRings, Placed, Sorted, Geometry, PhyMem.Rep, PhyMem.Listed, Start, LiveOf, Sound, AllButFirst,
         AllCutsEnd;
    var phy, kmem_end := BuildMm(spaces, mem_descs);
    phy.MemListInit();
    var alive := phy.InitKernelMem(kmem_start, kmem_end);
    if !alive {
      return null;
    }
    if Sound(spaces) {
      StartInv(spaces);
    }
    m := phy;
  }
}
