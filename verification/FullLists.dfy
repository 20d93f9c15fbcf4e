/** The full lists of the block layer (hal/mm.c).  A comment at the search says that a full list holds only
    descriptors without a free block; this module says when that is so, and what it costs when it is not. */
module FullLists {
  import opened Words
  import opened BlockModel

  /** Every descriptor on a full list is full. */
  ghost predicate FullAreFull(b: Blocks)
    requires Placed(|b.descs|, b.rings)
  {
    forall k: nat, p: nat | k < CLASSES && p < |b.rings[RingId(k, Full)]| ::
      b.descs[b.rings[RingId(k, Full)][p]].map_count == MaskOf(k)
  }

  // ---------- Start-up and allocation ----------

  /** It is so after start-up: all full lists are empty. */
  lemma StartFull(spaces: seq<Space>)
    requires Sound(spaces) && CutAll(spaces) != []
    ensures Inv(Start(CutAll(spaces))) && FullAreFull(Start(CutAll(spaces)))
  {
    hide Geometry, Sorted, CutAll, LiveOf;
    StartInv(spaces);
  }

  /** A move and an update of the moved descriptor: the other entries of the full lists stay as they were. */
  lemma MovedFull(b: Blocks, from: RingId, p: nat, to: RingId, d: Desc)
    requires Placed(|b.descs|, b.rings) && FullAreFull(b)
    requires from in b.rings && p < |b.rings[from]| && to in b.rings
    requires to.kind == Full ==> d.map_count == MaskOf(to.slab)
    ensures var b' := Blocks(b.descs[b.rings[from][p] := d], Move(b.rings, from, p, to));
      Placed(|b'.descs|, b'.rings) && FullAreFull(b')
  {
    var x := b.rings[from][p];
    var b' := Blocks(b.descs[x := d], Move(b.rings, from, p, to));
    MovePlaced(b.rings, |b.descs|, from, p, to);
    MoveShape(b.rings, |b.descs|, from, p, to);
    hide Move;
    forall k: nat, j: nat | k < CLASSES && j < |b'.rings[RingId(k, Full)]|
      ensures b'.descs[b'.rings[RingId(k, Full)][j]].map_count == MaskOf(k)
    {
      var r := RingId(k, Full);
      var y := b'.rings[r][j];
      if y != x {
        var i :| 0 <= i < |b.rings[r]| && b.rings[r][i] == y;
      }
    }
  }

  /** Every allocation keeps it. */
  lemma AllocKeepsFull(b: Blocks, size: int)
    requires Inv(b) && FullAreFull(b)
    ensures Inv(Alloc(b, size).0) && FullAreFull(Alloc(b, size).0)
  {
    hide FullAreFull, Geometry, Sorted, Move, Take, LowestClear;
    AllocKeepsInv(b, size);
    var k := ClassOf(size);
    if k >= 0 && b.rings[Source(b.rings, k)] != [] {
      var r := Source(b.rings, k);
      var i := FreeBit(b, k, r);
      if i < BitsOf(k) {
        var d := Take(b.descs[b.rings[r][0]], k, i);
        MovedFull(b, r, 0, RingId(k, if d.map_count == MaskOf(k) then Full else Partial), d);
      }
    }
  }

  // ---------- Free ----------

  /** Clearing one of several bits of a full map leaves others. */
  lemma FullLeavesOthers(k: nat, i: nat)
    requires k < CLASSES && i < BitsOf(k)
    ensures Drop(MaskOf(k), i) == 0 <==> k == 5
  {
    hide And;
    MaskBits(k);
    var j := if i == 0 then 1 else 0;
    BitAfterClear(MaskOf(k), i, j);
    if k < 5 {
      BitOfComplement(0, BitsOf(k), j);
      BitOfZero(j);
    } else {
      LastBit();
    }
  }

  lemma LastBit()
    ensures Drop(1, 0) == 0
  {
    BitsOfOne();
    NoBitMeansZero(Drop(1, 0));
  }

  lemma BitsOfOne()
    ensures forall j: nat | j < 32 :: !Bit(Drop(1, 0), j)
  {
    forall j: nat | j < 32
      ensures !Bit(Drop(1, 0), j)
    {
      BitAfterClear(1, 0, j);
      BitOfPow2(0, j);
    }
  }

  /** The free touches the full list of a class with several blocks. */
  ghost predicate HitsFull(b: Blocks, addr: int, size: int)
    requires Placed(|b.descs|, b.rings)
  {
    Free(b, addr, size).1 && ClassOf(size) < 5 && FindForFree(b, ClassOf(size), addr).0.kind == Full
  }

  /** A free that finds its descriptor on a full list of a class with several blocks spoils it. */
  lemma HitSpoils(b: Blocks, addr: int, size: int)
    requires Inv(b) && FullAreFull(b) && HitsFull(b, addr, size)
    ensures Inv(Free(b, addr, size).0) && !FullAreFull(Free(b, addr, size).0)
  {
    hide Geometry, Sorted, LiveOf, And, Or, BlockAt, Drop, FindIn, Move;
    FreeKeepsInv(b, addr, size);
    var k := ClassOf(size);
    var z, x, i := FreeNeeds(b, addr, size);
    FoundForFree(b, k, addr);
    var (r, p) := FindForFree(b, k, addr);
    FullLeavesOthers(k, i);
    ClearedNotMask(b.descs[x].map_count, i, k);
    var b' := Free(b, addr, size).0;
    assert b'.rings == b.rings && b'.rings[RingId(k, Full)][p] == x;
    assert b'.descs[x].map_count == Drop(MaskOf(k), i);
  }

  /** Any other free keeps it. */
  lemma OtherFreesKeep(b: Blocks, addr: int, size: int)
    requires Inv(b) && FullAreFull(b) && !HitsFull(b, addr, size)
    ensures Inv(Free(b, addr, size).0) && FullAreFull(Free(b, addr, size).0)
  {
    hide Geometry, Sorted, LiveOf, And, Or, BlockAt, Drop, FindIn, Move, FullAreFull;
    FreeKeepsInv(b, addr, size);
    if Free(b, addr, size).1 {
      var k := ClassOf(size);
      var z, x, i := FreeNeeds(b, addr, size);
      FoundForFree(b, k, addr);
      var (r, p) := FindForFree(b, k, addr);
      var d := b.descs[x].(map_count := Drop(b.descs[x].map_count, i));
      if d.map_count == 0 {
        MovedFull(b, r, p, RingId(5, Empty), d.(flag := WithClass(d.flag, 5)));
      } else if r.kind == Partial {
        StayedFull(b, r, p, d);
      } else {
        OnFullList(b, r, p);
        FullLeavesOthers(5, i);
      }
    }
  }

  lemma OnFullList(b: Blocks, r: RingId, p: nat)
    requires Placed(|b.descs|, b.rings) && FullAreFull(b) && r in b.rings && r.kind == Full && p < |b.rings[r]|
    ensures b.descs[b.rings[r][p]].map_count == MaskOf(r.slab)
  {
    assert r == RingId(r.slab, Full);
  }

  lemma StayedFull(b: Blocks, r: RingId, p: nat, d: Desc)
    requires Placed(|b.descs|, b.rings) && FullAreFull(b) && r in b.rings && p < |b.rings[r]| && r.kind == Partial
    ensures var b' := b.(descs := b.descs[b.rings[r][p] := d]); Placed(|b'.descs|, b'.rings) && FullAreFull(b')
  {
  }

  /** The comment's property, from a state that has it, survives a free exactly when the free does not take
      a block out of a full list of one of the five smaller classes. */
  lemma FreeKeepsFullIff(b: Blocks, addr: int, size: int)
    requires Inv(b) && FullAreFull(b)
    ensures Inv(Free(b, addr, size).0)
    ensures FullAreFull(Free(b, addr, size).0) <==> !HitsFull(b, addr, size)
  {
    hide FullAreFull, HitsFull, Free;
    if HitsFull(b, addr, size) {
      HitSpoils(b, addr, size);
    } else {
      OtherFreesKeep(b, addr, size);
    }
  }

  // ---------- What it costs ----------

  /** Some block of class `k` could be given out: a descriptor of the class has a clear bit, or one is blank. */
  ghost predicate HasFreeBlock(b: Blocks, k: nat)
    requires k < CLASSES
  {
    exists d: nat :: d < |b.descs| && FreeIn(b.descs[d], k)
  }

  predicate FreeIn(d: Desc, k: nat)
    requires k < CLASSES
  {
    d.map_count == 0 || (ClassIn(d.flag) == k && d.map_count != MaskOf(k))
  }

  /** A descriptor on the full list of class `k` that is not full. */
  ghost predicate Stranded(b: Blocks, k: nat)
    requires Placed(|b.descs|, b.rings) && k < CLASSES
  {
    exists p: nat :: p < |b.rings[RingId(k, Full)]| && b.descs[b.rings[RingId(k, Full)][p]].map_count != MaskOf(k)
  }

  /** An allocation of one of the six sizes fails although a block of that size is free exactly when both
      usable lists are empty and the free block is stranded on the full list. */
  lemma AllocMissesIff(b: Blocks, size: int)
    requires Inv(b) && ClassOf(size) >= 0
    ensures Alloc(b, size).1 == 0 && HasFreeBlock(b, ClassOf(size)) <==>
      Exhausted(b, ClassOf(size)) && Stranded(b, ClassOf(size))
  {
    hide Geometry, LiveOf, And, Or, Move, Alloc;
    var k := ClassOf(size);
    AllocNullIff(b, size);
    if Exhausted(b, k) {
      if HasFreeBlock(b, k) {
        var d: nat :| d < |b.descs| && FreeIn(b.descs[d], k);
        var r, p := RingOf(b, d);
        assert r == RingId(k, Full);
      }
      if Stranded(b, k) {
        var r := RingId(k, Full);
        var p: nat :| p < |b.rings[r]| && b.descs[b.rings[r][p]].map_count != MaskOf(k);
        StrandedIsFree(b, k, p);
      }
    }
  }

  lemma StrandedIsFree(b: Blocks, k: nat, p: nat)
    requires Inv(b) && k < CLASSES && p < |b.rings[RingId(k, Full)]|
    requires b.descs[b.rings[RingId(k, Full)][p]].map_count != MaskOf(k)
    ensures HasFreeBlock(b, k)
  {
    hide Geometry, And;
    var d := b.rings[RingId(k, Full)][p];
    assert Fits(RingId(k, Full), b.descs[d]);
    assert FreeIn(b.descs[d], k);
  }

  /** While the comment's property holds, an allocation of one of the six sizes fails only when no block of
      that size is free. */
  lemma FullMeansNoMiss(b: Blocks, size: int)
    requires Inv(b) && FullAreFull(b) && ClassOf(size) >= 0
    ensures Alloc(b, size).1 == 0 <==> !HasFreeBlock(b, ClassOf(size))
  {
    hide Geometry, LiveOf, And, Or, Alloc, HasFreeBlock;
    AllocMissesIff(b, size);
    AllocNullIff(b, size);
    if !Exhausted(b, ClassOf(size)) {
      UsableIsFree(b, ClassOf(size));
    }
  }

  lemma UsableIsFree(b: Blocks, k: nat)
    requires Inv(b) && k < CLASSES && !Exhausted(b, k)
    ensures HasFreeBlock(b, k)
  {
    hide Geometry, And;
    var r := if b.rings[RingId(k, Partial)] != [] then RingId(k, Partial) else RingId(5, Empty);
    FirstFits(b, r);
    assert FreeIn(b.descs[b.rings[r][0]], k);
  }

  // ---------- A free block that cannot be had ----------

  /** Two descriptors of SDRAM. */
  const EIGHT_MB: seq<Space> := [Space(true, 0x8000_0000, 0x807f_ffff)]
  const HALF: int := 0x20_0000

  lemma EightMbMap()
    ensures Sound(EIGHT_MB) && |CutAll(EIGHT_MB)| == 2
    ensures CutAll(EIGHT_MB)[1] == Desc(0x8040_0000, 0x807f_ffff, 0, NEW_FLAG)
  {
    CutIsWhole(0x8000_0000, 2);
    assert CutAll(EIGHT_MB[1..]) == [];
    assert CutAll(EIGHT_MB) == Cut(0x8000_0000, 0x807f_ffff) + [];
  }

  lemma SmallMaps()
    ensures Raise(0, 0) == 1 && Raise(1, 1) == 3 && Drop(3, 0) == 2
    ensures LowestClear(0, 0, 2) == 0 && LowestClear(1, 0, 2) == 1
  {
    assert Pow2(0) == 1 && Pow2(1) == 2;
    assert Or(0, 1) == 1 && Or(1, 2) == 3;
    assert Bit(1, 0) && !Bit(0, 0) && !Bit(1, 1);
    DropLow();
  }

  lemma DropLow()
    ensures Drop(3, 0) == 2
  {
    Widths();
    AndBelow(3, Not32(Pow2(0)));
    forall j: nat
      ensures Bit(Drop(3, 0), j) == Bit(2, j)
    {
      if j < 32 {
        BitAfterClear(3, 0, j);
      } else {
        NoHighBit(Drop(3, 0), 32, j);
        NoHighBit(2, 32, j);
      }
      if j > 1 {
        assert 3 / 2 == 1 && 2 / 2 == 1;
        assert Bit(3, j) == Bit(1, j - 1) && Bit(2, j) == Bit(1, j - 1);
      }
    }
    SameBits(Drop(3, 0), 2);
  }

  /** A state of the two descriptors with bitmap `m` in the second, which is alone on ring `r`; no other
      descriptor serves a request for 2 MB. */
  ghost predicate SecondOn(b: Blocks, m: u32, r: RingId) {
    && Inv(b) && |b.descs| == 2 && b.descs[1].start == 0x8040_0000 && b.descs[1].end == 0x807f_ffff
    && b.descs[1].map_count == m && r in b.rings && b.rings[r] == [1]
    && forall q | q in b.rings && q != r && q in {RingId(4, Partial), RingId(4, Full), RingId(5, Empty)} :: b.rings[q] == []
  }

  lemma MoveAlone(rings: map<RingId, seq<nat>>, r: RingId, to: RingId)
    requires r in rings && to in rings && r != to && rings[r] == [1] && rings[to] == []
    ensures Move(rings, r, 0, to) == rings[r := []][to := [1]]
  {
    assert [1][..0] + [1][1..] == [];
    assert [] + [1] == [1];
  }

  /** An allocation of 2 MB from the second descriptor. */
  lemma TakeHalf(b: Blocks, m: u32, r: RingId, i: nat)
    requires SecondOn(b, m, r) && Source(b.rings, 4) == r && i < 2 && LowestClear(m, 0, 2) == i
    requires r == RingId(5, Empty) || (r == RingId(4, Partial) && Raise(m, i) == 3)
    ensures Alloc(b, HALF).1 == 0x8040_0000 + i * HALF
    ensures SecondOn(Alloc(b, HALF).0, Raise(m, i), RingId(4, if Raise(m, i) == 3 then Full else Partial))
  {
    hide And, Or, Raise, LowestClear, WithClass, Geometry, Sorted, Move;
    AllocKeepsInv(b, HALF);
    MoveAlone(b.rings, r, RingId(4, if Raise(m, i) == 3 then Full else Partial));
  }

  lemma GiveFirstHalf(b: Blocks)
    requires SecondOn(b, 3, RingId(4, Full))
    ensures Free(b, 0x8040_0000, HALF).1 && SecondOn(Free(b, 0x8040_0000, HALF).0, 2, RingId(4, Full))
  {
    hide And, Or, Raise, Drop, LowestClear, WithClass, Geometry, Sorted;
    hide FindIn, FindForFree, Bit, LiveOf, ClassIn, SlotAt;
    SmallMaps();
    FirstHalfFound(b);
    FreeKeepsInv(b, 0x8040_0000, HALF);
  }

  lemma FirstHalfFound(b: Blocks)
    requires SecondOn(b, 3, RingId(4, Full))
    ensures FindForFree(b, 4, 0x8040_0000) == (RingId(4, Full), 0) && SlotAt(0, 4) == 0 && Bit(3, 0)
  {
    hide Inv;
    assert FindIn(b.descs, [1], 0x8040_0000) == 0;
  }

  lemma NothingToHave(b: Blocks)
    requires SecondOn(b, 2, RingId(4, Full))
    ensures !FullAreFull(b) && HasFreeBlock(b, 4) && Alloc(b, HALF).1 == 0
  {
    hide And, Or, Raise, Drop, LowestClear, WithClass, Geometry, Sorted;
    assert b.descs[b.rings[RingId(4, Full)][0]].map_count == 2;
    StrandedIsFree(b, 4, 0);
    AllocNullIff(b, HALF);
  }

  /** After start-up on two descriptors: both halves of the second one are taken and the first is given back.
      Then a 2 MB block is free, and none can be had. */
  lemma FreedHalfIsStranded()
    ensures Inv(Start(CutAll(EIGHT_MB)))
    ensures var (b1, x) := Alloc(Start(CutAll(EIGHT_MB)), HALF);
      && x == 0x8040_0000 && Inv(b1)
      && var (b2, y) := Alloc(b1, HALF);
      && y == 0x8060_0000 && Inv(b2)
      && var (b3, ok) := Free(b2, x, HALF);
      ok && Inv(b3) && !FullAreFull(b3) && HasFreeBlock(b3, 4) && Alloc(b3, HALF).1 == 0
  {
    hide And, Or, LiveOf, CutAll, Geometry, Sorted, Alloc, Free, HasFreeBlock, FullAreFull, Raise, LowestClear;
    EightMbMap();
    StartInv(EIGHT_MB);
    var b := Start(CutAll(EIGHT_MB));
    assert b.rings[RingId(5, Empty)] == [1];
    SmallMaps();
    TakeHalf(b, 0, RingId(5, Empty), 0);
    var b1 := Alloc(b, HALF).0;
    TakeHalf(b1, 1, RingId(4, Partial), 1);
    var b2 := Alloc(b1, HALF).0;
    GiveFirstHalf(b2);
    NothingToHave(Free(b2, 0x8040_0000, HALF).0);
  }
}
