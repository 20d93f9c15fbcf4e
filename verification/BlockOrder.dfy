/** In which order the block layer (hal/mm.c) uses its descriptors: first come, first served on every list, and the
    lowest free block of a descriptor first. */
module BlockOrder {
  import opened Words
  import opened BlockModel

  function Partials(b: Blocks, k: nat): seq<nat>
    requires Placed(|b.descs|, b.rings) && k < CLASSES
  {
    b.rings[RingId(k, Partial)]
  }

  function Blanks(b: Blocks): seq<nat>
    requires Placed(|b.descs|, b.rings)
  {
    b.rings[RingId(5, Empty)]
  }

  /** The descriptor that a class is served from next: one already cut for it, before any blank one. */
  function Next(b: Blocks, k: nat): nat
    requires Placed(|b.descs|, b.rings) && k < CLASSES && (Partials(b, k) != [] || Blanks(b) != [])
  {
    if Partials(b, k) != [] then Partials(b, k)[0] else Blanks(b)[0]
  }

  /** A successful allocation takes the block at the lowest free place of the descriptor in front, which leaves the
      front of its list and joins the end of another: the full list when that was its last free block, and the
      partial list otherwise. */
  lemma AllocOrder(b: Blocks, size: int) returns (x: nat, i: nat)
    requires Inv(b) && Alloc(b, size).1 != 0
    ensures ClassOf(size) >= 0 && (Partials(b, ClassOf(size)) != [] || Blanks(b) != [])
    ensures x == Next(b, ClassOf(size)) < |b.descs| && i < BitsOf(ClassOf(size)) <= 32
    ensures Alloc(b, size).1 == b.descs[x].start + i * size
    ensures !Bit(b.descs[x].map_count, i) && forall h: nat | h < i :: Bit(b.descs[x].map_count, h)
    ensures var k, t := ClassOf(size), Alloc(b, size).0;
      var to := RingId(k, if t.descs[x].map_count == MaskOf(k) then Full else Partial);
      && |t.descs| == |b.descs| && (forall d | 0 <= d < |b.descs| && d != x :: t.descs[d] == b.descs[d])
      && Requeued(b.rings, t.rings, if Partials(b, k) != [] then RingId(k, Partial) else RingId(5, Empty), to)
  {
    hide Geometry, Sorted, LowestClear, And, Or, Bit, LiveOf, Pow2, ClassIn, Take;
    AllocNullIff(b, size);
    var k := ClassOf(size);
    ClassMeansSize(size);
    var r := Source(b.rings, k);
    x, i := b.rings[r][0], FreeBit(b, k, r);
    AllocPick(b, k);
    LowestIs(b.descs[x].map_count, BitsOf(k));
    MoveQueues(b.rings, r, RingId(k, if Take(b.descs[x], k, i).map_count == MaskOf(k) then Full else Partial));
  }

  lemma ClassMeansSize(size: int)
    requires ClassOf(size) >= 0
    ensures ClassOf(size) < CLASSES && size == SizeOf(ClassOf(size)) && BitsOf(ClassOf(size)) <= 32
  {
  }

  lemma LowestIs(m: nat, n: nat)
    ensures var i := LowestClear(m, 0, n); (i < n ==> !Bit(m, i)) && forall h: nat | h < i :: Bit(m, h)
  {
  }

  /** The first entry of list `from` has become the last one of list `to`; nothing else has moved. */
  ghost predicate Requeued(rings: map<RingId, seq<nat>>, rings': map<RingId, seq<nat>>, from: RingId, to: RingId) {
    && from in rings && to in rings && rings[from] != [] && rings'.Keys == rings.Keys
    && (if from == to then rings'[to] == rings[from][1..] + [rings[from][0]]
        else rings'[from] == rings[from][1..] && rings'[to] == rings[to] + [rings[from][0]])
    && forall r | r in rings && r != from && r != to :: rings'[r] == rings[r]
  }

  lemma MoveQueues(rings: map<RingId, seq<nat>>, from: RingId, to: RingId)
    requires from in rings && to in rings && rings[from] != []
    ensures Requeued(rings, Move(rings, from, 0, to), from, to)
  {
    assert rings[from][..0] + rings[from][1..] == rings[from][1..];
  }

  /** Two descriptors with free blocks of a class take turns. */
  lemma AllocsAlternate(b: Blocks, size: int)
    requires Inv(b) && ClassOf(size) >= 0 && |Partials(b, ClassOf(size))| >= 2
    ensures var x, y := Partials(b, ClassOf(size))[0], Partials(b, ClassOf(size))[1];
      var (t, a) := Alloc(b, size);
      && x < |b.descs| && y < |b.descs| && x != y && Inv(t)
      && var (u, c) := Alloc(t, size);
      && b.descs[x].start <= a && a + size - 1 <= b.descs[x].end
      && b.descs[y].start <= c && c + size - 1 <= b.descs[y].end
  {
    hide Geometry, Sorted, Alloc, LiveOf, Bit;
    var k := ClassOf(size);
    AllocNullIff(b, size);
    AllocKeepsInv(b, size);
    var t := Alloc(b, size).0;
    var x, i := AllocOrder(b, size);
    SlotWithin(b, x, k, i);
    AllocNullIff(t, size);
    var y, j := AllocOrder(t, size);
    SlotWithin(t, y, k, j);
  }

  lemma SlotWithin(b: Blocks, x: nat, k: nat, i: nat)
    requires Inv(b) && x < |b.descs| && k < CLASSES && i < BitsOf(k)
    ensures b.descs[x].start <= b.descs[x].start + i * SizeOf(k)
    ensures b.descs[x].start + i * SizeOf(k) + SizeOf(k) - 1 <= b.descs[x].end
  {
    WholeDesc(b, x);
    SlotTiling(k, i, i);
  }

  /** An accepted free leaves the lists alone while blocks of the descriptor are in use; the free of the last one
      sends the descriptor to the end of the blank ones, behind all that wait there. */
  lemma FreeOrder(b: Blocks, addr: int, size: int)
    requires Inv(b) && Free(b, addr, size).1
    ensures ClassOf(size) >= 0 && Inv(Free(b, addr, size).0)
    ensures var t := Free(b, addr, size).0;
      var (r, p) := FindForFree(b, ClassOf(size), addr);
      p < |b.rings[r]| && b.rings[r][p] < |b.descs| == |t.descs|
      && var x := b.rings[r][p];
      if t.descs[x].map_count == 0 then
        && Blanks(t) == Blanks(b) + [x] && t.rings[r] == b.rings[r][..p] + b.rings[r][p + 1..]
        && forall q | q in b.rings && q != r && q != RingId(5, Empty) :: t.rings[q] == b.rings[q]
      else t.rings == b.rings
  {
    hide Geometry, Sorted, And, Or, Bit, LiveOf, Drop, WithClass;
    FreeKeepsInv(b, addr, size);
  }
}
