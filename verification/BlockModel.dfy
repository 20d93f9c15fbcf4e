/** The block layer (hal/mm.c) as values: descriptors, the rings of the six size classes, what an
    allocation and a free do to them, and the invariant they keep. */
module BlockModel {
  import opened Words

  const DESC_SIZE: nat := 0x400000
  const CLASSES: nat := 6
  /** Everything but the bits that hold a descriptor's current block size. */
  const KEEP_FLAGS: u32 := 0xffff_ff0f

  /** Size of a block of class `k` (128 KB up to 4 MB). */
  function SizeOf(k: nat): (s: nat)
    requires k < CLASSES
    ensures 0x20000 <= s <= DESC_SIZE
  {
    if k == 0 then 0x20000 else if k == 1 then 0x40000 else if k == 2 then 0x80000
    else if k == 3 then 0x100000 else if k == 4 then 0x200000 else 0x400000
  }

  /** Number of blocks of class `k` in a descriptor, and the mask of their bits. */
  function BitsOf(k: nat): (n: nat)
    requires k < CLASSES
    ensures 1 <= n <= 32
  {
    if k == 0 then 32 else if k == 1 then 16 else if k == 2 then 8
    else if k == 3 then 4 else if k == 4 then 2 else 1
  }

  function MaskOf(k: nat): u32
    requires k < CLASSES
  {
    if k == 0 then 0xffff_ffff else if k == 1 then 0xffff else if k == 2 then 0xff
    else if k == 3 then 0xf else if k == 4 then 3 else 1
  }

  function AcszOf(k: nat): u32
    requires k < CLASSES
  {
    (k + 1) * 16
  }

  /** The class of a block size, or -1. */
  function ClassOf(size: int): (k: int)
    ensures -1 <= k < CLASSES
    ensures k >= 0 ==> SizeOf(k) == size
    ensures k < 0 ==> forall j: nat | j < CLASSES :: SizeOf(j) != size
  {
    if size == 0x20000 then 0 else if size == 0x40000 then 1 else if size == 0x80000 then 2
    else if size == 0x100000 then 3 else if size == 0x200000 then 4 else if size == 0x400000 then 5
    else -1
  }

  datatype Kind = Full | Empty | Partial
  datatype RingId = RingId(slab: nat, kind: Kind)
  datatype Desc = Desc(start: int, end: int, map_count: u32, flag: u32)
  datatype Blocks = Blocks(descs: seq<Desc>, rings: map<RingId, seq<nat>>)
  /** An allocated range [addr, addr + size). */
  datatype Block = Block(addr: int, size: int)

  // ---------- Invariant ----------

  /** The class recorded in a flag word. */
  function ClassIn(flag: u32): (k: nat)
    ensures k < CLASSES
  {
    var f := And(flag, 0xf0);
    if f == AcszOf(0) then 0 else if f == AcszOf(1) then 1 else if f == AcszOf(2) then 2
    else if f == AcszOf(3) then 3 else if f == AcszOf(4) then 4 else 5
  }

  /** Whole, aligned 4 MB descriptors, away from address 0 and from the top of the address space. */
  ghost predicate Whole(d: Desc) {
    0 < d.start && d.start % DESC_SIZE == 0 && d.end == d.start + DESC_SIZE - 1 && d.end + DESC_SIZE < TWO_32
  }

  ghost predicate Apart(d: Desc, e: Desc) {
    d.end < e.start || e.end < d.start
  }

  ghost predicate Geometry(b: Blocks) {
    && (forall i :: 0 <= i < |b.descs| ==> Whole(b.descs[i]))
    && (forall i, j :: 0 <= i < j < |b.descs| ==> Apart(b.descs[i], b.descs[j]))
  }

  /** Every descriptor is on exactly one ring, once. */
  ghost predicate Placed(n: nat, rings: map<RingId, seq<nat>>) {
    && (forall r :: r in rings <==> r.slab < CLASSES)
    && (forall r, p :: r in rings && 0 <= p < |rings[r]| ==> rings[r][p] < n)
    && (forall q, i, r, j ::
          q in rings && r in rings && 0 <= i < |rings[q]| && 0 <= j < |rings[r]| && rings[q][i] == rings[r][j]
          ==> q == r && i == j)
    && (forall d: nat :: d < n ==> OnSome(rings, d))
  }

  ghost predicate OnSome(rings: map<RingId, seq<nat>>, d: nat) {
    exists r :: r in rings && d in rings[r]
  }

  /** What a descriptor on ring `r` looks like. */
  ghost predicate Fits(r: RingId, d: Desc)
    requires r.slab < CLASSES
  {
    && And(d.flag, 0xf0) == AcszOf(r.slab)
    && d.map_count < Pow2(BitsOf(r.slab))
    && match r.kind
       case Empty => r.slab == 5 && d.map_count == 0
       case Partial => r.slab < 5 && d.map_count != 0 && d.map_count != MaskOf(r.slab)
       case Full => d.map_count != 0
  }

  ghost predicate Sorted(b: Blocks)
    requires Placed(|b.descs|, b.rings)
  {
    forall r, p :: r in b.rings && 0 <= p < |b.rings[r]| ==> Fits(r, b.descs[b.rings[r][p]])
  }

  ghost predicate Inv(b: Blocks) {
    Geometry(b) && Placed(|b.descs|, b.rings) && Sorted(b)
  }

  // ---------- Live blocks ----------

  /** The `i`-th block of a range cut into blocks of class `k`. */
  function Slot(start: int, k: nat, i: nat): Block
    requires k < CLASSES
  {
    Block(start + i * SizeOf(k), SizeOf(k))
  }

  /** The `i`-th block of a descriptor. */
  function BlockAt(d: Desc, i: nat): Block {
    Slot(d.start, ClassIn(d.flag), i)
  }

  /** The number of the block of class `k` that covers offset `off`. */
  function SlotAt(off: nat, k: nat): (i: nat)
    requires k < CLASSES
    ensures i * SizeOf(k) <= off < (i + 1) * SizeOf(k)
  {
    off / SizeOf(k)
  }

  ghost predicate LiveAt(descs: seq<Desc>, d: nat, i: nat) {
    d < |descs| && i < 32 && Bit(descs[d].map_count, i)
  }

  ghost function LiveOf(descs: seq<Desc>): set<Block> {
    set d: nat, i: nat | d < |descs| && i < 32 && LiveAt(descs, d, i) :: BlockAt(descs[d], i)
  }

  ghost function Live(b: Blocks): set<Block> {
    LiveOf(b.descs)
  }

  ghost predicate Overlap(x: Block, y: Block) {
    x.addr < y.addr + y.size && y.addr < x.addr + x.size
  }

  // ---------- Allocation and free ----------

  /** The lowest clear bit of `m` at or above `i`, or `n`. */
  function LowestClear(m: nat, i: nat, n: nat): (j: nat)
    requires i <= n
    ensures i <= j <= n
    ensures forall x: nat | i <= x < j :: Bit(m, x)
    ensures j < n ==> !Bit(m, j)
    decreases n - i
  {
    if i == n || !Bit(m, i) then i else LowestClear(m, i + 1, n)
  }

  /** Unlinks position `p` of ring `from` and appends that descriptor to ring `to`. */
  function Move(rings: map<RingId, seq<nat>>, from: RingId, p: nat, to: RingId): map<RingId, seq<nat>>
    requires from in rings && p < |rings[from]| && to in rings
  {
    var rest := rings[from := rings[from][..p] + rings[from][p + 1..]];
    rest[to := rest[to] + [rings[from][p]]]
  }

  function WithClass(flag: u32, k: nat): u32
    requires k < CLASSES
  {
    Or32(And32(flag, KEEP_FLAGS), AcszOf(k))
  }

  /** The ring a block of class `k` is taken from, if any. */
  function Source(rings: map<RingId, seq<nat>>, k: nat): (r: RingId)
    requires k < CLASSES && forall r :: r in rings <==> r.slab < CLASSES
    ensures r in rings
  {
    if rings[RingId(k, Partial)] != [] then RingId(k, Partial) else RingId(5, Empty)
  }

  function Raise(m: u32, i: nat): u32
    requires i < 32
  {
    Widths();
    Pow2Mono(i, 32);
    Or32(m, Pow2(i))
  }

  function Take(d: Desc, k: nat, i: nat): Desc
    requires k < CLASSES && i < 32
  {
    d.(map_count := Raise(d.map_count, i), flag := WithClass(d.flag, k))
  }

  /** The bit an allocation of class `k` from ring `r` uses: the lowest clear bit of the first
      descriptor, or the number of bits when there is none. */
  function FreeBit(b: Blocks, k: nat, r: RingId): (i: nat)
    requires Placed(|b.descs|, b.rings) && k < CLASSES && r in b.rings
    ensures i <= BitsOf(k)
  {
    if b.rings[r] == [] then BitsOf(k) else LowestClear(b.descs[b.rings[r][0]].map_count, 0, BitsOf(k))
  }

  /** Takes bit `i` of the first descriptor of ring `r` for class `k` and requeues the descriptor. */
  function AllocAt(b: Blocks, k: nat, r: RingId, i: nat): Blocks
    requires Placed(|b.descs|, b.rings) && k < CLASSES && r in b.rings && b.rings[r] != [] && i < 32
  {
    var x := b.rings[r][0];
    var d := Take(b.descs[x], k, i);
    Blocks(b.descs[x := d], Move(b.rings, r, 0, RingId(k, if d.map_count == MaskOf(k) then Full else Partial)))
  }

  /** alloc_mem_blk: the new state and the address, 0 when there is no block. */
  function Alloc(b: Blocks, size: int): (Blocks, int)
    requires Placed(|b.descs|, b.rings)
  {
    var k := ClassOf(size);
    if k < 0 then (b, 0) else
      var r := Source(b.rings, k);
      var i := FreeBit(b, k, r);
      if i == BitsOf(k) then (b, 0)
      else (AllocAt(b, k, r, i), b.descs[b.rings[r][0]].start + i * SizeOf(k))
  }

  /** First position of `ring` whose descriptor spans `addr` (its last byte excepted), or its length. */
  function FindIn(descs: seq<Desc>, ring: seq<nat>, addr: int): (p: nat)
    requires forall q | 0 <= q < |ring| :: ring[q] < |descs|
    ensures p <= |ring|
    ensures p < |ring| ==> descs[ring[p]].start <= addr < descs[ring[p]].end
    ensures forall q | 0 <= q < p :: !(descs[ring[q]].start <= addr < descs[ring[q]].end)
  {
    if ring == [] then 0
    else if descs[ring[0]].start <= addr < descs[ring[0]].end then 0
    else
      var p := FindIn(descs, ring[1..], addr);
      assert forall q | 1 <= q < p + 1 :: ring[q] == ring[1..][q - 1];
      1 + p
  }

  /** Where the search of free_mem_blk for `addr` ends: a position of the full or partial ring of
      class `k`; the position is past the end when there is none. */
  function FindForFree(b: Blocks, k: nat, addr: int): (w: (RingId, nat))
    requires Placed(|b.descs|, b.rings) && k < CLASSES
    ensures w.0.slab == k && (w.0.kind == Full || w.0.kind == Partial)
    ensures w.1 <= |b.rings[w.0]|
  {
    var p := FindIn(b.descs, b.rings[RingId(k, Full)], addr);
    if p < |b.rings[RingId(k, Full)]| then (RingId(k, Full), p)
    else (RingId(k, Partial), FindIn(b.descs, b.rings[RingId(k, Partial)], addr))
  }

  /** Whether free_mem_blk accepts: the address is in a descriptor of that class and the bit of the
      block that covers it is set. */
  function FreeAccepts(b: Blocks, addr: int, size: int): bool
    requires Placed(|b.descs|, b.rings)
  {
    var k := ClassOf(size);
    addr != 0 && k >= 0 &&
    var (r, p) := FindForFree(b, k, addr);
    p < |b.rings[r]| &&
    var d := b.descs[b.rings[r][p]];
    SlotAt(addr - d.start, k) < 32 && Bit(d.map_count, SlotAt(addr - d.start, k))
  }

  /** free_mem_blk. */
  function Free(b: Blocks, addr: int, size: int): (Blocks, bool)
    requires Placed(|b.descs|, b.rings)
  {
    if FreeAccepts(b, addr, size) then
      var (r, p) := FindForFree(b, ClassOf(size), addr);
      (FreeAt(b, r, p, SlotAt(addr - b.descs[b.rings[r][p]].start, r.slab)), true)
    else
      (b, false)
  }

  /** Clears bit `i` of the descriptor at position `p` of ring `r`; a descriptor that becomes blank
      moves to the empty list of the last class, any other stays on its ring. */
  function FreeAt(b: Blocks, r: RingId, p: nat, i: nat): Blocks
    requires Placed(|b.descs|, b.rings) && r in b.rings && p < |b.rings[r]| && i < 32
  {
    var x := b.rings[r][p];
    var d := b.descs[x].(map_count := Drop(b.descs[x].map_count, i));
    if d.map_count == 0 then
      Blocks(b.descs[x := d.(flag := WithClass(d.flag, 5))], Move(b.rings, r, p, RingId(5, Empty)))
    else
      b.(descs := b.descs[x := d])
  }

  function Drop(m: u32, i: nat): u32
    requires i < 32
  {
    Pow2Mono(i, 32);
    Widths();
    AndBelow(m, Not32(Pow2(i)));
    ClearBit(m, i)
  }

  // ---------- Laws: bitmaps and slots ----------

  lemma MaskBits(k: nat)
    requires k < CLASSES
    ensures MaskOf(k) + 1 == Pow2(BitsOf(k)) <= TWO_32
  {
    hide Pow2;
    Widths();
    SmallWidths();
  }

  /** A bitmap of `n` bits with no clear bit is the mask. */
  lemma NoClearBit(m: nat, n: nat)
    requires m < Pow2(n) && forall i: nat | i < n :: Bit(m, i)
    ensures m == Pow2(n) - 1
  {
    forall i: nat ensures Bit(m, i) == Bit(Pow2(n) - 1, i) {
      if i < n {
        BitOfComplement(0, n, i);
        BitOfZero(i);
      } else {
        NoHighBit(m, n, i);
        NoHighBit(Pow2(n) - 1, n, i);
      }
    }
    SameBits(m, Pow2(n) - 1);
  }

  /** Setting a bit of an `n`-bit map keeps it one; clearing a bit does too. */
  lemma SetBitBelow(m: nat, i: nat, n: nat)
    requires m < Pow2(n) && i < n
    ensures SetBit(m, i) < Pow2(n) && SetBit(m, i) != 0
  {
    Pow2Mono(i, n);
    OrBelow(m, Pow2(i), n);
    BitAfterSet(m, i, i);
    BitOfZero(i);
  }

  /** The blocks a descriptor is cut into tile it. */
  lemma SlotTiling(k: nat, i: nat, j: nat)
    requires k < CLASSES
    ensures i < BitsOf(k) ==> i * SizeOf(k) + SizeOf(k) <= DESC_SIZE
    ensures i < j ==> i * SizeOf(k) + SizeOf(k) <= j * SizeOf(k)
  {
    if i < j {
      assert (j - i) * SizeOf(k) >= SizeOf(k);
    }
  }

  lemma SlotAligned(start: int, k: nat, i: nat)
    requires k < CLASSES && start % DESC_SIZE == 0
    ensures Slot(start, k, i).addr % SizeOf(k) == 0
  {
    var n := start / DESC_SIZE;
    assert DESC_SIZE == BitsOf(k) * SizeOf(k);
    assert Slot(start, k, i).addr == (n * BitsOf(k) + i) * SizeOf(k);
    MultipleMod(n * BitsOf(k) + i, SizeOf(k));
  }

  lemma MultipleMod(q: int, d: nat)
    requires d > 0
    ensures (q * d) % d == 0
  {
    var u := q - (q * d) / d;
    assert d * u == (q * d) % d;
    assert u >= 1 ==> d * u >= d;
    assert u <= -1 ==> d * u + d <= 0;
  }

  lemma SlotIsQuotient(off: nat, k: nat)
    requires k < CLASSES
    ensures SlotAt(off, k) == off / SizeOf(k)
  {
  }

  lemma SlotAtBounds(off: nat, k: nat)
    requires k < CLASSES && off < DESC_SIZE
    ensures SlotAt(off, k) < BitsOf(k)
  {
    assert BitsOf(k) * SizeOf(k) == DESC_SIZE;
  }

  lemma ClassBit(flag: u32, k: nat, j: nat)
    requires k < CLASSES
    ensures Bit(And(WithClass(flag, k), 0xf0), j) == Bit(AcszOf(k), j)
    ensures j < 4 || j >= 8 ==> Bit(WithClass(flag, k), j) == Bit(And(flag, KEEP_FLAGS), j)
  {
    assert Pow2(8) == 0x100;
    BitAnd(WithClass(flag, k), 0xf0, j);
    BitOr(And(flag, KEEP_FLAGS), AcszOf(k), j);
    BitAnd(flag, KEEP_FLAGS, j);
    if j >= 8 {
      NoHighBit(0xf0, 8, j);
      NoHighBit(AcszOf(k), 8, j);
    } else {
      ClassField(k, j);
    }
  }

  lemma FieldReadBack(flag: u32, k: nat, a: nat, c: nat)
    requires k < CLASSES && a == And(WithClass(flag, k), 0xf0) && c == AcszOf(k)
    ensures a == c
  {
    forall j: nat ensures Bit(a, j) == Bit(c, j) {
      ClassBit(flag, k, j);
    }
    SameBits(a, c);
  }

  /** The class that was written is the class that is read back. */
  lemma ClassReadBack(flag: u32, k: nat)
    requires k < CLASSES
    ensures And(WithClass(flag, k), 0xf0) == AcszOf(k) && ClassIn(WithClass(flag, k)) == k
  {
    hide And, Or, WithClass;
    FieldReadBack(flag, k, And(WithClass(flag, k), 0xf0), AcszOf(k));
  }

  lemma ClassField(k: nat, j: nat)
    requires k < CLASSES && j < 8
    ensures Bit(0xf0, j) == (4 <= j)
    ensures 4 <= j ==> !Bit(KEEP_FLAGS, j)
    ensures j < 4 ==> !Bit(AcszOf(k), j)
  {
    assert !Bit(0xf0, 0) && !Bit(0xf0, 1) && !Bit(0xf0, 2) && !Bit(0xf0, 3);
    assert Bit(0xf0, 4) && Bit(0xf0, 5) && Bit(0xf0, 6) && Bit(0xf0, 7);
    assert !Bit(0xffff_ff0f, 4) && !Bit(0xffff_ff0f, 5) && !Bit(0xffff_ff0f, 6) && !Bit(0xffff_ff0f, 7);
    assert AcszOf(k) / 2 / 2 / 2 / 2 == k + 1;
  }

  // ---------- Laws: rings ----------

  /** After a move: the moved descriptor is last on its new ring; every other entry was on the same
      ring before. */
  lemma MoveShape(rings: map<RingId, seq<nat>>, n: nat, from: RingId, p: nat, to: RingId)
    requires Placed(n, rings) && from in rings && p < |rings[from]| && to in rings
    ensures var x, M := rings[from][p], Move(rings, from, p, to);
      && (forall r, j | r in M && 0 <= j < |M[r]| ::
            if M[r][j] == x then r == to && j == |M[r]| - 1 else r in rings && M[r][j] in rings[r])
      && (forall r, y | r in rings && y in rings[r] && y != x :: y in M[r])
      && |M[to]| > 0 && M[to][|M[to]| - 1] == x
  {
    var x, M := rings[from][p], Move(rings, from, p, to);
    var s, t := rings[from], rings[from][..p] + rings[from][p + 1..];
    assert forall j | 0 <= j < |t| :: t[j] == s[if j < p then j else j + 1];
    forall r, y | r in rings && y in rings[r] && y != x ensures y in M[r] {
      var j :| 0 <= j < |rings[r]| && rings[r][j] == y;
      if r == from {
        assert t[if j < p then j else j - 1] == y;
      }
    }
  }

  lemma MoveUnique(rings: map<RingId, seq<nat>>, n: nat, from: RingId, p: nat, to: RingId)
    requires Placed(n, rings) && from in rings && p < |rings[from]| && to in rings
    ensures var M := Move(rings, from, p, to);
      forall q, i, r, j ::
        q in M && r in M && 0 <= i < |M[q]| && 0 <= j < |M[r]| && M[q][i] == M[r][j] ==> q == r && i == j
  {
    var x, M := rings[from][p], Move(rings, from, p, to);
    MoveShape(rings, n, from, p, to);
    var t := rings[from][..p] + rings[from][p + 1..];
    assert forall j | 0 <= j < |t| :: t[j] == rings[from][if j < p then j else j + 1];
    forall q, i, r, j | q in M && r in M && 0 <= i < |M[q]| && 0 <= j < |M[r]| && M[q][i] == M[r][j]
      ensures q == r && i == j
    {
      if M[q][i] != x {
        var i' := if q == from && i >= p then i + 1 else i;
        var j' := if r == from && j >= p then j + 1 else j;
        assert rings[q][i'] == M[q][i];
        assert rings[r][j'] == M[r][j];
      }
    }
  }

  lemma MovePlaced(rings: map<RingId, seq<nat>>, n: nat, from: RingId, p: nat, to: RingId)
    requires Placed(n, rings) && from in rings && p < |rings[from]| && to in rings
    ensures Placed(n, Move(rings, from, p, to))
  {
    var x, M := rings[from][p], Move(rings, from, p, to);
    MoveShape(rings, n, from, p, to);
    MoveUnique(rings, n, from, p, to);
    forall d: nat | d < n ensures OnSome(M, d) {
      assert OnSome(rings, d);
      var r :| r in rings && d in rings[r];
      assert if d == x then d in M[to] else d in M[r];
    }
  }

  /** Moving a descriptor to a ring it fits keeps every descriptor on a ring it fits. */
  lemma MoveSorted(b: Blocks, from: RingId, p: nat, to: RingId, d: Desc)
    requires Inv(b) && from in b.rings && p < |b.rings[from]| && to in b.rings && Fits(to, d)
    requires var e := b.descs[b.rings[from][p]]; d.start == e.start && d.end == e.end
    ensures Inv(Blocks(b.descs[b.rings[from][p] := d], Move(b.rings, from, p, to)))
  {
    MovePlaced(b.rings, |b.descs|, from, p, to);
    MoveShape(b.rings, |b.descs|, from, p, to);
  }

  /** The same when the descriptor stays where it is. */
  lemma StaySorted(b: Blocks, r: RingId, p: nat, d: Desc)
    requires Inv(b) && r in b.rings && p < |b.rings[r]| && Fits(r, d)
    requires var e := b.descs[b.rings[r][p]]; d.start == e.start && d.end == e.end
    ensures Inv(b.(descs := b.descs[b.rings[r][p] := d]))
  {
  }

  // ---------- Laws: the live set ----------

  /** Live blocks lie inside one descriptor, at a multiple of their size from its start, and do not
      overlap. */
  lemma LiveBlocksDisjoint(b: Blocks, x: Block, y: Block)
    requires Inv(b) && x in Live(b) && y in Live(b) && x != y
    ensures !Overlap(x, y)
  {
    var d, i := LiveSlot(b, x);
    var e, j := LiveSlot(b, y);
    var k, l := ClassIn(b.descs[d].flag), ClassIn(b.descs[e].flag);
    SlotTiling(k, i, j);
    SlotTiling(l, j, i);
  }

  /** The descriptor and bit behind a live block. */
  lemma LiveSlot(b: Blocks, x: Block) returns (d: nat, i: nat)
    requires Inv(b) && x in Live(b)
    ensures LiveAt(b.descs, d, i) && x == BlockAt(b.descs[d], i) && i < BitsOf(ClassIn(b.descs[d].flag))
    ensures b.descs[d].start <= x.addr && x.addr + x.size - 1 <= b.descs[d].end
  {
    d, i :| d < |b.descs| && i < 32 && LiveAt(b.descs, d, i) && x == BlockAt(b.descs[d], i);
    LiveAtBounds(b, d, i);
  }

  lemma LiveAtBounds(b: Blocks, d: nat, i: nat)
    requires Inv(b) && LiveAt(b.descs, d, i)
    ensures i < BitsOf(ClassIn(b.descs[d].flag))
    ensures var x := BlockAt(b.descs[d], i);
      b.descs[d].start <= x.addr && x.addr + x.size - 1 <= b.descs[d].end
  {
    hide And, Or, Pow2, Placed;
    var r, p := RingOf(b, d);
    if i >= BitsOf(r.slab) {
      NoHighBit(b.descs[d].map_count, BitsOf(r.slab), i);
    }
    SlotTiling(r.slab, i, i);
    assert Whole(b.descs[d]);
  }

  lemma FirstFits(b: Blocks, r: RingId)
    requires Inv(b) && r in b.rings && b.rings[r] != []
    ensures Fits(r, b.descs[b.rings[r][0]])
  {
  }

  /** Only the last class has descriptors on its empty list, and it has none on its partial list. */
  lemma EmptyOnlyInLastClass(b: Blocks, k: nat)
    requires Inv(b) && k < CLASSES
    ensures k < 5 ==> b.rings[RingId(k, Empty)] == []
    ensures b.rings[RingId(5, Partial)] == []
  {
    if k < 5 && b.rings[RingId(k, Empty)] != [] {
      FirstFits(b, RingId(k, Empty));
    }
    if b.rings[RingId(5, Partial)] != [] {
      FirstFits(b, RingId(5, Partial));
    }
  }

  lemma RingOf(b: Blocks, d: nat) returns (r: RingId, p: nat)
    requires Inv(b) && d < |b.descs|
    ensures r in b.rings && p < |b.rings[r]| && b.rings[r][p] == d
    ensures Fits(r, b.descs[d]) && ClassIn(b.descs[d].flag) == r.slab
  {
    assert OnSome(b.rings, d);
    r :| r in b.rings && d in b.rings[r];
    p :| p < |b.rings[r]| && b.rings[r][p] == d;
  }

  /** No block of a descriptor is live. */
  ghost predicate Blank(d: Desc) {
    forall i: nat | i < 32 :: !Bit(d.map_count, i)
  }

  /** A descriptor is on the empty list of the last class exactly when none of its blocks is live. */
  lemma BlankIffOnEmpty(b: Blocks, d: nat)
    requires Inv(b) && d < |b.descs|
    ensures Blank(b.descs[d]) <==> d in b.rings[RingId(5, Empty)]
  {
    var r, p := RingOf(b, d);
    if Blank(b.descs[d]) {
      NoBitMeansZero(b.descs[d].map_count);
    }
    if d in b.rings[RingId(5, Empty)] {
      forall i: nat | i < 32 ensures !Bit(b.descs[d].map_count, i) {
        BitOfZero(i);
      }
    }
  }

  /** Setting bit `i` of one descriptor adds one block. */
  lemma LiveAfterSet(descs: seq<Desc>, x: nat, d': Desc, i: nat)
    requires x < |descs| && i < 32
    requires var d := descs[x];
      && d'.start == d.start && d'.map_count == SetBit(d.map_count, i)
      && (d.map_count == 0 || ClassIn(d'.flag) == ClassIn(d.flag))
    ensures LiveOf(descs[x := d']) == LiveOf(descs) + {BlockAt(d', i)}
  {
    var d, descs' := descs[x], descs[x := d'];
    forall j: nat | j < 32
      ensures Bit(d'.map_count, j) == (Bit(d.map_count, j) || j == i)
      ensures Bit(d.map_count, j) ==> BlockAt(d', j) == BlockAt(d, j)
    {
      BitAfterSet(d.map_count, i, j);
      BitOfZero(j);
    }
    forall z | z in LiveOf(descs) + {BlockAt(d', i)} ensures z in LiveOf(descs') {
      if z in LiveOf(descs) {
        var e: nat, j: nat :| e < |descs| && j < 32 && LiveAt(descs, e, j) && z == BlockAt(descs[e], j);
        assert LiveAt(descs', e, j) && z == BlockAt(descs'[e], j);
      } else {
        assert LiveAt(descs', x, i);
      }
    }
    forall z | z in LiveOf(descs') ensures z in LiveOf(descs) + {BlockAt(d', i)} {
      var e: nat, j: nat :| e < |descs'| && j < 32 && LiveAt(descs', e, j) && z == BlockAt(descs'[e], j);
      if !(e == x && j == i) {
        assert LiveAt(descs, e, j) && z == BlockAt(descs[e], j);
      }
    }
  }

  /** Clearing bit `i` of one descriptor removes one block, and no other slot denotes that block. */
  lemma LiveAfterClear(descs: seq<Desc>, x: nat, d': Desc, i: nat)
    requires x < |descs| && i < 32 && Bit(descs[x].map_count, i)
    requires var d := descs[x];
      && d'.start == d.start && d'.map_count == ClearBit(d.map_count, i)
      && (d'.map_count == 0 || ClassIn(d'.flag) == ClassIn(d.flag))
    requires forall e: nat, j: nat ::
      LiveAt(descs, e, j) && BlockAt(descs[e], j) == BlockAt(descs[x], i) ==> e == x && j == i
    ensures LiveOf(descs[x := d']) == LiveOf(descs) - {BlockAt(descs[x], i)}
  {
    var d, descs' := descs[x], descs[x := d'];
    forall j: nat | j < 32
      ensures Bit(d'.map_count, j) == (Bit(d.map_count, j) && j != i)
      ensures Bit(d'.map_count, j) ==> BlockAt(d', j) == BlockAt(d, j)
    {
      BitAfterClear(d.map_count, i, j);
      BitOfZero(j);
    }
    forall z | z in LiveOf(descs) && z != BlockAt(d, i) ensures z in LiveOf(descs') {
      var e: nat, j: nat :| e < |descs| && j < 32 && LiveAt(descs, e, j) && z == BlockAt(descs[e], j);
      assert LiveAt(descs', e, j) && z == BlockAt(descs'[e], j);
    }
    forall z | z in LiveOf(descs') ensures z in LiveOf(descs) && z != BlockAt(d, i) {
      var e: nat, j: nat :| e < |descs'| && j < 32 && LiveAt(descs', e, j) && z == BlockAt(descs'[e], j);
      assert LiveAt(descs, e, j) && z == BlockAt(descs[e], j);
    }
  }

  // ---------- Main results: allocation ----------

  /** The descriptor an allocation of class `k` picks has a free block, and is blank or of class `k`. */
  lemma AllocPick(b: Blocks, k: nat)
    requires Inv(b) && k < CLASSES && b.rings[Source(b.rings, k)] != []
    ensures var r := Source(b.rings, k);
      var d := b.descs[b.rings[r][0]];
      && d.start + FreeBit(b, k, r) * SizeOf(k) > 0 && FreeBit(b, k, r) < BitsOf(k) && !Bit(d.map_count, FreeBit(b, k, r))
      && d.map_count < Pow2(BitsOf(k)) && (d.map_count == 0 || (ClassIn(d.flag) == k && k < 5))
  {
    var r := Source(b.rings, k);
    var d := b.descs[b.rings[r][0]];
    assert Fits(r, d) && Whole(d);
    MaskBits(k);
    if FreeBit(b, k, r) == BitsOf(k) {
      NoClearBit(d.map_count, BitsOf(k));
      assert false;
    }
  }

  lemma AllocAtKeepsInv(b: Blocks, k: nat, r: RingId, i: nat)
    requires Inv(b) && k < CLASSES && r in b.rings && b.rings[r] != [] && i < BitsOf(k)
    requires var m := b.descs[b.rings[r][0]].map_count; m < Pow2(BitsOf(k)) && (k == 5 ==> m == 0)
    ensures Inv(AllocAt(b, k, r, i))
  {
    var e := b.descs[b.rings[r][0]];
    var d := Take(e, k, i);
    ClassReadBack(e.flag, k);
    SetBitBelow(e.map_count, i, BitsOf(k));
    if k == 5 {
      assert SetBit(0, 0) == 1;
    }
    MoveSorted(b, r, 0, RingId(k, if d.map_count == MaskOf(k) then Full else Partial), d);
  }

  /** Allocation keeps the invariant. */
  lemma AllocKeepsInv(b: Blocks, size: int)
    requires Inv(b)
    ensures Inv(Alloc(b, size).0)
  {
    var k := ClassOf(size);
    if k >= 0 && b.rings[Source(b.rings, k)] != [] {
      AllocPick(b, k);
      AllocAtKeepsInv(b, k, Source(b.rings, k), FreeBit(b, k, Source(b.rings, k)));
    }
  }

  /** No block of class `k` is to be had. */
  ghost predicate Exhausted(b: Blocks, k: nat)
    requires Placed(|b.descs|, b.rings) && k < CLASSES
  {
    b.rings[RingId(k, Partial)] == [] && b.rings[RingId(5, Empty)] == []
  }

  /** Allocation fails exactly when the size is not one of the six, or neither a partly used
      descriptor of that class nor an empty descriptor is left. */
  lemma AllocNullIff(b: Blocks, size: int)
    requires Inv(b)
    ensures Alloc(b, size).1 == 0 <==> (ClassOf(size) < 0 || Exhausted(b, ClassOf(size)))
    ensures Alloc(b, size).1 == 0 ==> Alloc(b, size).0 == b
    ensures Alloc(b, size).1 >= 0
  {
    var k := ClassOf(size);
    if k >= 0 {
      var r := Source(b.rings, k);
      if b.rings[r] != [] {
        AllocPick(b, k);
        assert !Exhausted(b, k);
      } else {
        assert Exhausted(b, k);
      }
    }
  }

  lemma AllocAtAdds(b: Blocks, k: nat, r: RingId, i: nat)
    requires Inv(b) && k < CLASSES && r in b.rings && b.rings[r] != [] && i < BitsOf(k)
    requires var d := b.descs[b.rings[r][0]]; d.map_count == 0 || ClassIn(d.flag) == k
    ensures Live(AllocAt(b, k, r, i)) == Live(b) + {Slot(b.descs[b.rings[r][0]].start, k, i)}
  {
    var x := b.rings[r][0];
    var d := Take(b.descs[x], k, i);
    ClassReadBack(b.descs[x].flag, k);
    LiveAfterSet(b.descs, x, d, i);
    assert BlockAt(d, i) == Slot(b.descs[x].start, k, i);
  }

  /** A successful allocation adds exactly one block to the live set: one of the requested size that
      was not live, at a multiple of the size inside one descriptor. */
  lemma AllocAddsOne(b: Blocks, size: int) returns (x: nat, i: nat)
    requires Inv(b) && Alloc(b, size).1 != 0
    ensures Live(Alloc(b, size).0) == Live(b) + {Block(Alloc(b, size).1, size)}
    ensures Block(Alloc(b, size).1, size) !in Live(b)
    ensures x < |b.descs| && Alloc(b, size).1 == b.descs[x].start + i * size && Alloc(b, size).1 % size == 0
    ensures b.descs[x].start <= Alloc(b, size).1 && Alloc(b, size).1 + size - 1 <= b.descs[x].end
  {
    hide AllocAt, Geometry, Sorted, LowestClear, And, Or, Bit, LiveOf, Pow2, ClassIn;
    var k := ClassOf(size);
    var r := Source(b.rings, k);
    AllocPick(b, k);
    x, i := b.rings[r][0], FreeBit(b, k, r);
    AllocAtAdds(b, k, r, i);
    NotLiveBefore(b, x, k, i);
    SlotTiling(k, i, i);
    WholeDesc(b, x);
    SlotAligned(b.descs[x].start, k, i);
  }

  /** What the caller of a successful allocation gets. */
  lemma NewBlock(b: Blocks, size: int) returns (z: Block)
    requires Inv(b) && Alloc(b, size).1 != 0
    ensures z == Block(Alloc(b, size).1, size) && z !in Live(b)
    ensures Inv(Alloc(b, size).0) && Live(Alloc(b, size).0) == Live(b) + {z}
    ensures 0 < z.addr && z.addr % size == 0 && z.addr + size - 1 + DESC_SIZE < TWO_32
    ensures forall y | y in Live(b) :: !Overlap(y, z)
  {
    hide Alloc, Placed, Sorted, Geometry, LiveOf;
    AllocKeepsInv(b, size);
    var x, i := AllocAddsOne(b, size);
    WholeDesc(b, x);
    z := Block(Alloc(b, size).1, size);
    forall y | y in Live(b) ensures !Overlap(y, z) {
      LiveBlocksDisjoint(Alloc(b, size).0, y, z);
    }
  }

  /** A block whose bit is clear is not live, if its descriptor is blank or already cut this way. */
  lemma NotLiveBefore(b: Blocks, x: nat, k: nat, i: nat)
    requires Inv(b) && x < |b.descs| && k < CLASSES && i < BitsOf(k)
    requires !Bit(b.descs[x].map_count, i) && (b.descs[x].map_count == 0 || ClassIn(b.descs[x].flag) == k)
    ensures Slot(b.descs[x].start, k, i) !in Live(b)
  {
    SlotTiling(k, i, i);
    forall e: nat, j: nat | LiveAt(b.descs, e, j) ensures BlockAt(b.descs[e], j) != Slot(b.descs[x].start, k, i) {
      LiveAtBounds(b, e, j);
      BitOfZero(j);
      SlotTiling(k, i, j);
      SlotTiling(k, j, i);
      assert Whole(b.descs[e]) && Whole(b.descs[x]);
    }
  }

  // ---------- Main results: free ----------

  ghost predicate Covers(z: Block, addr: int) {
    z.addr <= addr < z.addr + z.size
  }

  ghost predicate LastByte(b: Blocks, addr: int) {
    exists d :: 0 <= d < |b.descs| && b.descs[d].end == addr
  }

  ghost predicate Spans(d: Desc, addr: int) {
    d.start <= addr < d.end
  }

  /** At most one descriptor spans an address. */
  lemma SpanUnique(b: Blocks, d: nat, e: nat, addr: int)
    requires Inv(b) && d < |b.descs| && e < |b.descs| && Spans(b.descs[d], addr)
    requires b.descs[e].start <= addr <= b.descs[e].end
    ensures d == e
  {
  }

  lemma SlotUnique(k: nat, off: nat, i: nat)
    requires k < CLASSES && i * SizeOf(k) <= off < i * SizeOf(k) + SizeOf(k)
    ensures SlotAt(off, k) == i
  {
    var j := SlotAt(off, k);
    SlotTiling(k, i, j);
    SlotTiling(k, j, i);
  }

  /** What a search that found something has found: the descriptor spanning `addr`, of class `k`,
      with the bit of the block that covers `addr`. */
  lemma FoundForFree(b: Blocks, k: nat, addr: int)
    requires Inv(b) && k < CLASSES && var (r, p) := FindForFree(b, k, addr); p < |b.rings[r]|
    ensures var (r, p) := FindForFree(b, k, addr);
      var x := b.rings[r][p];
      && Spans(b.descs[x], addr) && Fits(r, b.descs[x]) && ClassIn(b.descs[x].flag) == k
      && var i := SlotAt(addr - b.descs[x].start, k);
         i < BitsOf(k) && Covers(BlockAt(b.descs[x], i), addr)
  {
    var (r, p) := FindForFree(b, k, addr);
    var x := b.rings[r][p];
    assert Whole(b.descs[x]);
    SlotAtBounds(addr - b.descs[x].start, k);
  }

  /** A live block of class `k` that covers `addr` is found, unless `addr` is its descriptor's last byte. */
  lemma LiveIsFound(b: Blocks, d: nat, i: nat, addr: int)
    requires Inv(b) && LiveAt(b.descs, d, i) && Covers(BlockAt(b.descs[d], i), addr) && addr != b.descs[d].end
    ensures var k := ClassIn(b.descs[d].flag);
      var (r, p) := FindForFree(b, k, addr);
      p < |b.rings[r]| && b.rings[r][p] == d && SlotAt(addr - b.descs[d].start, k) == i
  {
    var k := ClassIn(b.descs[d].flag);
    LiveAtBounds(b, d, i);
    SlotUnique(k, addr - b.descs[d].start, i);
    var r0, p0 := RingOf(b, d);
    BitOfZero(i);
    assert r0.kind != Empty;
    var (r, p) := FindForFree(b, k, addr);
    assert Spans(b.descs[b.rings[r0][p0]], addr);
    assert p < |b.rings[r]|;
    SpanUnique(b, d, b.rings[r][p], addr);
  }

  lemma ClassOfSize(k: nat)
    requires k < CLASSES
    ensures ClassOf(SizeOf(k)) == k
  {
  }

  lemma FreeSuffices(b: Blocks, addr: int, z: Block)
    requires Inv(b) && z in Live(b) && Covers(z, addr) && !LastByte(b, addr)
    ensures FreeAccepts(b, addr, z.size)
  {
    var d, i := LiveSlot(b, z);
    var k := ClassIn(b.descs[d].flag);
    assert z.size == SizeOf(k);
    ClassOfSize(k);
    assert addr != b.descs[d].end && addr != 0 by {
      assert Whole(b.descs[d]);
    }
    LiveIsFound(b, d, i, addr);
  }

  lemma FreeNeeds(b: Blocks, addr: int, size: int) returns (z: Block, x: nat, i: nat)
    requires Inv(b) && Free(b, addr, size).1
    ensures LiveAt(b.descs, x, i) && z == BlockAt(b.descs[x], i)
    ensures z in Live(b) && z.size == size && Covers(z, addr) && !LastByte(b, addr)
    ensures var (r, p) := FindForFree(b, ClassOf(size), addr);
      && p < |b.rings[r]| && x == b.rings[r][p] && i == SlotAt(addr - b.descs[x].start, r.slab)
      && Fits(r, b.descs[x])
  {
    hide And, Or;
    var k := ClassOf(size);
    FoundForFree(b, k, addr);
    var (r, p) := FindForFree(b, k, addr);
    x := b.rings[r][p];
    i := SlotAt(addr - b.descs[x].start, k);
    assert LiveAt(b.descs, x, i);
    z := BlockAt(b.descs[x], i);
    forall d | 0 <= d < |b.descs| ensures b.descs[d].end != addr {
      assert Whole(b.descs[d]);
    }
  }

  /** Freeing succeeds exactly when the address lies in a live block of that size and is not the last
      byte of a descriptor; a free that fails changes nothing. */
  lemma FreeIff(b: Blocks, addr: int, size: int)
    requires Inv(b)
    ensures Free(b, addr, size).1 <==>
      (!LastByte(b, addr) && exists z :: z in Live(b) && z.size == size && Covers(z, addr))
    ensures !Free(b, addr, size).1 ==> Free(b, addr, size).0 == b
  {
    if z :| z in Live(b) && z.size == size && Covers(z, addr) && !LastByte(b, addr) {
      FreeSuffices(b, addr, z);
    }
    if Free(b, addr, size).1 {
      var z, x, i := FreeNeeds(b, addr, size);
    }
  }

  lemma FreeAtKeepsInv(b: Blocks, r: RingId, p: nat, i: nat)
    requires Inv(b) && r in b.rings && p < |b.rings[r]| && r.kind != Empty && i < BitsOf(r.slab)
    ensures Inv(FreeAt(b, r, p, i))
  {
    var d := b.descs[b.rings[r][p]];
    assert Fits(r, d);
    if Drop(d.map_count, i) == 0 {
      ClassReadBack(d.flag, 5);
      MoveSorted(b, r, p, RingId(5, Empty), d.(map_count := 0, flag := WithClass(d.flag, 5)));
    } else {
      DropFits(r, d, i);
      StaySorted(b, r, p, d.(map_count := Drop(d.map_count, i)));
    }
  }

  lemma DropFits(r: RingId, d: Desc, i: nat)
    requires r.slab < CLASSES && r.kind != Empty && i < BitsOf(r.slab)
    requires Fits(r, d) && Drop(d.map_count, i) != 0
    ensures Fits(r, d.(map_count := Drop(d.map_count, i)))
  {
    Pow2Mono(i, 32);
    Widths();
    AndBelow(d.map_count, Not32(Pow2(i)));
    ClearedNotMask(d.map_count, i, r.slab);
  }

  /** Freeing keeps the invariant. */
  lemma FreeKeepsInv(b: Blocks, addr: int, size: int)
    requires Inv(b)
    ensures Inv(Free(b, addr, size).0)
  {
    hide FreeAt, Geometry, Sorted, FindIn, BlockAt, And, Or, LiveOf;
    if Free(b, addr, size).1 {
      var z, x, i := FreeNeeds(b, addr, size);
      var (r, p) := FindForFree(b, ClassOf(size), addr);
      FoundForFree(b, ClassOf(size), addr);
      FreeAtKeepsInv(b, r, p, i);
    }
  }

  lemma ClearedNotMask(m: u32, i: nat, k: nat)
    requires k < CLASSES && i < BitsOf(k)
    ensures Drop(m, i) != MaskOf(k)
  {
    BitAfterClear(m, i, i);
    MaskBits(k);
    BitOfZero(i);
    BitOfComplement(0, BitsOf(k), i);
  }

  /** Only one slot denotes a live block. */
  lemma SlotDenotes(b: Blocks, x: nat, i: nat, e: nat, j: nat)
    requires Inv(b) && LiveAt(b.descs, x, i) && LiveAt(b.descs, e, j)
    requires BlockAt(b.descs[e], j) == BlockAt(b.descs[x], i)
    ensures e == x && j == i
  {
    LiveAtBounds(b, x, i);
    LiveAtBounds(b, e, j);
    SpanUnique(b, x, e, BlockAt(b.descs[x], i).addr);
    SlotUnique(ClassIn(b.descs[x].flag), BlockAt(b.descs[x], i).addr - b.descs[x].start, i);
    SlotUnique(ClassIn(b.descs[x].flag), BlockAt(b.descs[x], i).addr - b.descs[x].start, j);
  }

  lemma FreeAtRemoves(b: Blocks, r: RingId, p: nat, i: nat)
    requires Inv(b) && r in b.rings && p < |b.rings[r]| && LiveAt(b.descs, b.rings[r][p], i)
    ensures Live(FreeAt(b, r, p, i)) == Live(b) - {BlockAt(b.descs[b.rings[r][p]], i)}
  {
    var x := b.rings[r][p];
    forall e: nat, j: nat | LiveAt(b.descs, e, j) && BlockAt(b.descs[e], j) == BlockAt(b.descs[x], i)
      ensures e == x && j == i
    {
      SlotDenotes(b, x, i, e, j);
    }
    LiveAfterClear(b.descs, x, FreeAt(b, r, p, i).descs[x], i);
  }

  /** A successful free removes exactly the block that covers the address. */
  lemma FreeRemovesOne(b: Blocks, addr: int, size: int) returns (z: Block)
    requires Inv(b) && Free(b, addr, size).1
    ensures z in Live(b) && z.size == size && Covers(z, addr) && !LastByte(b, addr)
    ensures Live(Free(b, addr, size).0) == Live(b) - {z}
  {
    var x, i;
    z, x, i := FreeNeeds(b, addr, size);
    var (r, p) := FindForFree(b, ClassOf(size), addr);
    FreeAtRemoves(b, r, p, i);
  }

  // ---------- Size classes ----------

  /** A free undoes the allocation before it: it succeeds and leaves the live blocks of the beginning. */
  lemma AllocThenFree(b: Blocks, size: int)
    requires Inv(b) && Alloc(b, size).1 != 0
    ensures Inv(Alloc(b, size).0)
    ensures var (b', a) := Alloc(b, size);
      Free(b', a, size).1 && Live(Free(b', a, size).0) == Live(b)
  {
    hide Geometry, Placed, Sorted, Alloc, Free, LiveOf, FreeAccepts;
    var (b', a) := Alloc(b, size);
    var z := NewBlock(b, size);
    AllocNotLastByte(b, size);
    assert Covers(z, a) && z in Live(b');
    FreeIff(b', a, size);
    var y := FreeRemovesOne(b', a, size);
    if y != z {
      LiveBlocksDisjoint(b', y, z);
    }
  }

  lemma AllocNotLastByte(b: Blocks, size: int)
    requires Inv(b) && Alloc(b, size).1 != 0
    ensures size > 0 && !LastByte(Alloc(b, size).0, Alloc(b, size).1)
  {
    hide Placed, Sorted, LiveOf;
    var x, i := AllocAddsOne(b, size);
    AllocSameEnds(b, size);
  }

  lemma AllocSameEnds(b: Blocks, size: int)
    requires Inv(b)
    ensures var b' := Alloc(b, size).0;
      && |b'.descs| == |b.descs|
      && forall d | 0 <= d < |b.descs| ::
           b'.descs[d].start == b.descs[d].start && b'.descs[d].end == b.descs[d].end
  {
    hide Geometry, Sorted, LiveOf;
  }

  /** A descriptor is cut into another block size only while none of its blocks is live. */
  lemma ClassChangesOnlyWhenBlank(b: Blocks, size: int, addr: int, x: nat)
    requires Inv(b) && x < |b.descs|
    ensures var b' := Alloc(b, size).0;
      ClassIn(b'.descs[x].flag) != ClassIn(b.descs[x].flag) ==> Blank(b.descs[x])
    ensures var b' := Free(b, addr, size).0;
      ClassIn(b'.descs[x].flag) != ClassIn(b.descs[x].flag) ==> Blank(b'.descs[x])
  {
    forall i: nat | i < 32 ensures !Bit(0, i) {
      BitOfZero(i);
    }
    var k := ClassOf(size);
    if k >= 0 && b.rings[Source(b.rings, k)] != [] {
      AllocPick(b, k);
      ClassReadBack(b.descs[b.rings[Source(b.rings, k)][0]].flag, k);
    }
  }

  /** The mask test of the program, `(map & mask) == 0`, after bit `i` was cleared. */
  lemma EmptyTest(b: Blocks, r: RingId, p: nat, i: nat)
    requires Inv(b) && r in b.rings && p < |b.rings[r]| && i < BitsOf(r.slab)
    ensures var m := Drop(b.descs[b.rings[r][p]].map_count, i); And32(m, MaskOf(r.slab)) == m
  {
    var d := b.descs[b.rings[r][p]];
    assert Fits(r, d);
    MaskBits(r.slab);
    Pow2Mono(i, 32);
    Widths();
    AndBelow(d.map_count, Not32(Pow2(i)));
    AndLowBits(Drop(d.map_count, i), BitsOf(r.slab));
  }

  /** The mask test of the program, `(map & mask) == mask`, after bit `i` was set. */
  lemma FullTest(m: u32, k: nat, i: nat)
    requires k < CLASSES && m < Pow2(BitsOf(k)) && i < BitsOf(k)
    ensures And32(Raise(m, i), MaskOf(k)) == Raise(m, i)
  {
    MaskBits(k);
    SetBitBelow(m, i, BitsOf(k));
    AndLowBits(SetBit(m, i), BitsOf(k));
  }

  lemma WholeDesc(b: Blocks, x: nat)
    requires Inv(b) && x < |b.descs|
    ensures Whole(b.descs[x])
  {
  }

  lemma SlotInside(b: Blocks, x: nat, k: nat, i: nat)
    requires Inv(b) && x < |b.descs| && k < CLASSES && i < BitsOf(k)
    ensures b.descs[x].start <= b.descs[x].start + SizeOf(k) * i < b.descs[x].end
    ensures SizeOf(k) * i == i * SizeOf(k)
  {
    SlotTiling(k, i, i);
    WholeDesc(b, x);
    SlotAligned(b.descs[x].start, k, i);
  }

  // ---------- Start-up ----------

  /** An entry of the physical address map; only SDRAM entries are cut into descriptors. */
  datatype Space = Space(sdram: bool, start: int, end: int)

  const NEW_FLAG: u32 := 0x68
  const KERNEL_FLAG: u32 := 0x18

  /** init_core_mem_desc: one descriptor every 4 MB, the last one possibly shorter. */
  function Cut(start: int, end: int): (s: seq<Desc>)
    decreases end - start
  {
    if start >= end then []
    else
      [Desc(start, if start + DESC_SIZE < end then start + DESC_SIZE - 1 else end, 0, NEW_FLAG)]
      + Cut(start + DESC_SIZE, end)
  }

  function CutAll(spaces: seq<Space>): seq<Desc> {
    if spaces == [] then []
    else (if spaces[0].sdram then Cut(spaces[0].start, spaces[0].end) else []) + CutAll(spaces[1..])
  }

  /** Where the loop of init_core_mem_desc is after `k` turns, in 32 bits. */
  function CutAt(start: u32, k: nat): u32 {
    Wrap32(start + k * DESC_SIZE)
  }

  /** The region ends no later than the last of its 4 MB steps below 2^32. */
  predicate CutEnds(start: int, end: int) {
    0 <= start < TWO_32 && 0 <= end < TWO_32 && (start < end ==> end <= TWO_32 - DESC_SIZE + start % DESC_SIZE)
  }

  /** The loop ends exactly for such regions; for any other the counter wraps below the end for ever. */
  lemma CutEndsIff(start: u32, end: u32)
    ensures (exists k: nat :: CutAt(start, k) >= end) <==> CutEnds(start, end)
  {
    var last := TWO_32 - DESC_SIZE + start % DESC_SIZE;
    if CutEnds(start, end) {
      var k := if start < end then (last - start) / DESC_SIZE else 0;
      assert start < end ==> start + k * DESC_SIZE == last;
      assert CutAt(start, k) >= end;
    } else {
      forall k: nat
        ensures CutAt(start, k) < end
      {
        StepResidue(start, k);
      }
    }
  }

  lemma StepResidue(start: u32, k: nat)
    ensures CutAt(start, k) <= TWO_32 - DESC_SIZE + start % DESC_SIZE
  {
    var x := start + k * DESC_SIZE;
    var q := x / TWO_32;
    var y := x - q * TWO_32;
    SameResidue(start, k - q * (TWO_32 / DESC_SIZE));
    assert y == Wrap32(x) == start + (k - q * (TWO_32 / DESC_SIZE)) * DESC_SIZE;
    assert y == y / DESC_SIZE * DESC_SIZE + start % DESC_SIZE;
  }

  lemma SameResidue(start: int, m: int)
    ensures (start + m * DESC_SIZE) % DESC_SIZE == start % DESC_SIZE
  {
  }

  /** No turn of a loop that ends wraps. */
  lemma CutStaysBelow(start: int, end: int)
    requires CutEnds(start, end) && start < end
    ensures start + DESC_SIZE < TWO_32 && CutEnds(start + DESC_SIZE, end)
  {
    SameResidue(start, 1);
    var last := TWO_32 - DESC_SIZE + start % DESC_SIZE;
    assert start / DESC_SIZE < last / DESC_SIZE || start >= last;
  }

  lemma SoundSpacesEnd(spaces: seq<Space>)
    requires Sound(spaces)
    ensures AllCutsEnd(spaces)
  {
  }

  predicate AllCutsEnd(spaces: seq<Space>) {
    forall s | s in spaces && s.sdram :: CutEnds(s.start, s.end)
  }

  lemma CutStep(done: seq<Desc>, start: int, end: int)
    requires start < end
    ensures var d := Desc(start, if start + DESC_SIZE < end then start + DESC_SIZE - 1 else end, 0, NEW_FLAG);
      done + Cut(start, end) == (done + [d]) + Cut(start + DESC_SIZE, end)
  {
  }

  lemma CutDone(start: int, end: int)
    requires start >= end
    ensures Cut(start, end) == []
  {
  }

  lemma CutAllStep(done: seq<Desc>, spaces: seq<Space>, i: nat)
    requires i < |spaces|
    ensures done + CutAll(spaces[i..])
         == done + (if spaces[i].sdram then Cut(spaces[i].start, spaces[i].end) else []) + CutAll(spaces[i + 1..])
  {
    assert spaces[i..][0] == spaces[i] && spaces[i..][1..] == spaces[i + 1..];
    assert CutAll(spaces[i..])
        == (if spaces[i].sdram then Cut(spaces[i].start, spaces[i].end) else []) + CutAll(spaces[i + 1..]);
  }

  lemma CutAllEnds(spaces: seq<Space>)
    ensures CutAll(spaces[0..]) == CutAll(spaces) && CutAll(spaces[|spaces|..]) == []
  {
    assert spaces[0..] == spaces && spaces[|spaces|..] == [];
  }

  /** A region of whole, aligned 4 MB pieces, away from both ends of the address space. */
  ghost predicate WholeSpace(s: Space) {
    0 < s.start < s.end && s.start % DESC_SIZE == 0 && (s.end + 1 - s.start) % DESC_SIZE == 0 && s.end + DESC_SIZE < TWO_32
  }

  ghost predicate Sound(spaces: seq<Space>) {
    && (forall s | s in spaces && s.sdram :: WholeSpace(s))
    && (forall i, j | 0 <= i < j < |spaces| && spaces[i].sdram && spaces[j].sdram ::
          spaces[i].end < spaces[j].start || spaces[j].end < spaces[i].start)
  }

  /** The state after start-up: descriptor 0 is cut into 128 KB blocks, the first of which is taken
      for the kernel; all others wait on the empty list of the last class. */
  function Start(descs: seq<Desc>): Blocks
    requires descs != []
  {
    Blocks(descs[0 := descs[0].(map_count := 1, flag := KERNEL_FLAG)],
           NoRings()[RingId(5, Empty) := AllButFirst(|descs|)][RingId(0, Partial) := [0]])
  }

  /** 1, 2, .., n - 1. */
  function AllButFirst(n: nat): (s: seq<nat>)
    requires n > 0
    ensures |s| == n - 1 && forall i | 0 <= i < n - 1 :: s[i] == i + 1
  {
    seq(n - 1, i => i + 1)
  }

  function NoRings(): (m: map<RingId, seq<nat>>)
    ensures forall r :: r in m <==> r.slab < CLASSES
    ensures forall r | r in m :: m[r] == []
  {
    var ids := set k: nat, c: Kind | k < CLASSES :: RingId(k, c);
    map r | r in ids :: []
  }

  lemma {:induction false} CutIsWhole(start: int, n: nat)
    requires 0 < start && start + (n + 1) * DESC_SIZE <= TWO_32
    ensures var s := Cut(start, start + n * DESC_SIZE - 1);
      && |s| == n
      && forall i | 0 <= i < n ::
           s[i] == Desc(start + i * DESC_SIZE, start + i * DESC_SIZE + DESC_SIZE - 1, 0, NEW_FLAG)
    decreases n
  {
    if n > 0 {
      CutIsWhole(start + DESC_SIZE, n - 1);
      assert start + DESC_SIZE + (n - 1) * DESC_SIZE - 1 == start + n * DESC_SIZE - 1;
    }
  }

  ghost predicate Within(d: Desc, s: Space) {
    s.sdram && s.start <= d.start && d.end <= s.end
  }

  ghost predicate Inside(d: Desc, spaces: seq<Space>) {
    exists k :: 0 <= k < |spaces| && Within(d, spaces[k])
  }

  /** Whole, blank descriptors that do not overlap, as start-up makes them. */
  ghost predicate Uncut(ds: seq<Desc>) {
    && (forall i | 0 <= i < |ds| :: Whole(ds[i]) && ds[i].map_count == 0 && ds[i].flag == NEW_FLAG)
    && (forall i, j | 0 <= i < j < |ds| :: Apart(ds[i], ds[j]))
  }

  ghost predicate AllInside(ds: seq<Desc>, spaces: seq<Space>) {
    forall i | 0 <= i < |ds| :: Inside(ds[i], spaces)
  }

  lemma CutOfWholeSpace(s: Space)
    requires s.sdram && WholeSpace(s)
    ensures Uncut(Cut(s.start, s.end)) && AllInside(Cut(s.start, s.end), [s])
  {
    var n := (s.end + 1 - s.start) / DESC_SIZE;
    assert s.start + n * DESC_SIZE - 1 == s.end;
    CutIsWhole(s.start, n);
    var ds := Cut(s.start, s.end);
    forall i | 0 <= i < n ensures Whole(ds[i]) && Inside(ds[i], [s]) {
      assert i * DESC_SIZE <= (n - 1) * DESC_SIZE;
      assert ds[i].start % DESC_SIZE == 0;
      assert Within(ds[i], [s][0]);
    }
    forall i, j | 0 <= i < j < n ensures Apart(ds[i], ds[j]) {
      assert (i + 1) * DESC_SIZE <= j * DESC_SIZE;
    }
  }

  lemma InsideMore(ds: seq<Desc>, s: Space, rest: seq<Space>)
    requires AllInside(ds, rest)
    ensures AllInside(ds, [s] + rest)
  {
    forall i | 0 <= i < |ds| ensures Inside(ds[i], [s] + rest) {
      assert Inside(ds[i], rest);
      var k :| 0 <= k < |rest| && Within(ds[i], rest[k]);
      assert rest[k] == ([s] + rest)[k + 1];
    }
  }

  lemma OutsideApart(s: Space, rest: seq<Space>, d: Desc, e: Desc)
    requires Sound([s] + rest) && s.sdram && Inside(d, [s]) && Inside(e, rest)
    ensures Apart(d, e)
  {
    var k :| 0 <= k < |rest| && Within(e, rest[k]);
    assert rest[k] == ([s] + rest)[k + 1] && s == ([s] + rest)[0];
  }

  /** Every descriptor of a sound map is whole, blank and inside one of its SDRAM spaces, and no two
      overlap. */
  lemma {:induction false} CutAllSound(spaces: seq<Space>)
    requires Sound(spaces)
    ensures Uncut(CutAll(spaces)) && AllInside(CutAll(spaces), spaces)
  {
    if spaces != [] {
      var s, rest := spaces[0], spaces[1..];
      assert spaces == [s] + rest;
      CutAllSound(rest);
      var es := CutAll(rest);
      InsideMore(es, s, rest);
      if s.sdram {
        CutOfWholeSpace(s);
        var cs := Cut(s.start, s.end);
        assert AllInside(cs, spaces) by {
          assert forall i | 0 <= i < |cs| :: Inside(cs[i], [s]) ==> Within(cs[i], spaces[0]);
        }
        forall i, j | 0 <= i < |cs| && 0 <= j < |es| ensures Apart(cs[i], es[j]) {
          OutsideApart(s, rest, cs[i], es[j]);
        }
      }
    }
  }

  lemma StartPlaced(descs: seq<Desc>)
    requires descs != []
    ensures Placed(|descs|, Start(descs).rings)
  {
    var b := Start(descs);
    forall d: nat | d < |descs| ensures OnSome(b.rings, d) {
      var r := if d == 0 then RingId(0, Partial) else RingId(5, Empty);
      assert d == 0 || b.rings[r][d - 1] == d;
      assert r in b.rings && d in b.rings[r];
    }
  }

  lemma StartLive(descs: seq<Desc>)
    requires descs != [] && forall i | 0 <= i < |descs| :: descs[i].map_count == 0
    ensures Live(Start(descs)) == {Block(descs[0].start, SizeOf(0))}
  {
    hide And, Or;
    var b := Start(descs);
    StartFlags();
    assert LiveAt(b.descs, 0, 0) && BlockAt(b.descs[0], 0) == Block(descs[0].start, SizeOf(0));
    forall d: nat, i: nat | LiveAt(b.descs, d, i) ensures d == 0 && i == 0 {
      BitOfZero(i);
      BitOfPow2(0, i);
    }
  }

  lemma StartGeometry(ds: seq<Desc>)
    requires ds != [] && Uncut(ds)
    ensures Geometry(Start(ds))
  {
    var b := Start(ds);
    forall i | 0 <= i < |ds| ensures Whole(b.descs[i]) {
      assert Whole(ds[i]);
    }
    forall i, j | 0 <= i < j < |ds| ensures Apart(b.descs[i], b.descs[j]) {
      assert Apart(ds[i], ds[j]);
    }
  }

  lemma StartSorted(ds: seq<Desc>)
    requires ds != [] && Uncut(ds)
    ensures Geometry(Start(ds)) && Placed(|ds|, Start(ds).rings) && Sorted(Start(ds))
  {
    hide And, Or, OnSome, Geometry;
    StartPlaced(ds);
    StartGeometry(ds);
    StartFlags();
    var b := Start(ds);
    assert Fits(RingId(0, Partial), b.descs[0]);
    forall i | 1 <= i < |ds| ensures Fits(RingId(5, Empty), b.descs[i]) {
      assert b.descs[i] == ds[i] && ds[i].flag == NEW_FLAG && ds[i].map_count == 0;
    }
  }

  /** Start-up establishes the invariant, with the kernel's 128 KB as the only live block. */
  lemma StartInv(spaces: seq<Space>)
    requires Sound(spaces) && CutAll(spaces) != []
    ensures Inv(Start(CutAll(spaces)))
    ensures Live(Start(CutAll(spaces))) == {Block(CutAll(spaces)[0].start, SizeOf(0))}
  {
    hide Geometry, Placed, Sorted, LiveOf;
    CutAllSound(spaces);
    StartSorted(CutAll(spaces));
    StartLive(CutAll(spaces));
  }

  lemma StartFlags()
    ensures And(NEW_FLAG, 0xf0) == AcszOf(5) && And(KERNEL_FLAG, 0xf0) == AcszOf(0) && ClassIn(KERNEL_FLAG) == 0
    ensures Bit(1, 0) && Pow2(0) == 1 && 1 < Pow2(32)
  {
    hide And;
    NewFlagBits();
    KernelFlagBits();
    Widths();
  }

  lemma KernelFlagBits()
    ensures And(KERNEL_FLAG, 0xf0) == AcszOf(0)
  {
    assert And(0x1, 0xf) == 0x1;
    assert And(0x3, 0x1e) == 0x2;
    assert And(0x6, 0x3c) == 0x4;
    assert And(0xc, 0x78) == 0x8;
    assert And(0x18, 0xf0) == 0x10;
  }

  lemma NewFlagBits()
    ensures And(NEW_FLAG, 0xf0) == AcszOf(5)
  {
    assert And(0x6, 0xf) == 0x6;
    assert And(0xd, 0x1e) == 0xc;
    assert And(0x1a, 0x3c) == 0x18;
    assert And(0x34, 0x78) == 0x30;
    assert And(0x68, 0xf0) == 0x60;
  }
}
