/** __umodsi3 (hal/lib/_umodsi3.S): the unsigned remainder by shifts and subtractions, with a fix-up that adds
    back what the last pass took too much, and exactly when that fix-up goes wrong. */
module Modulo {
  import opened Words
  import opened Division

  // ---------- The marks of a pass ----------

  function Ror(x: bv32, j: nat): bv32
    requires 1 <= j <= 3
  {
    match j
    case 1 => (x >> 1) | (x << 31)
    case 2 => (x >> 2) | (x << 30)
    case 3 => (x >> 3) | (x << 29)
  }

  /** Which of the three later subtractions of a pass took place. */
  datatype Taken = Taken(half: bool, quarter: bool, eighth: bool)

  function Marked(overdone: bv32, taken: bool, mark: bv32): bv32 {
    if taken then overdone | mark else overdone
  }

  /** The register that records them, as rotations of the bit in use. */
  function Marks(ip: bv32, t: Taken): bv32 {
    Marked(Marked(Marked(0, t.half, Ror(ip, 1)), t.quarter, Ror(ip, 2)), t.eighth, Ror(ip, 3))
  }

  const TOP_BITS: bv32 := 0xe000_0000

  function Bits(c: u32): bv32 {
    c as bv32
  }

  /** One bit, read as an integer or as a word, is tested alike. */
  ghost predicate OneBit(c: nat, x: bv32) {
    && x != 0 && x & (x - 1) == 0
    && (c == 1 <==> x == 1) && (c == 2 <==> x == 2) && (c == 4 <==> x == 4)
    && (c == 0x4000_0000 <==> x == 0x4000_0000) && (c == 0x8000_0000 <==> x == 0x8000_0000)
  }

  predicate LowPower(c: nat) {
    c in {0x1, 0x2, 0x4, 0x8, 0x10, 0x20, 0x40, 0x80, 0x100, 0x200, 0x400, 0x800, 0x1000, 0x2000, 0x4000, 0x8000}
  }

  lemma BelowSixteen(c: nat)
    requires IsPow2(c) && c < 0x1_0000
    ensures LowPower(c)
  {
    SmallOrEight(c);
    if c >= 8 {
      var e := c / 8;
      SmallOrEight(e);
      if e >= 8 {
        SmallOrEight(e / 8);
        if e / 8 >= 8 {
          SmallOrEight(e / 8 / 8);
          if e / 8 / 8 >= 8 {
            SmallOrEight(e / 8 / 8 / 8);
          }
        }
      }
    }
  }

  lemma Bits0()
    ensures Bits(0x1) == 0x1 && Bits(0x2) == 0x2 && Bits(0x4) == 0x4 && Bits(0x8) == 0x8
    ensures OneBit(0x1, 0x1) && OneBit(0x2, 0x2) && OneBit(0x4, 0x4) && OneBit(0x8, 0x8)
  {
  }

  lemma Bits4()
    ensures Bits(0x10) == 0x10 && Bits(0x20) == 0x20 && Bits(0x40) == 0x40 && Bits(0x80) == 0x80
    ensures OneBit(0x10, 0x10) && OneBit(0x20, 0x20) && OneBit(0x40, 0x40) && OneBit(0x80, 0x80)
  {
  }

  lemma Bits8()
    ensures Bits(0x100) == 0x100 && Bits(0x200) == 0x200 && Bits(0x400) == 0x400 && Bits(0x800) == 0x800
    ensures OneBit(0x100, 0x100) && OneBit(0x200, 0x200) && OneBit(0x400, 0x400) && OneBit(0x800, 0x800)
  {
  }

  lemma Bits12()
    ensures Bits(0x1000) == 0x1000 && Bits(0x2000) == 0x2000 && Bits(0x4000) == 0x4000 && Bits(0x8000) == 0x8000
    ensures OneBit(0x1000, 0x1000) && OneBit(0x2000, 0x2000) && OneBit(0x4000, 0x4000) && OneBit(0x8000, 0x8000)
  {
  }

  lemma Bits16()
    ensures Bits(0x1_0000) == 0x1_0000 && Bits(0x2_0000) == 0x2_0000 && Bits(0x4_0000) == 0x4_0000 && Bits(0x8_0000) == 0x8_0000
    ensures OneBit(0x1_0000, 0x1_0000) && OneBit(0x2_0000, 0x2_0000) && OneBit(0x4_0000, 0x4_0000) && OneBit(0x8_0000, 0x8_0000)
  {
  }

  lemma Bits20()
    ensures Bits(0x10_0000) == 0x10_0000 && Bits(0x20_0000) == 0x20_0000 && Bits(0x40_0000) == 0x40_0000 && Bits(0x80_0000) == 0x80_0000
    ensures OneBit(0x10_0000, 0x10_0000) && OneBit(0x20_0000, 0x20_0000) && OneBit(0x40_0000, 0x40_0000) && OneBit(0x80_0000, 0x80_0000)
  {
  }

  lemma Bits24()
    ensures Bits(0x100_0000) == 0x100_0000 && Bits(0x200_0000) == 0x200_0000 && Bits(0x400_0000) == 0x400_0000 && Bits(0x800_0000) == 0x800_0000
    ensures OneBit(0x100_0000, 0x100_0000) && OneBit(0x200_0000, 0x200_0000) && OneBit(0x400_0000, 0x400_0000) && OneBit(0x800_0000, 0x800_0000)
  {
  }

  lemma Bits28()
    ensures Bits(0x1000_0000) == 0x1000_0000 && Bits(0x2000_0000) == 0x2000_0000 && Bits(0x4000_0000) == 0x4000_0000 && Bits(0x8000_0000) == 0x8000_0000
    ensures OneBit(0x1000_0000, 0x1000_0000) && OneBit(0x2000_0000, 0x2000_0000) && OneBit(0x4000_0000, 0x4000_0000) && OneBit(0x8000_0000, 0x8000_0000)
  {
  }

  lemma LowBits(c: u32)
    requires LowPower(c)
    ensures OneBit(c, Bits(c))
  {
    hide OneBit, Bits;
    Bits0();
    Bits4();
    Bits8();
    Bits12();
  }

  lemma HighBits(c: nat)
    requires LowPower(c)
    ensures 0x1_0000 * c < TWO_32 && OneBit(0x1_0000 * c, Bits(0x1_0000 * c))
  {
    hide OneBit, Bits;
    Bits16();
    Bits20();
    Bits24();
    Bits28();
  }

  lemma PowerBits(c: u32)
    requires IsPow2(c)
    ensures OneBit(c, Bits(c))
  {
    hide OneBit, Bits, LowPower;
    if c < 0x1_0000 {
      BelowSixteen(c);
      LowBits(c);
    } else {
      SmallWidths();
      ShiftDown(c, 16);
      BelowSixteen(c / 0x1_0000);
      HighBits(c / 0x1_0000);
    }
  }

  /** The rotation of `c` by `j` is one of the three top bits. */
  predicate Hits(c: nat, j: nat)
    requires 1 <= j <= 3
  {
    match j
    case 1 => c == 1 || c == 0x4000_0000 || c == 0x8000_0000
    case 2 => c == 1 || c == 2 || c == 0x8000_0000
    case 3 => c == 1 || c == 2 || c == 4
  }

  /** The three tests of the fix-up. */
  lemma MarksTested(c: nat, x: bv32, t: Taken)
    requires OneBit(c, x)
    ensures (Marks(x, t) & TOP_BITS) & Ror(x, 1) != 0 <==> t.half && Hits(c, 1)
    ensures (Marks(x, t) & TOP_BITS) & Ror(x, 2) != 0 <==> t.quarter && Hits(c, 2)
    ensures (Marks(x, t) & TOP_BITS) & Ror(x, 3) != 0 <==> t.eighth && Hits(c, 3)
  {
  }

  lemma NoMark(m: bv32, x: bv32)
    requires m == 0
    ensures m & x == 0
  {
  }

  // ---------- One pass ----------

  function Less(left: nat, s: nat): nat {
    if left >= s then left - s else left
  }

  /** What the four subtractions of a pass leave, one after the other. */
  function After1(left: nat, step: nat): nat {
    Less(left, step)
  }

  function After2(left: nat, step: nat): nat {
    Less(After1(left, step), step / 2)
  }

  function After3(left: nat, step: nat): nat {
    Less(After2(left, step), step / 4)
  }

  function After4(left: nat, step: nat): nat {
    Less(After3(left, step), step / 8)
  }

  function TakenIn(left: nat, step: nat): Taken {
    Taken(After1(left, step) >= step / 2, After2(left, step) >= step / 4, After3(left, step) >= step / 8)
  }

  /** One compare with its conditional subtraction and mark. */
  method Attempt(dividend: u32, part: u32, overdone: bv32, mark: bv32) returns (left: u32, overdone': bv32)
    ensures left == Less(dividend, part) && overdone' == Marked(overdone, dividend >= part, mark)
  {
    left, overdone' := dividend, overdone;
    if dividend >= part {
      left, overdone' := dividend - part, overdone | mark;
    }
  }

  /** Four compares with conditional subtractions; the last three are marked. */
  method ModPass(dividend: u32, divisor: u32, ip: bv32) returns (left: u32, overdone: bv32)
    ensures left == After4(dividend, divisor) && overdone == Marks(ip, TakenIn(dividend, divisor))
  {
    hide *;
    PassIs(dividend, divisor, ip);
    var none;
    left, none := Attempt(dividend, divisor, 0, 0);
    left, overdone := Attempt(left, divisor / 2, 0, Ror(ip, 1));
    left, overdone := Attempt(left, divisor / 4, overdone, Ror(ip, 2));
    left, overdone := Attempt(left, divisor / 8, overdone, Ror(ip, 3));
  }

  lemma PassIs(left: nat, step: nat, ip: bv32)
    ensures var l1 := Less(left, step);
      var l2 := Less(l1, step / 2);
      var l3 := Less(l2, step / 4);
      && After4(left, step) == Less(l3, step / 8)
      && Marks(ip, TakenIn(left, step)) ==
        Marked(Marked(Marked(0, l1 >= step / 2, Ror(ip, 1)), l2 >= step / 4, Ror(ip, 2)), l3 >= step / 8, Ror(ip, 3))
  {
    hide Less, Ror, Marked;
  }

  /** What the fix-up adds. */
  function AddedBack(c: nat, divisor: nat, t: Taken): nat {
    (if t.eighth && Hits(c, 3) then divisor / 8 else 0)
    + (if t.quarter && Hits(c, 2) then divisor / 4 else 0)
    + (if t.half && Hits(c, 1) then divisor / 2 else 0)
  }

  method FixUp(left: u32, divisor: u32, overdone: bv32, c: u32, ghost t: Taken) returns (r: u32)
    requires IsPow2(c) && overdone == Marks(Bits(c), t) && left + AddedBack(c, divisor, t) < TWO_32
    ensures r == left + AddedBack(c, divisor, t)
  {
    hide Ror, Hits, Marks, OneBit, Bits;
    var ip := Bits(c);
    PowerBits(c);
    MarksTested(c, ip, t);
    var marks := overdone & TOP_BITS;
    if marks == 0 {
      NoMark(marks, Ror(ip, 1));
      NoMark(marks, Ror(ip, 2));
      NoMark(marks, Ror(ip, 3));
      return left;
    }
    r := left;
    if marks & Ror(ip, 3) != 0 {
      r := r + divisor / 8;
    }
    if marks & Ror(ip, 2) != 0 {
      r := r + divisor / 4;
    }
    if marks & Ror(ip, 1) != 0 {
      r := r + divisor / 2;
    }
  }

  // ---------- What is left ----------

  /** At the head of a pass: what is left has the remainder of `n` and is below twice the shifted divisor. */
  ghost predicate Head(n: nat, d: nat, left: nat, step: nat, c: nat)
    requires d > 0
  {
    IsPow2(c) && step == d * c && left < 2 * step && left % d == n % d
  }

  ghost predicate Reduced(n: nat, d: nat, left: nat, c: nat)
    requires d > 0
  {
    left < d * c && left % d == n % d
  }

  lemma TakeAway(n: nat, d: nat, left: nat, c: nat)
    requires d > 0 && left < 2 * (d * c) && left % d == n % d
    ensures Reduced(n, d, Less(left, d * c), c)
  {
    if left >= d * c {
      SameRemainder(left, d, c);
    }
  }

  lemma SameRemainder(left: nat, d: nat, c: nat)
    requires d > 0 && left >= d * c
    ensures (left - d * c) % d == left % d
  {
    var m := left - d * c;
    var q, r := m / d, m % d;
    assert m == d * q + r;
    Gather(d, q, c);
    DivideExactly(left, d, q + c, r);
  }

  lemma Gather(d: nat, q: nat, c: nat)
    ensures d * q + d * c == d * (q + c)
  {
  }

  lemma ReducedToOne(n: nat, d: nat, left: nat)
    requires d > 0 && Reduced(n, d, left, 1)
    ensures left == n % d
  {
    DivideExactly(left, d, 0, left);
  }

  /** A pass on a bit that is at least 8 takes nothing too much. */
  lemma FullPass(n: nat, d: nat, left: nat, step: nat, c: nat)
    requires d > 0 && Head(n, d, left, step, c) && c >= 8
    ensures c % 8 == 0 && IsPow2(c / 8) && step / 8 == d * (c / 8) && step == 8 * (step / 8)
    ensures Reduced(n, d, After4(left, step), c / 8)
  {
    SmallOrEight(c);
    var e := c / 8;
    Eighths(d, e);
    hide IsPow2, Reduced, Less;
    TakeAway(n, d, left, 8 * e);
    Again(n, d, After1(left, step), 4 * e);
    Again(n, d, After2(left, step), 2 * e);
    Again(n, d, After3(left, step), e);
  }

  lemma Eighths(d: nat, e: nat)
    ensures d * (8 * e) == 8 * (d * e) && d * (4 * e) == 4 * (d * e) && d * (2 * e) == 2 * (d * e)
    ensures d * (8 * e) / 2 == d * (4 * e) && d * (8 * e) / 4 == d * (2 * e) && d * (8 * e) / 8 == d * e
  {
  }

  lemma Again(n: nat, d: nat, left: nat, c: nat)
    requires d > 0 && Reduced(n, d, left, 2 * c)
    ensures Reduced(n, d, Less(left, d * c), c)
  {
    assert d * (2 * c) == 2 * (d * c);
    TakeAway(n, d, left, c);
  }

  /** In the last pass on a bit below 8, what is taken below the divisor itself comes back. */
  lemma LastPass(n: nat, d: nat, left: nat, step: nat, c: nat)
    requires d > 0 && Head(n, d, left, step, c) && c < 8
    ensures After4(left, step) + AddedBack(c, step, TakenIn(left, step)) == n % d
  {
    SmallOrEight(c);
    hide Reduced, IsPow2, Less, After1, After2, After3, After4, TakenIn;
    PutBack(left, step);
    if c == 1 {
      TakeAway(n, d, left, 1);
      ReducedToOne(n, d, After1(left, step));
    } else if c == 2 {
      TakeTwo(n, d, left, step);
      ReducedToOne(n, d, After2(left, step));
    } else {
      TakeThree(n, d, left, step);
      ReducedToOne(n, d, After3(left, step));
    }
  }

  lemma TakeTwo(n: nat, d: nat, left: nat, step: nat)
    requires d > 0 && step == d * 2 && left < 2 * step && left % d == n % d
    ensures Reduced(n, d, After2(left, step), 1)
  {
    hide Reduced, Less;
    TakeAway(n, d, left, 2);
    Again(n, d, After1(left, step), 1);
  }

  lemma TakeThree(n: nat, d: nat, left: nat, step: nat)
    requires d > 0 && step == d * 4 && left < 2 * step && left % d == n % d
    ensures Reduced(n, d, After3(left, step), 1)
  {
    hide Reduced, Less;
    assert step / 2 == d * 2 && step / 4 == d;
    TakeAway(n, d, left, 4);
    Again(n, d, After1(left, step), 2);
    Again(n, d, After2(left, step), 1);
  }

  /** Adding back what a subtraction took. */
  lemma PutBack(left: nat, step: nat)
    ensures var t := TakenIn(left, step);
      && After4(left, step) + (if t.eighth then step / 8 else 0) == After3(left, step)
      && After3(left, step) + (if t.quarter then step / 4 else 0) == After2(left, step)
      && After2(left, step) + (if t.half then step / 2 else 0) == After1(left, step)
    ensures After1(left, step) == Less(left, step)
  {
  }

  /** The next pass works on the bit four places down. */
  lemma NextHead(n: nat, d: nat, left: nat, step: nat, c: nat)
    requires d > 0 && IsPow2(c) && c >= 16 && step == d * c && Reduced(n, d, left, c / 8)
    ensures Head(n, d, left, step / 16, c / 16)
  {
    var h := c / 16;
    SixteenBelow(c);
    hide IsPow2;
    SixteenTimes(d, h);
    assert d * (2 * h) == 2 * (d * h);
  }

  lemma SixteenBelow(c: nat)
    requires IsPow2(c) && c >= 16
    ensures c == 16 * (c / 16) && c / 8 == 2 * (c / 16) && IsPow2(c / 16)
  {
    SmallOrEight(c);
    assert c / 8 / 2 == c / 16;
  }

  // ---------- When the fix-up goes wrong ----------

  /** The operands for which a mark of the first pass is mistaken for one of the last. */
  predicate Misfires(n: nat, d: nat) {
    || (d == 1 && n in {0x2800_0000, 0x3000_0000, 0x3800_0000})
    || (d == 1 && n in {0x5000_0000, 0x6000_0000, 0x7000_0000, 0xa000_0000, 0xb000_0000, 0xc000_0000, 0xd000_0000,
                        0xe000_0000, 0xf000_0000})
    || (d == 2 && n in {0x5000_0000, 0x6000_0000, 0x7000_0000, 0xc000_0000, 0xd000_0000, 0xe000_0000, 0xf000_0000})
    || (d == 3 && n in {0x7800_0000, 0x9000_0000, 0xa800_0000})
  }

  /** Where the shift loops leave the divisor. */
  ghost predicate ShiftedUp(n: nat, d: nat, step: nat, c: nat) {
    && IsPow2(c) && step == d * c && step < TWO_32 && n < TWO_32
    && (step >= 0x8000_0000 || step >= n) && (c > 0x1000_0000 ==> step / 2 < n)
  }

  lemma TopThree(c: nat)
    requires IsPow2(c) && 0x2000_0000 < c < TWO_32
    ensures c == 0x4000_0000 || c == 0x8000_0000
  {
    SmallWidths();
    ShiftDown(c, 16);
    BelowSixteen(c / 0x1_0000);
  }

  lemma SmallDivisors(d: nat, c: nat)
    requires d * c < TWO_32 && d > 0 && c >= 0x4000_0000
    ensures d <= 3
  {
    assert d >= 4 ==> d * c >= 4 * c;
  }

  /** The first pass ends with nothing left and with a mark that the fix-up takes for its own. */
  predicate FirstPassMisfires(n: nat, step: nat, c: nat) {
    After4(n, step) == 0 && c >= 8 && AddedBack(c, step, TakenIn(n, step)) > 0
  }

  lemma MisfiresIff(n: nat, d: nat, step: nat, c: nat)
    requires d > 0 && ShiftedUp(n, d, step, c)
    ensures FirstPassMisfires(n, step, c) <==> Misfires(n, d)
  {
    hide IsPow2;
    if c > 0x2000_0000 {
      TopThree(c);
      SmallDivisors(d, c);
      if d == 1 {
        MisfiresByOne(n, step, c);
      } else if d == 2 {
        MisfiresByTwo(n, step, c);
      } else {
        assert d == 3;
        MisfiresByThree(n, step, c);
      }
    } else {
      assert d == 1 || d == 2 || d == 3 ==> !Misfires(n, d);
    }
  }

  lemma MisfiresByOne(n: nat, step: nat, c: nat)
    requires (c == 0x4000_0000 || c == 0x8000_0000) && ShiftedUp(n, 1, step, c)
    ensures FirstPassMisfires(n, step, c) <==> Misfires(n, 1)
  {
    hide IsPow2;
  }

  lemma MisfiresByTwo(n: nat, step: nat, c: nat)
    requires (c == 0x4000_0000 || c == 0x8000_0000) && ShiftedUp(n, 2, step, c)
    ensures FirstPassMisfires(n, step, c) <==> Misfires(n, 2)
  {
    hide IsPow2;
  }

  lemma MisfiresByThree(n: nat, step: nat, c: nat)
    requires (c == 0x4000_0000 || c == 0x8000_0000) && ShiftedUp(n, 3, step, c)
    ensures FirstPassMisfires(n, step, c) <==> Misfires(n, 3)
  {
    hide IsPow2;
  }

  // ---------- The whole routine ----------

  /** The first pass starts from the operands; every later one works on a bit below 2^28. */
  ghost predicate Underway(n: nat, d: nat, left: nat, step: nat, c: nat, first: bool)
    requires d > 0
  {
    && Head(n, d, left, step, c)
    && (if first then left == n && ShiftedUp(n, d, step, c) else c < 0x1000_0000 && !Misfires(n, d))
  }

  /** The routine ends with this pass. */
  lemma LoopEnds(n: nat, d: nat, left: nat, step: nat, c: nat, first: bool)
    requires d > 0 && Underway(n, d, left, step, c, first) && step < TWO_32
    requires After4(left, step) == 0 || c / 16 == 0
    ensures var r := After4(left, step) + AddedBack(c, step, TakenIn(left, step));
      r < TWO_32 && (r == n % d <==> !Misfires(n, d))
  {
    hide IsPow2, Misfires, ShiftedUp, TakenIn, After4;
    if first {
      MisfiresIff(n, d, step, c);
    }
    if c < 8 {
      LastPass(n, d, left, step, c);
    } else {
      FullPass(n, d, left, step, c);
      if After4(left, step) == 0 {
        DivideExactly(0, d, 0, 0);
      } else {
        SmallOrEight(c);
        assert c == 8;
        ReducedToOne(n, d, After4(left, step));
      }
    }
  }

  /** The loop goes on after this pass. */
  lemma LoopGoesOn(n: nat, d: nat, left: nat, step: nat, c: nat, first: bool)
    requires d > 0 && Underway(n, d, left, step, c, first) && c < TWO_32 && After4(left, step) != 0 && c / 16 != 0
    ensures Underway(n, d, After4(left, step), step / 16, c / 16, false) && c / 16 < c
  {
    hide IsPow2, Misfires, ShiftedUp, TakenIn, After4;
    if first {
      MisfiresIff(n, d, step, c);
    }
    FullPass(n, d, left, step, c);
    NextHead(n, d, After4(left, step), step, c);
  }

  /** The loop with the fix-up behind it. */
  method ModLoop(n: u32, d: u32, divisor0: u32, curbit0: u32) returns (r: u32)
    requires d > 0 && Underway(n, d, n, divisor0, curbit0, true)
    ensures r == n % d <==> !Misfires(n, d)
  {
    hide *;
    var left, divisor, curbit, first := n, divisor0, curbit0, true;
    while true
      invariant Underway(n, d, left, divisor, curbit, first)
      decreases curbit
    {
      ghost var was, t := left, TakenIn(left, divisor);
      var overdone;
      left, overdone := ModPass(left, divisor, Bits(curbit));
      if left == 0 || curbit / 16 == 0 {
        LoopEnds(n, d, was, divisor, curbit, first);
        OnePower(n, d, was, divisor, curbit, first);
        r := FixUp(left, divisor, overdone, curbit, t);
        return;
      }
      LoopGoesOn(n, d, was, divisor, curbit, first);
      curbit, divisor, first := curbit / 16, divisor / 16, false;
    }
  }

  /** __umodsi3: the remainder, for every divisor but 0 and for all but 22 pairs of operands; division by zero
      yields 0. */
  method UModSi3(n: u32, d: u32) returns (r: u32)
    ensures d == 0 ==> r == 0
    ensures d > 0 ==> (r == n % d <==> !Misfires(n, d))
  {
    hide *;
    if d == 0 {
      return 0;
    }
    if n < d {
      TooSmall(n, d);
      return n;
    }
    StartsShifted(d);
    var divisor, curbit := ShiftLoops(n, d, 1, d);
    Starts(n, d, divisor, curbit);
    r := ModLoop(n, d, divisor, curbit);
  }

  lemma OnePower(n: nat, d: nat, left: nat, step: nat, c: nat, first: bool)
    requires d > 0 && Underway(n, d, left, step, c, first)
    ensures IsPow2(c)
  {
  }

  lemma TooSmall(n: nat, d: nat)
    requires n < d
    ensures n == n % d && !Misfires(n, d)
  {
    DivideExactly(n, d, 0, n);
  }

  lemma StartsShifted(d: nat)
    ensures Shifted(d, d, 1)
  {
  }

  lemma Starts(n: nat, d: nat, divisor: nat, curbit: nat)
    requires d > 0 && Shifted(d, divisor, curbit) && divisor < TWO_32 && n < TWO_32
    requires (divisor >= 0x8000_0000 || divisor >= n) && (curbit > 0x1000_0000 ==> divisor / 2 < n)
    ensures Underway(n, d, n, divisor, curbit, true)
  {
    SumOfPow2(curbit);
    hide IsPow2;
    assert divisor > 0;
  }
}
