/** The division routines: the ARM assembly for 32 bits (hal/lib/_udivsi3.S, hal/lib/_divsi3.S) and the
    64-by-32-bit division in C (lib/div64.c, include/div64.h). */
module Division {
  import opened Words

  /** `c` is a power of two. */
  predicate IsPow2(c: nat)
    decreases c
  {
    c == 1 || (c > 1 && c % 2 == 0 && IsPow2(c / 2))
  }

  lemma {:induction false} SumOfPow2(c: nat)
    requires IsPow2(c)
    ensures IsPow2(2 * c) && c >= 1
  {
    assert 2 * c / 2 == c;
  }

  /** A power of two that is not 1, 2 or 4 is a multiple of 8. */
  lemma SmallOrEight(c: nat)
    requires IsPow2(c)
    ensures c == 1 || c == 2 || c == 4 || (c >= 8 && c % 8 == 0 && IsPow2(c / 8))
  {
    if c > 4 {
      assert IsPow2(c / 2) && IsPow2(c / 2 / 2) && IsPow2(c / 2 / 2 / 2);
      assert c / 2 / 2 / 2 == c / 8;
    }
  }

  /** Setting the bit of a power of two below the lowest set bit of `a` adds it. */
  lemma {:induction false} OrAdds(a: nat, c: nat)
    requires IsPow2(c) && a % (2 * c) == 0
    ensures Or(a, c) == a + c
    decreases c
  {
    if c == 1 {
      OrZero(a / 2);
    } else {
      var q := a / (2 * c);
      assert a == 2 * c * q;
      assert c / 2 * 2 == c;
      assert a / 2 == c * q;
      MultipleMod(q, c);
      OrAdds(a / 2, c / 2);
    }
  }

  lemma MultipleMod(q: nat, d: nat)
    requires d > 0
    ensures (d * q) % d == 0
  {
    DivideExactly(d * q, d, q, 0);
  }

  lemma {:induction false} OrZero(a: nat)
    ensures Or(a, 0) == a
    decreases a
  {
    if a > 0 {
      OrZero(a / 2);
    }
  }

  // ---------- The subtract loop shared by the 32-bit routines ----------

  /** Before the bit `c` is tried: the quotient so far is exact, and what is left is below twice the
      shifted divisor. */
  ghost predicate Pending(n: nat, d: nat, dividend: nat, result: nat, c: nat) {
    n == result * d + dividend && dividend < 2 * (d * c) && result % (2 * c) == 0
  }

  /** After it was tried. */
  ghost predicate Settled(n: nat, d: nat, dividend: nat, result: nat, c: nat) {
    n == result * d + dividend && dividend < d * c && result % c == 0
  }

  lemma HalfPending(n: nat, d: nat, dividend: nat, result: nat, c: nat)
    requires c % 2 == 0 && Settled(n, d, dividend, result, c)
    ensures Pending(n, d, dividend, result, c / 2) && d * c / 2 == d * (c / 2)
  {
    assert c == 2 * (c / 2);
    assert d * c == 2 * (d * (c / 2));
  }

  lemma SettledAtOne(n: nat, d: nat, dividend: nat, result: nat)
    requires d > 0 && Settled(n, d, dividend, result, 1)
    ensures result == n / d && dividend == n % d
  {
    DivideExactly(n, d, result, dividend);
  }

  /** cmp / subcs / orrcs: one bit of the quotient. */
  method TryBit(dividend: u32, divisor: u32, result: u32, curbit: u32, ghost n: nat, ghost d: nat)
    returns (dividend': u32, result': u32)
    ensures curbit == 0 ==> result' == result
    ensures IsPow2(curbit) && divisor == d * curbit && Pending(n, d, dividend, result, curbit) ==>
      Settled(n, d, dividend', result', curbit)
  {
    dividend', result' := dividend, result;
    if dividend >= divisor {
      dividend' := dividend - divisor;
      result' := Or32(result, curbit);
      if curbit == 0 {
        OrZero(result);
      } else if IsPow2(curbit) && divisor == d * curbit && Pending(n, d, dividend, result, curbit) {
        OrAdds(result, curbit);
        TakenBit(n, d, dividend, result, curbit);
      }
    } else if curbit > 0 && Pending(n, d, dividend, result, curbit) {
      ResultMod(result, curbit);
    }
  }

  lemma ResultMod(result: nat, c: nat)
    requires c > 0 && result % (2 * c) == 0
    ensures result % c == 0
  {
    var q := result / (2 * c);
    assert result == c * (2 * q);
    MultipleMod(2 * q, c);
  }

  lemma TakenBit(n: nat, d: nat, dividend: nat, result: nat, c: nat)
    requires c > 0 && Pending(n, d, dividend, result, c) && dividend >= d * c
    ensures Settled(n, d, dividend - d * c, result + c, c)
  {
    var q := result / (2 * c);
    assert result + c == c * (2 * q + 1);
    MultipleMod(2 * q + 1, c);
    assert (result + c) * d == result * d + d * c;
  }

  /** The state at the head of a pass. */
  ghost predicate PassHead(n: nat, d: nat, dividend: nat, divisor: nat, result: nat, curbit: nat) {
    IsPow2(curbit) && divisor == d * curbit && Pending(n, d, dividend, result, curbit)
  }

  /** Four bits of the quotient.  When `curbit` is below 8 the last subtractions may take too much from
      the dividend, but by then the quotient is complete and no bit is left to record them. */
  method Pass(dividend: u32, divisor: u32, result: u32, curbit: u32, ghost n: nat, ghost d: nat)
    returns (dividend': u32, result': u32)
    requires d > 0 && PassHead(n, d, dividend, divisor, result, curbit)
    ensures curbit >= 8 ==> curbit % 8 == 0 && Settled(n, d, dividend', result', curbit / 8)
    ensures curbit < 8 ==> result' == n / d
  {
    SmallOrEight(curbit);
    Halvings(curbit);
    hide IsPow2, Pending, Settled;
    dividend', result' := TryBit(dividend, divisor, result, curbit, n, d);
    BitDone(n, d, dividend', result', divisor, curbit);
    dividend', result' := TryBit(dividend', divisor / 2, result', curbit / 2, n, d);
    BitDone(n, d, dividend', result', divisor / 2, curbit / 2);
    dividend', result' := TryBit(dividend', divisor / 4, result', curbit / 4, n, d);
    BitDone(n, d, dividend', result', divisor / 4, curbit / 4);
    dividend', result' := TryBit(dividend', divisor / 8, result', curbit / 8, n, d);
    BitDone(n, d, dividend', result', divisor / 8, curbit / 8);
  }

  /** The bits below a power of two. */
  lemma Halvings(c: nat)
    requires IsPow2(c)
    ensures c > 1 ==> c % 2 == 0 && IsPow2(c / 2)
    ensures c > 2 ==> c / 2 % 2 == 0 && IsPow2(c / 4) && c / 4 == c / 2 / 2
    ensures c > 4 ==> c / 4 % 2 == 0 && IsPow2(c / 8) && c / 8 == c / 4 / 2
  {
    hide IsPow2;
    Halving(c);
    Halving(c / 2);
    Halving(c / 2 / 2);
  }

  lemma Halving(c: nat)
    ensures IsPow2(c) && c > 1 ==> c % 2 == 0 && IsPow2(c / 2)
    ensures c / 2 / 2 == c / 4 && c / 2 / 2 / 2 == c / 8 && (c % 2 == 0 && c > 2 ==> c / 2 > 1)
  {
  }

  lemma BitDone(n: nat, d: nat, dividend: nat, result: nat, divisor: nat, c: nat)
    requires d > 0
    ensures c == 1 && Settled(n, d, dividend, result, c) ==> result == n / d
    ensures c % 2 == 0 && divisor == d * c && Settled(n, d, dividend, result, c) ==>
      Pending(n, d, dividend, result, c / 2) && divisor / 2 == d * (c / 2)
  {
    if c == 1 && Settled(n, d, dividend, result, c) {
      SettledAtOne(n, d, dividend, result);
    }
    if c % 2 == 0 && Settled(n, d, dividend, result, c) {
      HalfPending(n, d, dividend, result, c);
    }
  }

  /** Loop3 of __udivsi3, and the division loop of ARM_DIV_BODY. */
  method SubtractLoop(dividend: u32, divisor: u32, curbit: u32, ghost n: nat, ghost d: nat) returns (result: u32)
    requires d > 0 && n == dividend && PassHead(n, d, dividend, divisor, 0, curbit)
    ensures result == n / d
  {
    var left, step, bit := dividend, divisor, curbit;
    result := 0;
    while true
      invariant PassHead(n, d, left, step, result, bit)
      decreases bit
    {
      left, result := Pass(left, step, result, bit, n, d);
      SmallOrEight(bit);
      if left == 0 {
        if bit >= 8 {
          ExactQuotient(n, d, result);
        }
        return;
      }
      if bit / 16 == 0 {
        if bit >= 8 {
          SettledAtOne(n, d, left, result);
        }
        return;
      }
      NextPass(n, d, left, result, step, bit);
      bit := bit / 16;
      step := step / 16;
    }
  }

  lemma ExactQuotient(n: nat, d: nat, q: nat)
    requires d > 0 && n == q * d
    ensures q == n / d
  {
    DivideExactly(n, d, q, 0);
  }

  lemma NextPass(n: nat, d: nat, left: nat, result: nat, step: nat, bit: nat)
    requires d > 0 && IsPow2(bit) && bit >= 16 && step == d * bit && Settled(n, d, left, result, bit / 8)
    ensures PassHead(n, d, left, step / 16, result, bit / 16) && bit / 16 < bit
  {
    SmallOrEight(bit);
    var c := bit / 8;
    var h := c / 2;
    assert IsPow2(c) && c > 1 && c % 2 == 0 && IsPow2(h) && bit == 16 * h;
    hide IsPow2;
    HalfPending(n, d, left, result, c);
    SixteenTimes(d, h);
  }

  lemma SixteenTimes(d: nat, h: nat)
    ensures d * (16 * h) == 16 * (d * h) && d * (16 * h) / 16 == d * h
  {
  }

  /** The divisor in use is `d` shifted up as far as the bit in use. */
  ghost predicate Shifted(d: nat, divisor: nat, curbit: nat) {
    divisor == d * curbit && IsPow2(curbit)
  }

  /** A power of sixteen up to 2^28. */
  predicate Nibbles(c: nat) {
    c in {1, 0x10, 0x100, 0x1000, 0x1_0000, 0x10_0000, 0x100_0000, 0x1000_0000}
  }

  /** One step of the first shift loop, by four bits, and of the second, by one bit. */
  lemma ShiftFour(d: nat, divisor: nat, c: nat)
    requires d > 0 && Shifted(d, divisor, c) && divisor < 0x1000_0000
    ensures Shifted(d, divisor * 16, c * 16) && 0 < divisor && c * 16 <= divisor * 16
    ensures Nibbles(c) ==> Nibbles(c * 16)
  {
    SumOfPow2(c);
    SumOfPow2(2 * c);
    SumOfPow2(4 * c);
    SumOfPow2(8 * c);
    hide IsPow2;
    AtLeastOnce(d, c);
  }

  lemma ShiftOne(d: nat, divisor: nat, c: nat)
    requires d > 0 && Shifted(d, divisor, c) && divisor < 0x8000_0000
    ensures Shifted(d, divisor * 2, c * 2) && 0 < divisor && c * 2 <= divisor * 2
  {
    SumOfPow2(c);
    hide IsPow2;
    AtLeastOnce(d, c);
  }

  lemma AtLeastOnce(d: nat, c: nat)
    requires d > 0
    ensures c <= d * c && d * c * 16 == d * (c * 16) && d * c * 2 == d * (c * 2)
  {
  }

  lemma NothingYet(n: nat, d: nat, divisor: nat, curbit: nat)
    requires Shifted(d, divisor, curbit) && n < 2 * divisor
    ensures PassHead(n, d, n, divisor, 0, curbit)
  {
    SumOfPow2(curbit);
    hide IsPow2;
    MultipleMod(0, 2 * curbit);
  }

  /** Loop1 and Lbignum: shifts the divisor up until it reaches the dividend or its highest bit is set;
      no shift loses a bit. */
  method ShiftLoops(n: u32, divisor0: u32, curbit0: u32, ghost d: nat) returns (divisor: u32, curbit: u32)
    requires d > 0 && Shifted(d, divisor0, curbit0)
    ensures Shifted(d, divisor, curbit) && (divisor >= 0x8000_0000 || divisor >= n)
    ensures curbit0 == 1 && curbit > 0x1000_0000 ==> divisor / 2 < n
  {
    NotZero(d, divisor0, curbit0);
    hide Shifted, Wrap32;
    divisor, curbit := divisor0, curbit0;
    while divisor < 0x1000_0000 && divisor < n
      invariant Shifted(d, divisor, curbit) && divisor > 0 && (curbit0 == 1 ==> Nibbles(curbit))
      decreases 0x1_0000_0000 - divisor
    {
      ShiftFour(d, divisor, curbit);
      WrapKept(divisor * 16);
      WrapKept(curbit * 16);
      divisor, curbit := Wrap32(divisor * 16), Wrap32(curbit * 16);
    }
    while divisor < 0x8000_0000 && divisor < n
      invariant Shifted(d, divisor, curbit) && divisor > 0
      invariant curbit0 == 1 ==> curbit <= 0x1000_0000 || divisor / 2 < n
      decreases 0x1_0000_0000 - divisor
    {
      ShiftOne(d, divisor, curbit);
      WrapKept(divisor * 2);
      WrapKept(curbit * 2);
      divisor, curbit := Wrap32(divisor * 2), Wrap32(curbit * 2);
    }
  }

  lemma NotZero(d: nat, divisor: nat, c: nat)
    requires d > 0 && Shifted(d, divisor, c)
    ensures divisor > 0
  {
    SumOfPow2(c);
  }

  /** __udivsi3; division by zero goes through __div0 and yields 0. */
  method UDivSi3(n: u32, d: u32) returns (q: u32)
    ensures d > 0 ==> q == n / d
    ensures d == 0 ==> q == 0
  {
    if d == 0 {
      return 0;
    }
    if n < d {
      return 0;
    }
    var divisor, curbit := ShiftLoops(n, d, 1, d);
    NothingYet(n, d, divisor, curbit);
    q := SubtractLoop(n, divisor, curbit, n, d);
  }

  /** __aeabi_uidivmod: quotient, and the remainder from one multiply and subtract. */
  method UIDivMod(n: u32, d: u32) returns (q: u32, r: u32)
    ensures d > 0 ==> q == n / d && r == n % d
    ensures d == 0 ==> q == 0 && r == n
  {
    q := UDivSi3(n, d);
    if d > 0 {
      assert n == d * (n / d) + n % d;
    }
    r := Wrap32(n - Wrap32(q * d));
  }

  // ---------- Signed division ----------

  function Abs(x: int): nat {
    if x < 0 then -x else x
  }

  /** C division: truncation toward zero. */
  function TruncDiv(n: int, d: int): int
    requires d != 0
  {
    if (n < 0) == (d < 0) then Abs(n) / Abs(d) else -(Abs(n) / Abs(d))
  }

  /** rsbmi: the magnitude of a register as an unsigned word. */
  function Magnitude(x: u32): (m: u32)
    ensures m == Abs(Signed32(x))
  {
    if Signed32(x) < 0 then Wrap32(TWO_32 - x) else x
  }

  lemma {:induction false} Pow2IsPow2(k: nat)
    ensures IsPow2(Pow2(k))
  {
    if k > 0 {
      Pow2IsPow2(k - 1);
    }
  }

  /** The test `d & (d - 1)` is zero exactly for powers of two. */
  lemma {:induction false} PowerTest(d: nat)
    requires d >= 1
    ensures And(d, d - 1) == 0 <==> IsPow2(d)
    decreases d
  {
    if d % 2 == 1 {
      assert (d - 1) / 2 == d / 2;
      AndSelf(d / 2);
    } else {
      assert (d - 1) / 2 == d / 2 - 1;
      PowerTest(d / 2);
    }
  }

  lemma {:induction false} AndSelf(a: nat)
    ensures And(a, a) == a
    decreases a
  {
    if a > 0 {
      AndSelf(a / 2);
    }
  }

  lemma MaskOfHighBits()
    ensures Shl(7, 29) == 0xe000_0000
  {
    assert Shl(7, 8) == 0x700;
    assert Shl(7, 16) == 0x7_0000;
    assert Shl(7, 24) == 0x700_0000;
  }

  lemma TopThree(d: u32)
    ensures And(Shr(d, 29), 7) == Shr(d, 29) && (Shr(d, 29) == 0 <==> d < 0x2000_0000)
  {
    Widths();
    assert Pow2(32) == 2 * Pow2(31) && Pow2(31) == 2 * Pow2(30) && Pow2(30) == 2 * Pow2(29);
    assert Pow2(3) == 8;
    ShrIsQuotient(d, 29);
    hide Pow2, Shr, And;
    var s := Shr(d, 29);
    assert s == d / 0x2000_0000;
    AndLowBits(s, 3);
  }

  /** `tst divisor, #0xe0000000` finds the three highest bits clear exactly below 2^29. */
  lemma HighBitsTest(d: u32)
    ensures And(d, 0xe000_0000) == 0 <==> d < 0x2000_0000
  {
    hide Pow2, Shl, Shr, And;
    MaskOfHighBits();
    TopThree(d);
    AndHighBits(d, 7, 29);
    ShlIsZero(And(Shr(d, 29), 7), 29);
  }

  /** ARM_DIV_BODY, for a dividend above the divisor. */
  method DivBody(n: u32, d: u32) returns (q: u32)
    requires 0 < d < n
    ensures q == n / d
  {
    var divisor: u32, curbit: u32 := d, 1;
    HighBitsTest(d);
    if And(d, 0xe000_0000) == 0 {
      divisor := Wrap32(d * 8);
      curbit := 8;
      assert IsPow2(2) && IsPow2(4) && IsPow2(8);
    }
    divisor, curbit := ShiftLoops(n, divisor, curbit, d);
    NothingYet(n, d, divisor, curbit);
    q := SubtractLoop(n, divisor, curbit, n, d);
  }

  lemma {:induction false} Pow2Split(a: nat, b: nat)
    ensures Pow2(a + b) == Pow2(a) * Pow2(b)
    decreases a
  {
    if a > 0 {
      Pow2Split(a - 1, b);
      assert Pow2(a + b) == 2 * Pow2(a - 1 + b);
    }
  }

  lemma {:induction false} LogOf(c: nat) returns (k: nat)
    requires IsPow2(c)
    ensures c == Pow2(k)
    decreases c
  {
    if c == 1 {
      k := 0;
    } else {
      var j := LogOf(c / 2);
      k := j + 1;
    }
  }

  lemma Divided(q: nat, p: nat)
    requires p > 0
    ensures (q * p) / p == q
  {
    DivideExactly(q * p, p, q, 0);
  }

  lemma LogAtLeast(k: nat, s: nat)
    requires Pow2(k) >= Pow2(s)
    ensures k >= s
  {
    if k < s {
      Pow2Mono(k, s);
    }
  }

  /** Halving a power of two `s` times. */
  lemma ShiftDown(d: nat, s: nat)
    requires IsPow2(d) && d >= Pow2(s)
    ensures IsPow2(d / Pow2(s)) && d == (d / Pow2(s)) * Pow2(s)
  {
    hide Pow2, IsPow2;
    var k := LogOf(d);
    LogAtLeast(k, s);
    Pow2Split(k - s, s);
    Pow2IsPow2(k - s);
    Divided(Pow2(k - s), Pow2(s));
  }

  /** One comparison of ARM_DIV2_ORDER: when the divisor has more than `s` bits, drop `s` of them. */
  method OrderStep(divisor: u32, order: nat, s: nat, ghost d: nat) returns (divisor': u32, order': nat)
    requires IsPow2(divisor) && divisor * Pow2(order) == d && s < 32
    ensures IsPow2(divisor') && divisor' * Pow2(order') == d
    ensures divisor < Pow2(2 * s) ==> divisor' < Pow2(s)
  {
    divisor', order' := divisor, order;
    if divisor >= Pow2(s) {
      ShiftDown(divisor, s);
      Pow2Split(s, order);
      Pow2Split(s, s);
      divisor' := divisor / Pow2(s);
      order' := order + s;
      Regroup(divisor', Pow2(s), Pow2(order), d, divisor);
    }
  }

  lemma Regroup(q: nat, p: nat, o: nat, d: nat, divisor: nat)
    requires p > 0 && divisor == q * p && divisor * o == d
    ensures q * (p * o) == d && (divisor < p * p ==> q < p)
  {
    assert q * (p * o) == q * p * o;
    if q >= p {
      assert q * p >= p * p;
    }
  }

  lemma OrderEnd(divisor: nat, order: nat, d: nat)
    requires IsPow2(divisor) && divisor < 16 && divisor * Pow2(order) == d
    ensures Pow2(if divisor > 4 then order + 3 else order + divisor / 2) == d
  {
    SmallOrEight(divisor);
    assert divisor == 1 || divisor == 2 || divisor == 4 || divisor == 8;
    assert Pow2(order + 1) == 2 * Pow2(order);
    assert Pow2(order + 2) == 4 * Pow2(order);
    assert Pow2(order + 3) == 8 * Pow2(order);
  }

  /** ARM_DIV2_ORDER: the binary logarithm of a power of two. */
  method Order(d: u32) returns (order: nat)
    requires IsPow2(d)
    ensures Pow2(order) == d
  {
    Widths();
    SmallWidths();
    assert Pow2(0) == 1;
    hide Pow2, IsPow2;
    var divisor;
    divisor, order := OrderStep(d, 0, 16, d);
    divisor, order := OrderStep(divisor, order, 8, d);
    divisor, order := OrderStep(divisor, order, 4, d);
    OrderEnd(divisor, order, d);
    if divisor > 4 {
      order := order + 3;
    } else {
      order := order + divisor / 2;
    }
  }

  /** The last step: the sign goes back on the quotient of the magnitudes. */
  function Resign(negative: bool, q: u32): u32 {
    if negative then Wrap32(TWO_32 - q) else q
  }

  lemma ResignIs(n: int, d: int, q: u32)
    requires d != 0 && q == Abs(n) / Abs(d)
    ensures Resign((n < 0) != (d < 0), q) == Wrap32(TruncDiv(n, d))
  {
    hide Abs;
    var m: int := q;
    assert (TWO_32 - m) % TWO_32 == (0 - m) % TWO_32;
  }

  lemma SmallQuotients(n: nat, d: nat)
    requires d > 0
    ensures n / 1 == n && (n < d ==> n / d == 0) && (n == d ==> n / d == 1)
  {
    if n == d {
      DivideExactly(n, d, 1, 0);
    }
    if n < d {
      DivideExactly(n, d, 0, n);
    }
  }

  /** __divsi3 on register contents: C division of the signed readings, as a word.  The quotient of the
      most negative number by -1 wraps; division by zero yields 0. */
  method DivSi3(r0: u32, r1: u32) returns (q: u32)
    ensures r1 == 0 ==> q == 0
    ensures r1 != 0 ==> q == Wrap32(TruncDiv(Signed32(r0), Signed32(r1)))
  {
    hide TruncDiv, Wrap32, IsPow2, Xor32, Shr, And;
    if r1 == 0 {
      return 0;
    }
    var sign := Xor32(r0, r1);
    XorSign(r0, r1);
    var d := Magnitude(r1);
    var n := Magnitude(r0);
    SmallQuotients(n, d);
    if d == 1 {
      // The sign of the quotient against that of the dividend is the sign of the divisor again.
      XorSign(sign, r0);
      ByOne(r0, r1);
      q := Resign(Signed32(Xor32(sign, r0)) < 0, r0);
      return;
    }
    if n <= d {
      // Equal magnitudes: the sign, spread over the whole word, with the lowest bit set.
      q := if n < d then 0 else if Signed32(sign) < 0 then 0xffff_ffff else 1;
      ResignIs(Signed32(r0), Signed32(r1), if n < d then 0 else 1);
      ResignSmall();
      return;
    }
    PowerTest(d);
    if And(d, d - 1) == 0 {
      var order := Order(d);
      ShrIsQuotient(n, order);
      q := Shr(n, order);
    } else {
      q := DivBody(n, d);
    }
    ResignIs(Signed32(r0), Signed32(r1), q);
    q := Resign(Signed32(sign) < 0, q);
  }

  /** __aeabi_idivmod: the quotient of __divsi3, and the remainder from one multiply and subtract. The
      remainder is exact for all operands, also where the quotient wraps; it has the sign of the dividend. */
  method IDivMod(r0: u32, r1: u32) returns (q: u32, r: u32)
    ensures r1 == 0 ==> q == 0 && r == r0
    ensures r1 != 0 ==> q == Wrap32(TruncDiv(Signed32(r0), Signed32(r1)))
    ensures r1 != 0 ==> Remains(Signed32(r0), Signed32(r1), Signed32(r))
    ensures r1 != 0 ==>
      (Signed32(r0) == Signed32(r1) * Signed32(q) + Signed32(r) <==> !(r0 == 0x8000_0000 && r1 == 0xffff_ffff))
  {
    hide Wrap32, TruncDiv, Signed32, Remains;
    q := DivSi3(r0, r1);
    r := Wrap32(r0 - Wrap32(q * r1));
    RemainderWord(r0, r1, q);
  }

  /** `r` is the C remainder of `n` by `d`. */
  predicate Remains(n: int, d: int, r: int)
    requires d != 0
  {
    n == d * TruncDiv(n, d) + r && Abs(r) < Abs(d) && (r == 0 || (r < 0 <==> n < 0))
  }

  lemma TruncRemains(n: int, d: int)
    requires d != 0
    ensures Remains(n, d, n - d * TruncDiv(n, d))
  {
    TruncTimes(n, d);
    QuotientBounds(Abs(n), Abs(d));
  }

  lemma TruncTimes(n: int, d: int)
    requires d != 0
    ensures d * TruncDiv(n, d) == Signed(n < 0, Abs(d) * (Abs(n) / Abs(d)))
  {
    hide TruncDiv, Signed;
    var q := Abs(n) / Abs(d);
    TruncIs(n, d, q);
    Signs(n, d, q);
  }

  function Signed(negative: bool, m: int): int {
    if negative then -m else m
  }

  lemma TruncIs(n: int, d: int, q: int)
    requires d != 0 && q == Abs(n) / Abs(d)
    ensures TruncDiv(n, d) == Signed((n < 0) != (d < 0), q)
  {
  }

  lemma Signs(n: int, d: int, q: int)
    ensures d * Signed((n < 0) != (d < 0), q) == Signed(n < 0, Abs(d) * q)
  {
    if d < 0 {
      var b := -d;
      assert (0 - b) * q == 0 - b * q && (0 - b) * (0 - q) == b * q;
    }
  }

  lemma QuotientBounds(a: nat, b: nat)
    requires b > 0
    ensures 0 <= a - b * (a / b) < b
    ensures 0 <= a / b <= a && (a > 0 && a / b == a ==> b == 1)
  {
    var q := a / b;
    assert a == b * q + a % b;
    QuotientSize(a, b, q, a % b);
  }

  lemma QuotientSize(a: nat, b: nat, q: nat, r: nat)
    requires b > 0 && a == b * q + r
    ensures q <= a && (a > 0 && q == a ==> b == 1)
  {
    if b > 1 {
      assert b * q >= 2 * q;
    }
  }

  lemma TruncRange(n: int, d: int)
    requires d != 0 && -0x8000_0000 <= n < 0x8000_0000
    ensures -0x8000_0000 <= TruncDiv(n, d) <= 0x8000_0000
    ensures TruncDiv(n, d) == 0x8000_0000 <==> n == -0x8000_0000 && d == -1
  {
    QuotientBounds(Abs(n), Abs(d));
    if n == -0x8000_0000 && d == -1 {
      SmallQuotients(0x8000_0000, 1);
    }
  }

  /** Computing with registers instead of their signed readings changes a product by a multiple of 2^32. */
  lemma SignedProduct(r0: u32, r1: u32, q: u32, t: int) returns (m: int)
    requires q == Wrap32(t)
    ensures r0 - q * r1 == Signed32(r0) - Signed32(r1) * t + TWO_32 * m
  {
    hide Wrap32;
    var a := WrapDistance(q, t);
    var b := if r0 == Signed32(r0) then 0 else 1;
    var c := if r1 == Signed32(r1) then 0 else 1;
    assert r0 == Signed32(r0) + TWO_32 * b && r1 == Signed32(r1) + TWO_32 * c && q == t + TWO_32 * a;
    m := b - a * r1 - t * c;
    assert q * r1 == t * r1 + TWO_32 * a * r1;
    assert t * r1 == t * Signed32(r1) + TWO_32 * (t * c) by {
      assert c == 0 || c == 1;
    }
    assert TWO_32 * a * r1 == TWO_32 * (a * r1);
  }

  lemma WrapDistance(q: u32, t: int) returns (a: int)
    requires q == Wrap32(t)
    ensures q == t + TWO_32 * a
  {
    a := -(t / TWO_32);
  }

  /** The word that multiply and subtract leave reads as the signed remainder. */
  lemma RemainderWord(r0: u32, r1: u32, q: u32)
    requires r1 != 0 ==> q == Wrap32(TruncDiv(Signed32(r0), Signed32(r1)))
    requires r1 == 0 ==> q == 0
    ensures var r := Wrap32(r0 - Wrap32(q * r1));
      && (r1 == 0 ==> r == r0)
      && (r1 != 0 ==> Remains(Signed32(r0), Signed32(r1), Signed32(r)))
      && (r1 != 0 ==>
        (Signed32(r0) == Signed32(r1) * Signed32(q) + Signed32(r) <==> !(r0 == 0x8000_0000 && r1 == 0xffff_ffff)))
  {
    hide TruncDiv, Remains;
    if r1 != 0 {
      var n, d := Signed32(r0), Signed32(r1);
      var t := TruncDiv(n, d);
      TruncRemains(n, d);
      TruncRange(n, d);
      SmallRemainder(r0, r1, q, t);
      QuotientReads(q, t);
      if n == -0x8000_0000 && d == -1 {
        assert Signed32(q) == -0x8000_0000;
      }
    }
  }

  lemma QuotientReads(q: u32, t: int)
    requires q == Wrap32(t) && -0x8000_0000 <= t <= 0x8000_0000
    ensures Signed32(q) == if t == 0x8000_0000 then -0x8000_0000 else t
  {
  }

  lemma SmallRemainder(r0: u32, r1: u32, q: u32, t: int)
    requires r1 != 0 && q == Wrap32(t) && Remains(Signed32(r0), Signed32(r1), Signed32(r0) - Signed32(r1) * t)
    ensures Signed32(Wrap32(r0 - Wrap32(q * r1))) == Signed32(r0) - Signed32(r1) * t
  {
    hide TruncDiv, Wrap32;
    var s := Signed32(r0) - Signed32(r1) * t;
    var m := SignedProduct(r0, r1, q, t);
    var a := WrapDistance(Wrap32(q * r1), q * r1);
    ReadsBack(s, m - a, r0 - Wrap32(q * r1));
  }

  lemma ReadsBack(s: int, m: int, x: int)
    requires -0x8000_0000 <= s < 0x8000_0000 && x == s + TWO_32 * m
    ensures Signed32(Wrap32(x)) == s
  {
  }

  lemma ResignSmall()
    ensures Resign(true, 0) == 0 && Resign(true, 1) == 0xffff_ffff
  {
  }

  /** Division by 1 or -1 works on the signed dividend itself. */
  lemma ByOne(r0: u32, r1: u32)
    requires Magnitude(r1) == 1
    ensures Resign(Signed32(r1) < 0, r0) == Wrap32(TruncDiv(Signed32(r0), Signed32(r1)))
  {
  }

  // ---------- 64-by-32-bit division ----------

  /** The state of __div64_32 once the divisor is shifted up: `b` is `base` times the bit `d`. */
  ghost predicate Long(n: nat, base: nat, rem: nat, res: nat, b: nat, d: nat) {
    b == base * d && IsPow2(d) && n == res * base + rem
  }

  lemma LongStep(n: nat, base: nat, rem: nat, res: nat, b: nat, d: nat)
    requires Long(n, base, rem, res, b, d)
    ensures rem >= b ==> Long(n, base, rem - b, res + d, b, d)
    ensures d > 1 ==> Long(n, base, rem, res, b / 2, d / 2) && b == 2 * (b / 2)
    ensures d >= 1 && (d / 2 == 0 ==> d == 1 && b == base)
  {
    SumOfPow2(d);
    assert (res + d) * base == res * base + base * d;
    if d > 1 {
      var h := d / 2;
      assert d == 2 * h;
      assert base * d == 2 * (base * h);
    }
  }

  lemma LongDouble(n: nat, base: nat, rem: nat, res: nat, b: nat, d: nat)
    requires Long(n, base, rem, res, b, d) && base > 0
    ensures Long(n, base, rem, res, b + b, d + d) && d <= b
  {
    SumOfPow2(d);
    hide IsPow2;
    AtLeastOnce(base, d);
  }

  /** "Reduce the thing a bit first": the quotient of the high halves. */
  method ReduceHigh(n: u64, base: u32) returns (res: u64, rem: u64)
    requires base > 0
    ensures n == res * base + rem
  {
    rem, res := n, 0;
    var high: u32 := rem / TWO_32;
    if high >= base {
      var h := UDivSi3(high, base);
      HighPart(n, high, base);
      WrapKept(h * base);
      res := h * TWO_32;
      rem := rem - Wrap32(h * base) * TWO_32;
    }
  }

  lemma LongStart(n: nat, base: nat, rem: nat, res: nat)
    requires n == res * base + rem
    ensures Long(n, base, rem, res, base, 1)
  {
  }

  lemma Wrap64Kept(x: int)
    requires 0 <= x < TWO_64
    ensures Wrap64(x) == x
  {
  }

  /** __div64_32: quotient and remainder.  No step overflows: the doublings stay below 2^64, and the
      quotient never exceeds the dividend. */
  method Div64By32(n: u64, base: u32) returns (res: u64, rem: u64)
    requires base > 0
    ensures res == n / base && rem == n % base
  {
    hide Long, Wrap64;
    res, rem := ReduceHigh(n, base);
    var b: u64, d: u64 := base, 1;
    LongStart(n, base, rem, res);
    while b < 0x8000_0000_0000_0000 && b < rem
      invariant Long(n, base, rem, res, b, d) && b > 0
      decreases TWO_64 - b
    {
      LongDouble(n, base, rem, res, b, d);
      Wrap64Kept(b + b);
      Wrap64Kept(d + d);
      b, d := Wrap64(b + b), Wrap64(d + d);
    }
    while true
      invariant Long(n, base, rem, res, b, d) && rem < 2 * b && b > 0
      decreases d
    {
      LongStep(n, base, rem, res, b, d);
      LongFits(n, base, rem, res, b, d);
      if rem >= b {
        rem := rem - b;
        res := res + d;
      }
      LongStep(n, base, rem, res, b, d);
      if d / 2 == 0 {
        LongEnd(n, base, rem, res, b, d);
        return;
      }
      b := b / 2;
      d := d / 2;
    }
  }

  /** The quotient so far, with the bit in use, is at most the dividend. */
  lemma LongFits(n: nat, base: nat, rem: nat, res: nat, b: nat, d: nat)
    requires Long(n, base, rem, res, b, d) && base > 0
    ensures rem >= b ==> res + d <= n
  {
    if rem >= b {
      var t := res + d;
      assert base * t == base * res + base * d;
      AtLeastOnce(base, t);
    }
  }

  lemma LongEnd(n: nat, base: nat, rem: nat, res: nat, b: nat, d: nat)
    requires Long(n, base, rem, res, b, d) && d == 1 && rem < b
    ensures res == n / base && rem == n % base
  {
    DivideExactly(n, base, res, rem);
  }

  /** Taking the quotient of the high halves out first. */
  lemma HighPart(n: u64, high: u32, base: u32)
    requires base > 0 && high == n / TWO_32
    ensures var h := high / base;
      && h * base <= high && h * TWO_32 < TWO_64 && h * base * TWO_32 <= n
      && n == h * TWO_32 * base + (n - h * base * TWO_32)
  {
    var h := high / base;
    assert high == base * h + high % base;
    assert h * base <= high;
    assert h * base * TWO_32 <= high * TWO_32;
  }

  /** do_div: the quotient replaces the dividend and the remainder is the value.  Dividends of at most
      32 bits take the 32-bit routine. */
  method DoDiv(n: u64, base: u32) returns (q: u64, rem: u32)
    requires base > 0
    ensures q == n / base && rem == n % base
  {
    if n / TWO_32 == 0 {
      q, rem := UIDivMod(n, base);
    } else {
      var r;
      q, r := Div64By32(n, base);
      rem := r;
    }
  }
}
