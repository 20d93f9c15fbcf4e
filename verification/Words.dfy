/** Machine words as natural numbers: bitwise operators, shifts and wrap-around. */
module Words {

  const TWO_32: nat := 0x1_0000_0000
  const TWO_64: nat := 0x1_0000_0000_0000_0000

  type u32 = x: int | 0 <= x < TWO_32
  type u64 = x: int | 0 <= x < TWO_64

  /** Truncation to 32 bits, also of a negative (borrowing) result. */
  function Wrap32(x: int): u32 {
    x % TWO_32
  }

  lemma WrapKept(x: int)
    requires 0 <= x < TWO_32
    ensures Wrap32(x) == x
  {
  }

  function Wrap64(x: int): u64 {
    x % TWO_64
  }

  /** The signed reading of a 32-bit word. */
  function Signed32(x: u32): int {
    if x < 0x8000_0000 then x else x - TWO_32
  }

  function Signed64(x: u64): int {
    if x < 0x8000_0000_0000_0000 then x else x - TWO_64
  }

  function Pow2(k: nat): (p: nat)
    ensures p > 0
  {
    if k == 0 then 1 else 2 * Pow2(k - 1)
  }

  /** Bit `i` of `m`. */
  predicate Bit(m: nat, i: nat)
    decreases i
  {
    if i == 0 then m % 2 == 1 else Bit(m / 2, i - 1)
  }

  function Or(a: nat, b: nat): nat
    decreases a + b
  {
    if a == 0 && b == 0 then 0 else 2 * Or(a / 2, b / 2) + if a % 2 == 1 || b % 2 == 1 then 1 else 0
  }

  function And(a: nat, b: nat): nat
    decreases a + b
  {
    if a == 0 && b == 0 then 0 else 2 * And(a / 2, b / 2) + if a % 2 == 1 && b % 2 == 1 then 1 else 0
  }

  function Xor(a: nat, b: nat): nat
    decreases a + b
  {
    if a == 0 && b == 0 then 0 else 2 * Xor(a / 2, b / 2) + if a % 2 != b % 2 then 1 else 0
  }

  /** `~m` on 32 bits. */
  function Not32(m: u32): u32 {
    TWO_32 - 1 - m
  }

  /** `m >> k`. */
  function Shr(m: nat, k: nat): nat
    decreases k
  {
    if k == 0 then m else Shr(m / 2, k - 1)
  }

  lemma SmallWidths()
    ensures Pow2(1) == 2 && Pow2(2) == 4 && Pow2(4) == 0x10 && Pow2(8) == 0x100 && Pow2(16) == 0x1_0000
  {
    assert Pow2(4) == 0x10;
    assert Pow2(8) == 0x100;
  }

  lemma Widths()
    ensures Pow2(32) == TWO_32 && Pow2(64) == TWO_64
  {
    assert Pow2(8) == 0x100;
    assert Pow2(16) == 0x1_0000;
    assert Pow2(24) == 0x100_0000;
    assert Pow2(32) == 0x1_0000_0000;
    assert Pow2(40) == 0x100_0000_0000;
    assert Pow2(48) == 0x1_0000_0000_0000;
    assert Pow2(56) == 0x100_0000_0000_0000;
  }

  function SetBit(m: nat, i: nat): nat {
    Or(m, Pow2(i))
  }

  function ClearBit(m: nat, i: nat): nat
    requires i < 32
  {
    Pow2Mono(i, 32);
    Widths();
    And(m, Not32(Pow2(i)))
  }

  /** The operators on words stay words. */
  function Or32(a: u32, b: u32): u32 {
    Widths();
    OrBelow(a, b, 32);
    Or(a, b)
  }

  function And32(a: u32, b: u32): u32 {
    AndBelow(a, b);
    And(a, b)
  }

  lemma {:induction false} Pow2Mono(i: nat, j: nat)
    requires i < j
    ensures Pow2(i) < Pow2(j)
    decreases j
  {
    if i < j - 1 {
      Pow2Mono(i, j - 1);
    }
  }

  lemma {:induction false} BitOfZero(i: nat)
    ensures !Bit(0, i)
  {
    if i > 0 {
      BitOfZero(i - 1);
    }
  }

  lemma {:induction false} BitOr(a: nat, b: nat, i: nat)
    ensures Bit(Or(a, b), i) == (Bit(a, i) || Bit(b, i))
    decreases i
  {
    if a == 0 && b == 0 {
      BitOfZero(i);
    } else if i > 0 {
      assert Or(a, b) / 2 == Or(a / 2, b / 2);
      BitOr(a / 2, b / 2, i - 1);
    }
  }

  lemma {:induction false} BitAnd(a: nat, b: nat, i: nat)
    ensures Bit(And(a, b), i) == (Bit(a, i) && Bit(b, i))
    decreases i
  {
    if a == 0 && b == 0 {
      BitOfZero(i);
    } else if i > 0 {
      assert And(a, b) / 2 == And(a / 2, b / 2);
      BitAnd(a / 2, b / 2, i - 1);
    }
  }

  lemma {:induction false} BitXor(a: nat, b: nat, i: nat)
    ensures Bit(Xor(a, b), i) == (Bit(a, i) != Bit(b, i))
    decreases i
  {
    if a == 0 && b == 0 {
      BitOfZero(i);
    } else if i > 0 {
      assert Xor(a, b) / 2 == Xor(a / 2, b / 2);
      BitXor(a / 2, b / 2, i - 1);
    }
  }

  lemma {:induction false} BitOfPow2(k: nat, i: nat)
    ensures Bit(Pow2(k), i) == (i == k)
    decreases i
  {
    if k == 0 {
      if i > 0 {
        assert Pow2(k) / 2 == 0;
        BitOfZero(i - 1);
      }
    } else if i > 0 {
      assert Pow2(k) / 2 == Pow2(k - 1);
      BitOfPow2(k - 1, i - 1);
    }
  }

  /** Bits of a complement below a power of two. */
  lemma {:induction false} BitOfComplement(m: nat, n: nat, i: nat)
    requires m < Pow2(n) && i < n
    ensures Bit(Pow2(n) - 1 - m, i) == !Bit(m, i)
    decreases i
  {
    var p := Pow2(n - 1);
    assert Pow2(n) == 2 * p;
    assert (2 * p - 1 - m) % 2 == 1 - m % 2;
    if i > 0 {
      assert (2 * p - 1 - m) / 2 == p - 1 - m / 2;
      BitOfComplement(m / 2, n - 1, i - 1);
    }
  }

  lemma {:induction false} NoHighBit(m: nat, n: nat, i: nat)
    requires m < Pow2(n) && n <= i
    ensures !Bit(m, i)
    decreases i
  {
    if n == 0 {
      BitOfZero(i);
    } else {
      NoHighBit(m / 2, n - 1, i - 1);
    }
  }

  /** A number is determined by its bits. */
  lemma {:induction false} SameBits(a: nat, b: nat)
    requires forall i: nat :: Bit(a, i) == Bit(b, i)
    ensures a == b
    decreases a + b
  {
    if a != 0 || b != 0 {
      assert Bit(a, 0) == Bit(b, 0);
      forall i: nat ensures Bit(a / 2, i) == Bit(b / 2, i) {
        assert Bit(a, i + 1) == Bit(b, i + 1);
      }
      SameBits(a / 2, b / 2);
    }
  }

  lemma {:induction false} BitOfShr(m: nat, k: nat, i: nat)
    ensures Bit(Shr(m, k), i) == Bit(m, i + k)
    decreases k
  {
    if k > 0 {
      BitOfShr(m / 2, k - 1, i);
    }
  }

  lemma DivideExactly(m: nat, d: nat, q: nat, r: nat)
    requires m == d * q + r && r < d
    ensures m / d == q && m % d == r
  {
    var u := m / d - q;
    assert d * u == d * (m / d) - d * q == r - m % d;
    assert u >= 1 ==> d * u >= d;
    assert u <= -1 ==> d * u + d <= 0;
  }

  /** `(m >> i) & 1` is bit `i`. */
  lemma ShiftAndTest(m: nat, i: nat)
    ensures And(Shr(m, i), 1) == if Bit(m, i) then 1 else 0
  {
    BitOfShr(m, i, 0);
    var s := Shr(m, i);
    assert And(s / 2, 0) == 0 by {
      AndZero(s / 2);
    }
    assert 1 / 2 == 0;
  }

  lemma {:induction false} AndZero(a: nat)
    ensures And(a, 0) == 0
    decreases a
  {
    if a > 0 {
      AndZero(a / 2);
    }
  }

  lemma BitAfterSet(m: nat, i: nat, j: nat)
    ensures Bit(SetBit(m, i), j) == (i == j || Bit(m, j))
  {
    BitOr(m, Pow2(i), j);
    BitOfPow2(i, j);
  }

  lemma BitAfterClear(m: nat, i: nat, j: nat)
    requires i < 32 && j < 32
    ensures Bit(ClearBit(m, i), j) == (i != j && Bit(m, j))
  {
    Pow2Mono(i, 32);
    Widths();
    BitAnd(m, Not32(Pow2(i)), j);
    BitOfComplement(Pow2(i), 32, j);
    BitOfPow2(i, j);
  }

  lemma {:induction false} OrBelow(a: nat, b: nat, n: nat)
    requires a < Pow2(n) && b < Pow2(n)
    ensures Or(a, b) < Pow2(n)
    decreases n
  {
    if n > 0 && !(a == 0 && b == 0) {
      OrBelow(a / 2, b / 2, n - 1);
    }
  }

  lemma {:induction false} AndBelow(a: nat, b: nat)
    ensures And(a, b) <= a
    decreases a + b
  {
    if a != 0 || b != 0 {
      AndBelow(a / 2, b / 2);
    }
  }

  lemma NoBitMeansZero(m: nat)
    requires m < TWO_32 && forall i: nat | i < 32 :: !Bit(m, i)
    ensures m == 0
  {
    Widths();
    forall i: nat ensures Bit(m, i) == Bit(0, i) {
      BitOfZero(i);
      if i >= 32 {
        NoHighBit(m, 32, i);
      }
    }
    SameBits(m, 0);
  }

  /** Masking with `n` low bits keeps a number of at most `n` bits. */
  lemma {:induction false} AndLowBits(m: nat, n: nat)
    requires m < Pow2(n)
    ensures And(m, Pow2(n) - 1) == m
    decreases n
  {
    if n == 0 {
      assert And(0, 0) == 0;
    } else {
      assert (Pow2(n) - 1) / 2 == Pow2(n - 1) - 1;
      AndLowBits(m / 2, n - 1);
    }
  }

  lemma HalfThenRemainder(m: nat, p: nat)
    requires p > 0
    ensures m % (2 * p) == 2 * ((m / 2) % p) + m % 2
  {
    var q, r := (m / 2) / p, (m / 2) % p;
    assert m / 2 == p * q + r;
    assert m == (2 * p) * q + (2 * r + m % 2);
    DivideExactly(m, 2 * p, q, 2 * r + m % 2);
  }

  lemma AndStep(a: nat, b: nat)
    ensures And(a, 2 * b + 1) == 2 * And(a / 2, b) + a % 2
  {
  }

  /** Masking with `n` low bits is the remainder. */
  lemma {:induction false} AndIsMod(m: nat, n: nat)
    ensures And(m, Pow2(n) - 1) == m % Pow2(n)
    decreases n
  {
    hide And;
    if n == 0 {
      AndZero(m);
      DivideExactly(m, 1, m, 0);
    } else {
      AndIsMod(m / 2, n - 1);
      AndStep(m, Pow2(n - 1) - 1);
      HalfThenRemainder(m, Pow2(n - 1));
    }
  }

  /** `b << k`. */
  function Shl(b: nat, k: nat): nat
    decreases k
  {
    if k == 0 then b else 2 * Shl(b, k - 1)
  }

  /** Masking with a mask of high bits looks at the high bits only. */
  lemma {:induction false} AndHighBits(a: nat, b: nat, k: nat)
    ensures And(a, Shl(b, k)) == Shl(And(Shr(a, k), b), k)
    decreases k
  {
    if k > 0 {
      var c := Shl(b, k - 1);
      AndHighBits(a / 2, b, k - 1);
      assert And(a, 2 * c) == 2 * And(a / 2, c) by {
        assert 2 * c / 2 == c;
        if a == 0 && c == 0 {
          assert And(0, 0) == 0;
        }
      }
    }
  }

  lemma {:induction false} ShlIsZero(b: nat, k: nat)
    ensures Shl(b, k) == 0 <==> b == 0
    decreases k
  {
    if k > 0 {
      ShlIsZero(b, k - 1);
    }
  }

  lemma HalfThenDivide(m: nat, p: nat)
    requires p > 0
    ensures (m / 2) / p == m / (2 * p)
  {
    var q, r := (m / 2) / p, (m / 2) % p;
    assert m / 2 == p * q + r;
    assert m == (2 * p) * q + (2 * r + m % 2);
    DivideExactly(m, 2 * p, q, 2 * r + m % 2);
  }

  lemma {:induction false} ShrIsQuotient(m: nat, k: nat)
    ensures Shr(m, k) == m / Pow2(k)
    decreases k
  {
    if k > 0 {
      ShrIsQuotient(m / 2, k - 1);
      HalfThenDivide(m, Pow2(k - 1));
    }
  }

  /** The highest bit tells which half of the range a number is in. */
  lemma {:induction false} TopBit(m: nat, n: nat)
    requires m < Pow2(n + 1)
    ensures Bit(m, n) <==> m >= Pow2(n)
    decreases n
  {
    if n == 0 {
      assert Pow2(0) == 1 && Pow2(1) == 2;
    } else {
      TopBit(m / 2, n - 1);
    }
  }

  lemma {:induction false} XorBelow(a: nat, b: nat, n: nat)
    requires a < Pow2(n) && b < Pow2(n)
    ensures Xor(a, b) < Pow2(n)
    decreases n
  {
    if n > 0 && !(a == 0 && b == 0) {
      XorBelow(a / 2, b / 2, n - 1);
    }
  }

  function Xor32(a: u32, b: u32): u32 {
    Widths();
    XorBelow(a, b, 32);
    Xor(a, b)
  }

  /** A word is negative as a signed number when its highest bit is set; the exclusive or of two words
      is negative when their signs differ. */
  lemma XorSign(a: u32, b: u32)
    ensures Signed32(Xor32(a, b)) < 0 <==> (Signed32(a) < 0) != (Signed32(b) < 0)
  {
    Widths();
    assert Pow2(31) == 0x8000_0000 by {
      assert Pow2(32) == 2 * Pow2(31);
    }
    TopBit(a, 31);
    TopBit(b, 31);
    TopBit(Xor32(a, b), 31);
    BitXor(a, b, 31);
  }
}
