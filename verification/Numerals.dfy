/** Numerals as strings: what a number's digits are, independent of how the library computes them. */
module Numerals {
  import opened Ctype
  import Words

  function DigitChar(d: nat, small: bool): char
    requires d < 16
  {
    if d < 10 then ('0' as int + d) as char
    else if small then ('a' as int + (d - 10)) as char
    else ('A' as int + (d - 10)) as char
  }

  /** The value of a digit character, of either case. */
  function DigitOf(c: char): (d: nat)
    requires IsXDigit(c)
    ensures d < 16
  {
    if IsDigit(c) then c as int - '0' as int
    else if c <= 'F' then c as int - 'A' as int + 10
    else c as int - 'a' as int + 10
  }

  predicate IsDigitOf(c: char, base: nat) {
    IsXDigit(c) && DigitOf(c) < base
  }

  predicate AllDigits(s: string, base: nat) {
    forall k | 0 <= k < |s| :: IsDigitOf(s[k], base)
  }

  /** Horner's value of a digit string, most significant digit first. */
  function Value(s: string, base: nat): nat
    requires AllDigits(s, base)
  {
    if s == "" then 0
    else
      var v := Value(s[..|s| - 1], base);
      ProductIsNat(v, base);
      v * base + DigitOf(s[|s| - 1])
  }

  lemma ProductIsNat(a: nat, b: nat)
    ensures a * b >= 0
  {
  }

  /** The numeral of `n`, most significant digit first. */
  function Numeral(n: nat, base: nat, small: bool): (s: string)
    requires 2 <= base <= 16
    ensures |s| >= 1
  {
    if n < base then [DigitChar(n, small)]
    else QuotientSmaller(n, base); Numeral(n / base, base, small) + [DigitChar(n % base, small)]
  }

  lemma QuotientSmaller(n: nat, base: nat)
    requires base >= 2 && n > 0
    ensures n / base < n
  {
    Divide(n, base);
    TwiceAtLeast(base, n / base);
  }

  lemma Divide(n: nat, base: nat)
    requires base >= 1
    ensures n == (n / base) * base + n % base
  {
  }

  lemma TwiceAtLeast(a: nat, q: nat)
    requires a >= 2
    ensures q * a >= 2 * q
  {
    assert q * a == 2 * q + q * (a - 2);
  }

  function Pow(b: nat, k: nat): nat {
    if k == 0 then 1 else b * Pow(b, k - 1)
  }

  /** `s` is a way of writing `n`: digits of the base in one case, of that value, without leading zeros. */
  predicate Writes(s: string, n: nat, base: nat, small: bool) {
    && |s| >= 1
    && AllDigits(s, base)
    && Value(s, base) == n
    && (|s| > 1 ==> s[0] != '0')
    && OfCase(s, small)
  }

  lemma DigitRoundTrip(d: nat, small: bool, base: nat)
    requires d < base <= 16
    ensures IsDigitOf(DigitChar(d, small), base) && DigitOf(DigitChar(d, small)) == d
    ensures DigitChar(d, small) == '0' <==> d == 0
  {
  }

  predicate OfCase(s: string, small: bool) {
    forall k | 0 <= k < |s| :: IsXDigit(s[k]) && s[k] == DigitChar(DigitOf(s[k]), small)
  }

  lemma SplitLast(t: string, c: char, base: nat, small: bool)
    ensures AllDigits(t + [c], base) <==> AllDigits(t, base) && IsDigitOf(c, base)
    ensures OfCase(t + [c], small) <==> OfCase(t, small) && IsXDigit(c) && c == DigitChar(DigitOf(c), small)
    ensures AllDigits(t + [c], base) ==> Value(t + [c], base) == Value(t, base) * base + DigitOf(c)
  {
    var s := t + [c];
    assert s[..|s| - 1] == t && s[|s| - 1] == c;
    assert forall k | 0 <= k < |t| :: s[k] == t[k];
  }

  lemma WritesStep(t: string, c: char, n: nat, base: nat, small: bool)
    requires 2 <= base <= 16 && |t| >= 1
    ensures Writes(t + [c], n, base, small)
      <==> Writes(t, n / base, base, small) && t[0] != '0' && c == DigitChar(n % base, small)
  {
    SplitLast(t, c, base, small);
    DigitRoundTrip(n % base, small, base);
    hide AllDigits, OfCase, Value;
    if Writes(t + [c], n, base, small) {
      PeelValue(Value(t, base), base, DigitOf(c), n);
    }
    Divide(n, base);
  }

  lemma PeelValue(v: nat, base: nat, d: nat, n: nat)
    requires n == v * base + d && d < base
    ensures n / base == v && n % base == d
  {
    Words.DivideExactly(n, base, v, d);
  }

  lemma {:induction false} NumeralWrites(n: nat, base: nat, small: bool)
    requires 2 <= base <= 16
    ensures Writes(Numeral(n, base, small), n, base, small)
    decreases n
  {
    if n < base {
      OneDigit(n, base, small);
    } else {
      QuotientSmaller(n, base);
      QuotientPositive(n, base);
      var v := Numeral(n / base, base, small);
      NumeralWrites(n / base, base, small);
      NotZeroFirst(v, n / base, base, small);
      WritesStep(v, DigitChar(n % base, small), n, base, small);
    }
  }

  lemma NumeralStep(n: nat, base: nat, small: bool)
    requires 2 <= base <= 16
    ensures 0 <= n / base && 0 <= n % base < base
    ensures n < base ==> Numeral(n, base, small) == [DigitChar(n, small)] && n / base == 0
    ensures n >= base ==> Numeral(n, base, small) == Numeral(n / base, base, small) + [DigitChar(n % base, small)]
  {
    if n < base {
      PeelValue(0, base, n, n);
    }
  }

  lemma OneDigitOnly(s: string, n: nat, base: nat, small: bool)
    requires 2 <= base <= 16 && Writes(s, n, base, small)
    ensures |s| == 1 ==> n < base && s == [DigitChar(n, small)]
  {
    if |s| == 1 {
      OneDigitValue(s, base);
    }
  }

  /** The numeral is the one and only way of writing a number. */
  lemma {:induction false} NumeralIsCanonical(s: string, n: nat, base: nat, small: bool)
    requires 2 <= base <= 16
    ensures Writes(s, n, base, small) <==> s == Numeral(n, base, small)
    decreases |s|
  {
    NumeralWrites(n, base, small);
    NumeralStep(n, base, small);
    NumeralStep(0, base, small);
    if Writes(s, n, base, small) {
      OneDigitOnly(s, n, base, small);
      if |s| > 1 {
        var t := s[..|s| - 1];
        assert t + [s[|s| - 1]] == s;
        WritesStep(t, s[|s| - 1], n, base, small);
        hide Writes, Numeral;
        NumeralIsCanonical(t, n / base, base, small);
      }
    }
  }

  lemma OneDigitValue(s: string, base: nat)
    requires |s| == 1 && AllDigits(s, base)
    ensures Value(s, base) == DigitOf(s[0]) < base
  {
    assert s[..0] == "";
    assert Value("", base) == 0;
  }

  lemma QuotientPositive(n: nat, base: nat)
    requires n >= base >= 1
    ensures n / base > 0
  {
    assert n == base * (n / base) + n % base;
  }

  lemma OneDigit(n: nat, base: nat, small: bool)
    requires 2 <= base <= 16 && n < base
    ensures Writes([DigitChar(n, small)], n, base, small)
  {
    DigitRoundTrip(n, small, base);
    OneDigitValue([DigitChar(n, small)], base);
  }

  lemma NotZeroFirst(s: string, n: nat, base: nat, small: bool)
    requires 2 <= base <= 16 && n > 0 && Writes(s, n, base, small)
    ensures s[0] != '0'
  {
    if |s| == 1 {
      OneDigitValue(s, base);
    }
  }

  /** How many digits a number takes. */
  lemma {:induction false} NumeralLength(n: nat, base: nat, small: bool, k: nat)
    requires 2 <= base <= 16 && k >= 1
    ensures |Numeral(n, base, small)| <= k <==> n < Pow(base, k)
    decreases k
  {
    if k == 1 {
      assert Pow(base, 1) == base * Pow(base, 0) == base;
    } else {
      NumeralLengthStep(n, base, small, k);
      QuotientSmallerOrEqual(n, base);
      NumeralLength(n / base, base, small, k - 1);
      QuotientBelow(n, base, Pow(base, k - 1));
      PowAtLeast(base, k);
    }
  }

  lemma QuotientSmallerOrEqual(n: nat, base: nat)
    requires base >= 2
    ensures 0 <= n / base <= n
  {
    if n > 0 {
      QuotientSmaller(n, base);
    }
  }

  lemma NumeralLengthStep(n: nat, base: nat, small: bool, k: nat)
    requires 2 <= base <= 16 && k >= 2
    ensures n < base ==> |Numeral(n, base, small)| <= k
    ensures n >= base ==> 0 <= n / base < n && |Numeral(n, base, small)| == |Numeral(n / base, base, small)| + 1
  {
    if n >= base {
      QuotientSmaller(n, base);
    }
  }

  lemma {:induction false} PowAtLeast(base: nat, k: nat)
    requires base >= 2
    ensures Pow(base, k) >= 1 && (k >= 1 ==> Pow(base, k) >= base)
    decreases k
  {
    if k > 0 {
      PowAtLeast(base, k - 1);
      AtLeast(base, Pow(base, k - 1));
    }
  }

  lemma AtLeast(a: nat, b: nat)
    requires b >= 1
    ensures a * b >= a
  {
  }

  lemma QuotientBelow(n: nat, base: nat, p: nat)
    requires base >= 1
    ensures n / base < p <==> n < base * p
  {
    var q := n / base;
    Divide(n, base);
    if q < p {
      Grows(base, q + 1, p);
    } else {
      Grows(base, p, q);
    }
  }

  lemma Grows(a: nat, b: nat, c: nat)
    requires b <= c
    ensures b * a <= c * a && a * b == b * a && a * c == c * a && (b >= 1 ==> (b - 1) * a == b * a - a)
  {
    assert (c - b) * a == c * a - b * a;
  }

  function Reverse(s: string): (r: string)
    ensures |r| == |s|
    ensures forall k | 0 <= k < |s| :: r[k] == s[|s| - 1 - k]
  {
    if s == "" then "" else [s[|s| - 1]] + Reverse(s[..|s| - 1])
  }

  /** The end of the run of digits that starts at `i`. */
  function RunEnd(s: string, i: nat, base: nat): (j: nat)
    requires i <= |s|
    ensures i <= j <= |s| && AllDigits(s[i..j], base)
    ensures !IsDigitOf(At(s, j), base)
    decreases |s| - i
  {
    if i < |s| && IsDigitOf(s[i], base) then
      var j := RunEnd(s, i + 1, base);
      assert s[i..j] == [s[i]] + s[i + 1..j];
      j
    else i
  }

  /** Starting inside the run leads to the same end. */
  lemma {:induction false} RunSoFar(s: string, i: nat, k: nat, base: nat)
    requires i <= k <= |s| && AllDigits(s[i..k], base)
    ensures RunEnd(s, k, base) == RunEnd(s, i, base)
    decreases k - i
  {
    if i < k {
      assert s[i] == s[i..k][0];
      assert s[i + 1..k] == s[i..k][1..];
      RunSoFar(s, i + 1, k, base);
    }
  }

  lemma RunOver(s: string, k: nat, base: nat)
    requires k <= |s| && !IsDigitOf(At(s, k), base)
    ensures RunEnd(s, k, base) == k
  {
  }

  /** Reading further never lowers the value. */
  lemma {:induction false} PrefixValue(s: string, k: nat, base: nat)
    requires AllDigits(s, base) && k <= |s| && base >= 1
    ensures AllDigits(s[..k], base) && Value(s[..k], base) <= Value(s, base)
    decreases |s| - k
  {
    if k < |s| {
      PrefixValue(s, k + 1, base);
      ValueStep(s, k, base);
      AtLeast(Value(s[..k], base), base);
    } else {
      assert s[..k] == s;
    }
  }

  lemma ValueStep(s: string, k: nat, base: nat)
    requires AllDigits(s, base) && k < |s|
    ensures AllDigits(s[..k], base) && AllDigits(s[..k + 1], base)
    ensures Value(s[..k + 1], base) == Value(s[..k], base) * base + DigitOf(s[k])
  {
    assert s[..k + 1][..k] == s[..k];
  }
}
