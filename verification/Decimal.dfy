/** Decimal conversion without division (put_dec and its helpers, lib/vsprintf.c). */
module Decimal {
  import opened Words
  import opened Numerals
  import Division

  /** `s` with `text` laid over it from index `at`. */
  function Over(s: string, at: nat, text: string): string
    requires at + |text| <= |s|
  {
    s[..at] + text + s[at + |text|..]
  }

  /** `s` is `start` with the first characters of `whole` laid over it from `at` up to `buf`; `more` of
      `whole` is still to come. */
  predicate Going(s: string, start: string, at: nat, buf: nat, whole: string, more: string) {
    && at <= buf <= at + |whole| <= |start|
    && more == whole[buf - at..]
    && s == Over(start, at, whole[..buf - at])
  }

  function Cons(d: nat, more: string): string
    requires d < 10
  {
    [DigitChar(d, false)] + more
  }

  lemma GoingStarts(start: string, at: nat, whole: string)
    requires at + |whole| <= |start|
    ensures Going(start, start, at, at, whole, whole)
  {
  }

  lemma GoingEnds(s: string, start: string, at: nat, buf: nat, whole: string)
    requires Going(s, start, at, buf, whole, "")
    ensures buf == at + |whole| && s == Over(start, at, whole)
  {
    assert whole[..buf - at] == whole;
  }

  lemma GoingOn(s: string, start: string, at: nat, buf: nat, whole: string, d: nat, more: string)
    requires d < 10 && Going(s, start, at, buf, whole, Cons(d, more))
    ensures buf < |s| == |start| && Going(s[buf := DigitChar(d, false)], start, at, buf + 1, whole, more)
  {
    assert whole[buf - at] == Cons(d, more)[0];
    assert whole[buf - at..][1..] == whole[buf + 1 - at..];
  }

  /** The lowest `k` decimal digits of `q`, least significant first. */
  function LowDigits(q: nat, k: nat): (s: string)
    ensures |s| == k
  {
    if k == 0 then "" else [DigitChar(q % 10, false)] + LowDigits(q / 10, k - 1)
  }

  /** The decimal numeral of `n` as it is generated: least significant digit first. */
  function Backwards(n: nat): string {
    Reverse(Numeral(n, 10, false))
  }

  lemma BackwardsStep(n: nat)
    ensures Backwards(n) == if n < 10 then [DigitChar(n, false)] else [DigitChar(n % 10, false)] + Backwards(n / 10)
  {
    if n >= 10 {
      var s := Numeral(n, 10, false);
      assert s[..|s| - 1] == Numeral(n / 10, 10, false);
    } else {
      assert Numeral(n, 10, false)[..0] == "";
    }
  }

  /** Cutting five digits off a number that has more. */
  lemma {:induction false} CutDigits(n: nat, k: nat, p: nat)
    requires p == Pow(10, k) && n >= p >= 1
    ensures Backwards(n) == LowDigits(n % p, k) + Backwards(n / p)
    decreases k
  {
    if k == 0 {
      PeelValue(n, 1, 0, n);
    } else {
      var r := Pow(10, k - 1);
      assert p == 10 * r;
      PowAtLeast(10, k - 1);
      BackwardsStep(n);
      Regroup(n, r);
      CutDigits(n / 10, k - 1, r);
    }
  }

  lemma Regroup(n: nat, r: nat)
    requires r >= 1 && n >= 10 * r
    ensures n / 10 >= r && (n / 10) / r == n / (10 * r)
    ensures (n % (10 * r)) % 10 == n % 10 && (n % (10 * r)) / 10 == (n / 10) % r
  {
    var h := n / 10;
    var q, t := h / r, h % r;
    Divide(h, r);
    assert n == q * (10 * r) + (10 * t + n % 10) by {
      assert q * (10 * r) == 10 * (q * r);
    }
    PeelValue(q, 10 * r, 10 * t + n % 10, n);
  }

  // ---------- Multiplication in place of division ----------

  lemma Pow2Of(k: nat)
    requires k in {4, 7, 8, 11, 12}
    ensures Pow2(4) == 16 && Pow2(7) == 128 && Pow2(8) == 256 && Pow2(11) == 2048 && Pow2(12) == 4096
  {
    assert Pow2(8) == 256;
  }

  /** Multiplying by 205 and shifting divides by ten, up to 339 at least. */
  lemma Times205(x: nat)
    requires x <= 339
    ensures Shr(x * 0xcd, 11) == x / 10
  {
    Pow2Of(11);
    ShrIsQuotient(x * 0xcd, 11);
  }

  /** Multiplying by 13 and shifting divides by ten, up to 63; it fails at 69. */
  lemma Times13(x: nat)
    requires x <= 63
    ensures Shr(x * 0xd, 7) == x / 10
  {
    Pow2Of(7);
    ShrIsQuotient(x * 0xd, 7);
  }

  predicate Tenth(d: nat, q: nat, r: nat) {
    d == 10 * q + r && r < 10
  }

  /** One digit step with the long multiplier: quotient and remainder by ten. */
  method Split205(d: u32) returns (q: u32, d': u32)
    requires d <= 339
    ensures Tenth(d, q, d') && d' < 10 && q <= 33
  {
    Times205(d);
    q := Shr(d * 0xcd, 11);
    d' := d - 10 * q;
  }

  /** One digit step with the cheap multiplier. */
  method Split13(d: u32) returns (q: u32, d': u32)
    requires d <= 63
    ensures Tenth(d, q, d') && d' < 10 && q <= 6
  {
    Times13(d);
    q := Shr(d * 0xd, 7);
    d' := d - 10 * q;
  }

  /** A number in columns, with the columns for 10, 100 and 1000 not yet carried. */
  predicate Left4(n: nat, d0: nat, d1: nat, d2: nat, d3: nat) {
    n == d0 + 10 * (9 * d3 + 5 * d2 + d1 + 10 * (2 * d2 + 10 * (4 * d3)))
    && d3 <= 24 && d2 < 16 && d1 < 16 && d0 <= 339 && n < 100000
  }

  predicate Left3(n: nat, d1: nat, d2: nat, d3: nat) {
    n == d1 + 10 * (2 * d2 + 10 * (4 * d3)) && d3 <= 24 && d2 < 16 && d1 <= 339 && n < 10000
  }

  predicate Left2(n: nat, d2: nat, d3: nat) {
    n == d2 + 10 * (4 * d3) && d3 <= 24 && d2 <= 63 && n < 1000
  }

  lemma Carry4(n: nat, d0: nat, d1: nat, d2: nat, d3: nat, q: nat, r: nat) returns (rest: nat)
    requires Left4(n, d0, d1, d2, d3) && Tenth(d0, q, r)
    ensures Tenth(n, rest, r) && Left3(rest, q + 9 * d3 + 5 * d2 + d1, d2, d3)
    ensures q + 9 * d3 + 5 * d2 + d1 <= 339 && (rest == 0 <==> q + 9 * d3 + 5 * d2 + d1 == 0)
  {
    rest := q + 9 * d3 + 5 * d2 + d1 + 10 * (2 * d2 + 10 * (4 * d3));
  }

  lemma Carry3(n: nat, d1: nat, d2: nat, d3: nat, q: nat, r: nat) returns (rest: nat)
    requires Left3(n, d1, d2, d3) && Tenth(d1, q, r)
    ensures Tenth(n, rest, r) && Left2(rest, q + 2 * d2, d3)
    ensures q + 2 * d2 <= 63 && (rest == 0 <==> q + 2 * d2 == 0 && d3 == 0)
  {
    rest := q + 2 * d2 + 10 * (4 * d3);
  }

  lemma Carry1(n: nat, q: nat, r: nat)
    requires Tenth(n, q, r) && n < 100
    ensures q < 10 && Tenth(q, 0, q)
  {
  }

  lemma Carry2(n: nat, d2: nat, d3: nat, q: nat, r: nat)
    requires Left2(n, d2, d3) && Tenth(d2, q, r)
    ensures Tenth(n, q + 4 * d3, r) && q + 4 * d3 < 100
  {
  }

  /** The cheaper multiplier is exact on the two-digit numbers up to 68 and no further. */
  lemma CheapestMultiplierIff(limit: nat)
    ensures (forall x: nat | x <= limit :: Shr(x * 0xd, 7) == x / 10) <==> limit < 69
  {
    Pow2Of(7);
    forall x: nat
      ensures Shr(x * 0xd, 7) == x * 0xd / 128
    {
      ShrIsQuotient(x * 0xd, 7);
    }
    assert Shr(69 * 0xd, 7) == 7;
  }

  lemma HexDigits(q: nat)
    ensures q == 4096 * (q / 4096) + 256 * (q / 256 % 16) + 16 * (q / 16 % 16) + q % 16
  {
    var a := q / 16;
    var b := a / 16;
    PeelValue(b, 256, 16 * (a % 16) + q % 16, q);
    PeelValue(b / 16, 4096, 256 * (b % 16) + 16 * (a % 16) + q % 16, q);
  }

  /** The hexadecimal digits of a number, by shifting and masking. */
  lemma Nibbles(q: nat)
    ensures And(Shr(q, 4), 0xf) == q / 16 % 16 && And(Shr(q, 8), 0xf) == q / 256 % 16
    ensures Shr(q, 12) == q / 4096 && And(q, 0xf) == q % 16
  {
    Pow2Of(4);
    ShrIsQuotient(q, 4);
    ShrIsQuotient(q, 8);
    ShrIsQuotient(q, 12);
    AndIsMod(Shr(q, 4), 4);
    AndIsMod(Shr(q, 8), 4);
    AndIsMod(q, 4);
    hide And, Shr, Pow2;
  }

  /** The digits still to come when `n` is left; none when nothing is left. */
  function Tail(n: nat): string {
    if n == 0 then "" else Backwards(n)
  }

  lemma Peel(n: nat, d: nat, rest: nat)
    requires Tenth(n, rest, d)
    ensures d < 10 && Backwards(n) == Cons(d, Tail(rest)) && (n != 0 ==> Tail(n) == Backwards(n))
  {
    BackwardsStep(n);
    PeelValue(rest, 10, d, n);
  }

  lemma PeelLow(n: nat, d: nat, rest: nat, k: nat)
    requires Tenth(n, rest, d) && k >= 1
    ensures d < 10 && LowDigits(n, k) == Cons(d, LowDigits(rest, k - 1))
  {
    PeelValue(rest, 10, d, n);
  }

  lemma ColumnsAdd(h3: nat, h2: nat, h1: nat, h0: nat)
    requires h2 < 16 && h1 < 16 && h0 < 16 && 4096 * h3 + 256 * h2 + 16 * h1 + h0 < 100000
    ensures Left4(4096 * h3 + 256 * h2 + 16 * h1 + h0, 6 * (h3 + h2 + h1) + h0, h1, h2, h3)
    ensures h3 <= 24 && 6 * (h3 + h2 + h1) + h0 <= 339
  {
  }

  /** The four columns the conversion starts from: 16, 256 and 4096 end in 6. */
  method Columns(q: u32) returns (d0: u32, d1: u32, d2: u32, d3: u32)
    requires q < 100000
    ensures Left4(q, d0, d1, d2, d3) && d3 <= 24 && d2 < 16 && d1 < 16 && d0 <= 339
  {
    hide And, Shr, Left4;
    Nibbles(q);
    HexDigits(q);
    ColumnsAdd(q / 4096, q / 256 % 16, q / 16 % 16, q % 16);
    d1 := And(Shr(q, 4), 0xf);
    d2 := And(Shr(q, 8), 0xf);
    d3 := Shr(q, 12);
    d0 := 6 * (d3 + d2 + d1) + And(q, 0xf);
  }

  /** Stores one digit as a character and moves on. */
  method PutDigit(tmp: array<char>, buf: nat, d: u32, ghost start: string, ghost at: nat, ghost whole: string,
                  ghost more: string)
    returns (buf': nat)
    requires d < 10 && Going(tmp[..], start, at, buf, whole, Cons(d, more))
    modifies tmp
    ensures buf' == buf + 1 && Going(tmp[..], start, at, buf', whole, more)
  {
    GoingOn(tmp[..], start, at, buf, whole, d, more);
    tmp[buf] := (d + '0' as int) as char;
    buf' := buf + 1;
  }

  /** put_dec_trunc: the digits of a number of at most five digits. */
  method PutDecTrunc(tmp: array<char>, buf0: nat, q0: u32) returns (buf: nat)
    requires q0 < 100000 && buf0 + 5 <= tmp.Length
    modifies tmp
    ensures |Backwards(q0)| <= 5 && buf == buf0 + |Backwards(q0)|
    ensures tmp[..] == Over(old(tmp[..]), buf0, Backwards(q0))
  {
    hide Over, Backwards, Tail, Cons, Going, DigitChar, Tenth, Left4, Left3, Left2;
    ghost var start, w := tmp[..], Backwards(q0);
    buf := buf0;
    AtMostFive(q0);
    GoingStarts(start, buf0, w);
    var d0, d1, d2, d3 := Columns(q0);
    ghost var c0 := d0;
    var q;
    q, d0 := Split205(d0);
    ghost var rest := Carry4(q0, c0, d1, d2, d3, q, d0);
    Peel(q0, d0, rest);
    buf := PutDigit(tmp, buf, d0, start, buf0, w, Tail(rest));
    d1 := q + 9 * d3 + 5 * d2 + d1;
    if d1 != 0 {
      ghost var n1, c1 := rest, d1;
      q, d1 := Split205(d1);
      rest := Carry3(n1, c1, d2, d3, q, d1);
      Peel(n1, d1, rest);
      buf := PutDigit(tmp, buf, d1, start, buf0, w, Tail(rest));
      d2 := q + 2 * d2;
      if d2 != 0 || d3 != 0 {
        ghost var c2 := d2;
        q, d2 := Split13(d2);
        Carry2(rest, c2, d3, q, d2);
        Peel(rest, d2, q + 4 * d3);
        rest := q + 4 * d3;
        buf := PutDigit(tmp, buf, d2, start, buf0, w, Tail(rest));
        d3 := q + 4 * d3;
        if d3 != 0 {
          q, d3 := Split205(d3);
          Carry1(rest, q, d3);
          Peel(rest, d3, q);
          rest := q;
          buf := PutDigit(tmp, buf, d3, start, buf0, w, Tail(rest));
          if q != 0 {
            Peel(rest, q, 0);
            rest := 0;
            buf := PutDigit(tmp, buf, q, start, buf0, w, Tail(rest));
          }
        }
      }
    }
    NothingLeft();
    GoingEnds(tmp[..], start, buf0, buf, w);
  }

  lemma NothingLeft()
    ensures Tail(0) == "" && LowDigits(0, 0) == ""
  {
  }

  lemma AtMostFive(q: nat)
    requires q < 100000
    ensures |Backwards(q)| <= 5
  {
    assert Pow(10, 5) == 100000;
    NumeralLength(q, 10, false, 5);
  }

  /** put_dec_full: always five digits. */
  method PutDecFull(tmp: array<char>, buf0: nat, q0: u32) returns (buf: nat)
    requires q0 < 100000 && buf0 + 5 <= tmp.Length
    modifies tmp
    ensures buf == buf0 + 5
    ensures tmp[..] == Over(old(tmp[..]), buf0, LowDigits(q0, 5))
  {
    hide Over, LowDigits, Cons, Going, DigitChar, Tenth, Left4, Left3, Left2;
    ghost var start, w := tmp[..], LowDigits(q0, 5);
    buf := buf0;
    GoingStarts(start, buf0, w);
    var d0, d1, d2, d3 := Columns(q0);
    ghost var c0 := d0;
    var q;
    q, d0 := Split205(d0);
    ghost var rest := Carry4(q0, c0, d1, d2, d3, q, d0);
    PeelLow(q0, d0, rest, 5);
    buf := PutDigit(tmp, buf, d0, start, buf0, w, LowDigits(rest, 4));
    d1 := q + 9 * d3 + 5 * d2 + d1;
    ghost var n1, c1 := rest, d1;
    q, d1 := Split205(d1);
    rest := Carry3(n1, c1, d2, d3, q, d1);
    PeelLow(n1, d1, rest, 4);
    buf := PutDigit(tmp, buf, d1, start, buf0, w, LowDigits(rest, 3));
    d2 := q + 2 * d2;
    ghost var c2 := d2;
    q, d2 := Split13(d2);
    Carry2(rest, c2, d3, q, d2);
    PeelLow(rest, d2, q + 4 * d3, 3);
    rest := q + 4 * d3;
    buf := PutDigit(tmp, buf, d2, start, buf0, w, LowDigits(rest, 2));
    d3 := q + 4 * d3;
    q, d3 := Split205(d3);
    Carry1(rest, q, d3);
    PeelLow(rest, d3, q, 2);
    buf := PutDigit(tmp, buf, d3, start, buf0, w, LowDigits(q, 1));
    PeelLow(q, q, 0, 1);
    buf := PutDigit(tmp, buf, q, start, buf0, w, LowDigits(0, 0));
    NothingLeft();
    GoingEnds(tmp[..], start, buf0, buf, w);
  }

  lemma OverLonger(s: string, at: nat, a: string, b: string)
    requires at + |a| + |b| <= |s|
    ensures Over(Over(s, at, a), at + |a|, b) == Over(s, at, a + b)
  {
  }

  lemma OverNothing(s: string, at: nat)
    requires at <= |s|
    ensures Over(s, at, "") == s
  {
  }

  /** At most twenty decimal digits in 64 bits. */
  lemma DigitCount(n: nat)
    ensures 1 <= |Backwards(n)|
    ensures n < TWO_64 ==> |Backwards(n)| <= 20
  {
    NumeralLength(n, 10, false, 20);
    assert Pow(10, 5) == 100000;
    assert Pow(10, 10) == 100000_00000;
    assert Pow(10, 15) == 100000_00000_00000;
    assert Pow(10, 20) == 100000_00000_00000_00000;
  }

  lemma Associate(a: string, b: string, c: string)
    ensures a + (b + c) == a + b + c
  {
  }

  /** put_dec: the decimal digits of any 64-bit number, least significant first. */
  method PutDec(tmp: array<char>, buf0: nat, num0: u64) returns (buf: nat)
    requires buf0 + 20 <= tmp.Length
    modifies tmp
    ensures 1 <= |Backwards(num0)| <= 20 && buf == buf0 + |Backwards(num0)|
    ensures tmp[..] == Over(old(tmp[..]), buf0, Backwards(num0))
  {
    hide Over, Backwards, LowDigits;
    var num := num0;
    ghost var start, text := tmp[..], "";
    buf := buf0;
    OverNothing(start, buf0);
    DigitCount(num0);
    while true
      invariant buf == buf0 + |text| && |text| % 5 == 0 && Backwards(num0) == text + Backwards(num)
      invariant tmp[..] == Over(start, buf0, text)
      decreases num
    {
      DigitCount(num);
      if num < 100000 {
        buf := PutDecTrunc(tmp, buf, num);
        OverLonger(start, buf0, text, Backwards(num));
        return;
      }
      assert Pow(10, 5) == 100000;
      CutDigits(num, 5, 100000);
      DigitCount(num / 100000);
      ghost var low := LowDigits(num % 100000, 5);
      Associate(text, low, Backwards(num / 100000));
      var rem;
      num, rem := Division.DoDiv(num, 100000);
      buf := PutDecFull(tmp, buf, rem);
      OverLonger(start, buf0, text, low);
      text := text + low;
    }
  }
}
