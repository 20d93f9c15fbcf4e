/** Reading numbers from strings (simple_strtoul and its relatives, lib/vsprintf.c). */
module Strto {
  import opened Words
  import opened Ctype
  import opened Numerals
  import opened NumberFormat

  // ---------- What is read ----------

  /** The base in use and the place of the first digit: base 0 stands for detection by prefix, and base 16
      skips a prefix without looking behind it. */
  function SkipPrefix(s: string, i: nat, base: nat): (r: (nat, nat))
    requires i <= |s|
    ensures i <= r.1 <= |s|
  {
    if base == 0 then
      if At(s, i) != '0' then (10, i)
      else if ToUpper(At(s, i + 1)) == 'X' && IsXDigit(At(s, i + 2)) then (16, i + 2)
      else (8, i + 1)
    else if base == 16 && At(s, i) == '0' && ToUpper(At(s, i + 1)) == 'X' then (16, i + 2)
    else (base, i)
  }

  /** The place after the number. */
  function NumberEnd(s: string, i: nat, base: nat): (j: nat)
    requires i <= |s|
    ensures i <= j <= |s|
  {
    var (b, k) := SkipPrefix(s, i, base);
    RunEnd(s, k, b)
  }

  /** The value of the longest run of digits. */
  function NumberValue(s: string, i: nat, base: nat): nat
    requires i <= |s|
  {
    var (b, k) := SkipPrefix(s, i, base);
    Value(s[k..RunEnd(s, k, b)], b)
  }

  // ---------- The loops ----------

  lemma Distribute(q: int, m: int, r: int, base: int)
    ensures (q * m + r) * base == m * (q * base) + r * base
  {
    assert (q * m + r) * base == (q * m) * base + r * base;
    assert (q * m) * base == m * (q * base);
  }

  lemma Collect(m: int, a: int, t: int)
    ensures m * a + t * m == m * (a + t)
  {
  }

  /** Dropping high bits early or late makes no difference. */
  lemma WrapStep(v: nat, base: nat, d: nat, m: nat)
    requires m > 0
    ensures ((v % m) * base + d) % m == (v * base + d) % m
  {
    var e := (v % m) * base + d;
    Divide(v, m);
    Divide(e, m);
    Distribute(v / m, m, v % m, base);
    Collect(m, (v / m) * base, e / m);
    EuclidUnique(v * base + d, m, (v / m) * base + e / m, e % m);
  }

  /** One digit further. */
  lemma DigitStep(s: string, i: nat, k: nat, base: nat)
    requires i <= k < |s| && AllDigits(s[i..k], base) && IsDigitOf(s[k], base)
    ensures AllDigits(s[i..k + 1], base)
    ensures Value(s[i..k + 1], base) == Value(s[i..k], base) * base + DigitOf(s[k])
  {
    assert s[i..k + 1] == s[i..k] + [s[k]];
    SplitLast(s[i..k], s[k], base, false);
  }

  /** The value of a digit by its character code, letters of either case counting from ten. */
  function DigitValue(c: char): (d: nat)
    requires IsXDigit(c)
    ensures d == DigitOf(c)
  {
    if IsDigit(c) then c as int - '0' as int else ToUpper(c) as int - 'A' as int + 10
  }

  /** The prefix tests at the head of both functions. */
  method Detect(s: string, i: nat, base0: u32) returns (base: u32, cp: nat)
    requires i <= |s|
    ensures (base as nat, cp) == SkipPrefix(s, i, base0)
  {
    base, cp := base0, i;
    if base == 0 {
      base := 10;
      if At(s, cp) == '0' {
        base := 8;
        cp := cp + 1;
        if ToUpper(At(s, cp)) == 'X' && IsXDigit(At(s, cp + 1)) {
          cp := cp + 1;
          base := 16;
        }
      }
    } else if base == 16 {
      if At(s, cp) == '0' && ToUpper(At(s, cp + 1)) == 'X' {
        cp := cp + 2;
      }
    }
  }

  /** simple_strtoul: the value modulo 2^32 and the place after the digits. */
  method SimpleStrtoul(s: string, i: nat, base0: u32) returns (result: u32, cp: nat)
    requires i <= |s|
    ensures cp == NumberEnd(s, i, base0) && result == NumberValue(s, i, base0) % TWO_32
  {
    hide Value, RunEnd, SkipPrefix;
    var base;
    base, cp := Detect(s, i, base0);
    result := 0;
    ghost var k := cp;
    NoDigits(s, k, base);
    while IsXDigit(At(s, cp)) && DigitValue(At(s, cp)) < base
      invariant k <= cp <= |s| && AllDigits(s[k..cp], base) && result == Value(s[k..cp], base) % TWO_32
      decreases |s| - cp
    {
      DigitStep(s, k, cp, base);
      WrapStep(Value(s[k..cp], base), base, DigitOf(s[cp]), TWO_32);
      result := Wrap32(result * base + DigitValue(s[cp]));
      cp := cp + 1;
    }
    RunSoFar(s, k, cp, base);
    RunOver(s, cp, base);
  }

  lemma NoDigits(s: string, k: nat, base: nat)
    requires k <= |s|
    ensures AllDigits(s[k..k], base) && Value(s[k..k], base) == 0
  {
  }

  /** simple_strtoull: the value modulo 2^64. */
  method SimpleStrtoull(s: string, i: nat, base0: u32) returns (result: u64, cp: nat)
    requires i <= |s|
    ensures cp == NumberEnd(s, i, base0) && result == NumberValue(s, i, base0) % TWO_64
  {
    hide Value, RunEnd, SkipPrefix;
    var base;
    base, cp := Detect(s, i, base0);
    result := 0;
    ghost var k := cp;
    NoDigits(s, k, base);
    while IsXDigit(At(s, cp)) && DigitValue(At(s, cp)) < base
      invariant k <= cp <= |s| && AllDigits(s[k..cp], base) && result == Value(s[k..cp], base) % TWO_64
      decreases |s| - cp
    {
      DigitStep(s, k, cp, base);
      WrapStep(Value(s[k..cp], base), base, DigitOf(s[cp]), TWO_64);
      result := Wrap64(result * base + DigitValue(s[cp]));
      cp := cp + 1;
    }
    RunSoFar(s, k, cp, base);
    RunOver(s, cp, base);
  }

  /** What the signed readers deliver: the bits, and the place after the number. */
  function SignedRead(s: string, i: nat, base: nat, m: nat): (r: (nat, nat))
    requires i <= |s| && m > 0
    ensures r.0 < m && i <= r.1 <= |s|
  {
    if At(s, i) == '-' then ((0 - NumberValue(s, i + 1, base)) % m, NumberEnd(s, i + 1, base))
    else (NumberValue(s, i, base) % m, NumberEnd(s, i, base))
  }

  lemma NegateWrapped(v: nat, m: nat)
    requires m > 0
    ensures (m - v % m) % m == (0 - v) % m
  {
    var q, r := v / m, v % m;
    var minus: int := 0 - v;
    assert v == q * m + r;
    if r == 0 {
      assert minus == m * (0 - q);
      EuclidUnique(minus, m, 0 - q, 0);
      EuclidUnique(m, m, 1, 0);
    } else {
      assert minus == m * (0 - q - 1) + (m - r);
      EuclidUnique(minus, m, 0 - q - 1, m - r);
      EuclidUnique(m - r, m, 0, m - r);
    }
  }

  lemma EuclidUnique(x: int, m: nat, q: int, r: nat)
    requires m > 0 && x == m * q + r && r < m
    ensures x % m == r
  {
    var u := x / m - q;
    assert m * u == m * (x / m) - m * q == r - x % m;
    assert u >= 1 ==> m * u >= m;
    assert u <= -1 ==> m * u + m <= 0;
  }

  /** simple_strtol, as a 32-bit word. */
  method SimpleStrtol(s: string, i: nat, base: u32) returns (result: u32, next: nat)
    requires i <= |s|
    ensures (result as nat, next) == SignedRead(s, i, base, TWO_32)
  {
    if At(s, i) == '-' {
      result, next := SimpleStrtoul(s, i + 1, base);
      NegateWrapped(NumberValue(s, i + 1, base), TWO_32);
      result := Wrap32(TWO_32 - result);
    } else {
      result, next := SimpleStrtoul(s, i, base);
    }
  }

  /** simple_strtoll, as a 64-bit word. */
  method SimpleStrtoll(s: string, i: nat, base: u32) returns (result: u64, next: nat)
    requires i <= |s|
    ensures (result as nat, next) == SignedRead(s, i, base, TWO_64)
  {
    if At(s, i) == '-' {
      result, next := SimpleStrtoull(s, i + 1, base);
      NegateWrapped(NumberValue(s, i + 1, base), TWO_64);
      result := Wrap64(TWO_64 - result);
    } else {
      result, next := SimpleStrtoull(s, i, base);
    }
  }

  // ---------- Reading back what was printed ----------

  /** No character that could continue a number or make a prefix of its first digit. */
  predicate Stops(c: char) {
    !IsXDigit(c) && ToUpper(c) != 'X'
  }

  predicate Stands(s: string, i: nat, text: string) {
    i + |text| <= |s| && s[i..i + |text|] == text
  }

  lemma NumeralRun(s: string, i: nat, n: nat, base: nat, small: bool)
    requires 2 <= base <= 16 && Stands(s, i, Numeral(n, base, small))
    requires !IsXDigit(At(s, i + |Numeral(n, base, small)|))
    ensures RunEnd(s, i, base) == i + |Numeral(n, base, small)|
    ensures Value(s[i..RunEnd(s, i, base)], base) == n
  {
    var t := Numeral(n, base, small);
    NumeralWrites(n, base, small);
    RunSoFar(s, i, i + |t|, base);
    RunOver(s, i + |t|, base);
  }

  lemma FirstDigit(n: nat, base: nat, small: bool)
    requires 2 <= base <= 16
    ensures var t := Numeral(n, base, small);
      IsDigitOf(t[0], base) && (t[0] == '0' <==> n == 0) && (n == 0 ==> t == "0")
  {
    NumeralWrites(n, base, small);
    if n > 0 {
      NotZeroFirst(Numeral(n, base, small), n, base, small);
    }
  }

  /** A numeral followed by something else is read whole in its own base, unless base 16 could take it for
      a prefix. */
  lemma ReadsNumeral(s: string, i: nat, n: nat, base: nat, small: bool)
    requires base in {8, 10, 16} && Stands(s, i, Numeral(n, base, small))
    requires Stops(At(s, i + |Numeral(n, base, small)|))
    ensures NumberValue(s, i, base) == n && NumberEnd(s, i, base) == i + |Numeral(n, base, small)|
  {
    var t := Numeral(n, base, small);
    FirstDigit(n, base, small);
    NumeralRun(s, i, n, base, small);
    assert s[i] == t[0];
    SkipPrefixIs(s, i, base, t);
  }

  lemma SkipPrefixIs(s: string, i: nat, base: nat, t: string)
    requires base in {8, 10, 16} && |t| >= 1 && Stands(s, i, t) && Stops(At(s, i + |t|))
    requires t[0] == '0' ==> t == "0"
    ensures SkipPrefix(s, i, base) == (base, i)
  {
    assert s[i] == s[i..i + |t|][0];
  }

  /** A decimal numeral is read back with the base detected: only 0 looks like an octal prefix. */
  lemma DetectsDecimal(s: string, i: nat, n: nat)
    requires Stands(s, i, Numeral(n, 10, false)) && Stops(At(s, i + |Numeral(n, 10, false)|))
    ensures NumberValue(s, i, 0) == n && NumberEnd(s, i, 0) == i + |Numeral(n, 10, false)|
  {
    var t := Numeral(n, 10, false);
    FirstDigit(n, 10, false);
    assert s[i] == t[0];
    if n == 0 {
      NoDigits(s, i + 1, 8);
      RunOver(s, i + 1, 8);
    } else {
      NumeralRun(s, i, n, 10, false);
    }
  }

  lemma DetectsPrefixed(s: string, i: nat, n: nat, base: nat, ty: bv8)
    requires base in {8, 16} && ty & SPECIAL != 0
    requires Stands(s, i, PrefixText(base, ty) + Numeral(n, base, ty & SMALL != 0))
    requires Stops(At(s, i + |PrefixText(base, ty) + Numeral(n, base, ty & SMALL != 0)|))
    ensures NumberValue(s, i, 0) == n
    ensures NumberEnd(s, i, 0) == i + |PrefixText(base, ty) + Numeral(n, base, ty & SMALL != 0)|
  {
    hide RunEnd, Value, Numeral;
    var p, t := PrefixText(base, ty), Numeral(n, base, ty & SMALL != 0);
    FirstDigit(n, base, ty & SMALL != 0);
    StandsApart(s, i, p, t);
    StandsAt(s, i, p, 0);
    StandsAt(s, i + |p|, t, 0);
    NumeralRun(s, i + |p|, n, base, ty & SMALL != 0);
    if base == 16 {
      StandsAt(s, i, p, 1);
    } else {
      OctalIsNoX(t[0]);
    }
  }

  lemma OctalIsNoX(c: char)
    requires IsDigitOf(c, 8)
    ensures ToUpper(c) != 'X'
  {
  }

  lemma StandsApart(s: string, i: nat, p: string, t: string)
    requires Stands(s, i, p + t)
    ensures Stands(s, i, p) && Stands(s, i + |p|, t)
  {
    assert s[i..i + |p|] == (p + t)[..|p|];
    assert s[i + |p|..i + |p| + |t|] == (p + t)[|p|..];
  }

  lemma StandsAt(s: string, i: nat, t: string, k: nat)
    requires Stands(s, i, t) && k < |t|
    ensures s[i + k] == t[k]
  {
    assert s[i..i + |t|][k] == t[k];
  }

  /** Prefixes undo themselves: an unpadded field with its prefix, read with base 0, gives the number back
      and the place of the terminator, for all three bases.  (For bases 8 and 16 the digit loop of number
      ends, and the field exists, below 2^63.) */
  lemma PrefixRoundTrip(num: u64, base: nat, ty: bv8)
    requires base in {8, 10, 16} && ty & SPECIAL != 0 && ty & SIGN == 0
    ensures var text := NumberText(num, base, -1, -1, ty);
      NumberValue(text, 0, 0) % TWO_64 == num && NumberEnd(text, 0, 0) == |text|
  {
    hide NumberText, NumberValue, NumberEnd, PrefixText, Numeral;
    var text := NumberText(num, base, -1, -1, ty);
    Unpadded(num, base, ty);
    DecimalHasNoCase(num);
    PlainPrefix(ty);
    assert text[0..|text|] == text;
    if base == 10 {
      DetectsDecimal(text, 0, num);
    } else {
      DetectsPrefixed(text, 0, num, base, ty);
    }
  }

  lemma PlainPrefix(ty: bv8)
    ensures PrefixText(10, ty) == ""
  {
  }

  /** Without width and precision only sign, prefix and digits are left. */
  lemma Unpadded(num: u64, base: nat, ty: bv8)
    requires 2 <= base <= 16
    ensures NumberText(num, base, -1, -1, ty) == SignText(num, ty) + (PrefixText(base, ty) + DigitsText(num, base, ty))
  {
    NumberWidth(num, base, -1, -1, ty);
  }
}
