/** What a padded number field means (`number` and the strto family, lib/vsprintf.c): whatever the width,
    the precision and the flags, the field denotes the number it was made from. */
module FieldMeaning {
  import opened Words
  import opened Ctype
  import opened Numerals
  import opened Output
  import opened NumberFormat
  import opened Strto
  import opened ScanSpec
  import RoundTrip

  // ---------- Leading zeros ----------

  lemma ZeroFill(n: nat, base: nat)
    requires base >= 2
    ensures AllDigits(Fill('0', n), base) && Value(Fill('0', n), base) == 0
    decreases n
  {
    if n > 0 {
      ZeroFill(n - 1, base);
      FillOneMore('0', n - 1, 1);
      assert Fill('0', n) == Fill('0', n - 1) + ['0'];
      SplitLast(Fill('0', n - 1), '0', base, false);
    }
  }

  lemma {:induction false} ZerosBefore(n: nat, t: string, base: nat)
    requires base >= 2 && AllDigits(t, base)
    ensures AllDigits(Fill('0', n) + t, base) && Value(Fill('0', n) + t, base) == Value(t, base)
    decreases |t|
  {
    var z := Fill('0', n);
    if t == "" {
      assert z + t == z;
      ZeroFill(n, base);
    } else {
      var init, c := t[..|t| - 1], t[|t| - 1];
      assert t == init + [c] && z + t == z + init + [c];
      SplitLast(init, c, base, false);
      ZerosBefore(n, init, base);
      SplitLast(z + init, c, base, false);
    }
  }

  /** A run of digits that ends where the text ends. */
  lemma RunIs(s: string, i: nat, t: string, base: nat)
    requires Stands(s, i, t) && AllDigits(t, base) && Stops(At(s, i + |t|))
    ensures RunEnd(s, i, base) == i + |t| && s[i..RunEnd(s, i, base)] == t
  {
    RunSoFar(s, i, i + |t|, base);
    RunOver(s, i + |t|, base);
  }

  /** Zeros and a numeral, in the base of the numeral. */
  lemma ZerosAndNumeral(s: string, i: nat, z: nat, n: nat, base: nat, small: bool)
    requires base in {8, 10, 16} && Stands(s, i, Fill('0', z) + Numeral(n, base, small))
    requires Stops(At(s, i + z + |Numeral(n, base, small)|))
    ensures RunEnd(s, i, base) == i + z + |Numeral(n, base, small)|
    ensures Value(s[i..RunEnd(s, i, base)], base) == n
    ensures SkipPrefix(s, i, base) == (base, i) && IsDigitOf(At(s, i), base)
  {
    hide Value, RunEnd, Numeral, Fill;
    var t := Numeral(n, base, small);
    var zt := Fill('0', z) + t;
    NumeralWrites(n, base, small);
    ZerosBefore(z, t, base);
    RunIs(s, i, zt, base);
    StandsAt(s, i, zt, 0);
    if |zt| > 1 {
      StandsAt(s, i, zt, 1);
    }
    NoX(zt, s, i, base);
  }

  lemma NoX(t: string, s: string, i: nat, base: nat)
    requires AllDigits(t, base) && base <= 16 && |t| >= 1 && Stands(s, i, t) && Stops(At(s, i + |t|))
    ensures ToUpper(At(s, i + 1)) != 'X'
  {
    if |t| > 1 {
      StandsAt(s, i, t, 1);
    }
  }

  lemma OneZeroMore(z: nat)
    ensures "0" + Fill('0', z) == Fill('0', z + 1)
  {
  }

  /** Prefix, zeros and a numeral: read in its own base, the prefix is skipped or is one more zero. */
  lemma PrefixedReads(s: string, i: nat, z: nat, n: nat, base: nat, ty: bv8)
    requires base in {8, 10, 16}
    requires Stands(s, i, PrefixText(base, ty) + (Fill('0', z) + Numeral(n, base, ty & SMALL != 0)))
    requires Stops(At(s, i + |PrefixText(base, ty)| + z + |Numeral(n, base, ty & SMALL != 0)|))
    ensures NumberValue(s, i, base) == n
    ensures NumberEnd(s, i, base) == i + |PrefixText(base, ty)| + z + |Numeral(n, base, ty & SMALL != 0)|
    ensures !IsSpace(At(s, i)) && At(s, i) != '-'
  {
    hide Value, RunEnd, Numeral, Fill;
    var small := ty & SMALL != 0;
    var p, t := PrefixText(base, ty), Numeral(n, base, small);
    StandsApart(s, i, p, Fill('0', z) + t);
    if p == "" {
      ZerosAndNumeral(s, i, z, n, base, small);
    } else if base == 16 {
      ZerosAndNumeral(s, i + 2, z, n, base, small);
      StandsAt(s, i, p, 0);
      StandsAt(s, i, p, 1);
    } else {
      OneZeroMore(z);
      assert p + (Fill('0', z) + t) == "0" + Fill('0', z) + t;
      ZerosAndNumeral(s, i, z + 1, n, base, small);
    }
  }

  // ---------- The field ----------

  /** The padding and the space that may stand for a sign. */
  function Lead(first: string, sign: string): string {
    if sign == " " then first + sign else first
  }

  lemma Blanks(n: int)
    ensures RoundTrip.Blank(Fill(' ', n)) && RoundTrip.Blank(Fill(' ', n) + " ")
  {
  }

  /** The field as lead, minus sign, prefix, zeros, digits and trailing blanks. */
  lemma Parts(num: u64, base: nat, width: int, precision: int, ty: bv8) returns (first: string, z: nat, last: nat)
    requires base in {8, 10, 16} && SignText(num, ty) != "+"
    ensures RoundTrip.Blank(first)
    ensures NumberText(num, base, width, precision, ty)
         == first + (Minus(num, ty) + (Body(num, base, ty, z) + Fill(' ', last)))
  {
    hide DigitsText, ZerosText, PrefixText, Fill, First, Middle, Last;
    var p := Padding(num, base, width, precision, ty);
    Layout(num, base, width, precision, ty);
    var m := FillLength(p, ty);
    z := m + (if precision > |DigitsText(num, base, ty)| then precision - |DigitsText(num, base, ty)| else 0);
    last := if ty & LEFT != 0 && p > 0 then p else 0;
    first := Lead(First(p, ty), SignText(num, ty));
    LeadIsBlank(p, num, ty);
    PiecesAreFills(num, base, precision, ty, p, m, z, last);
    var s, x, d := SignText(num, ty), PrefixText(base, ty), DigitsText(num, base, ty);
    var minus := Minus(num, ty);
    SignIs(num, ty, First(p, ty));
    RegroupParts(First(p, ty) + s, first, minus, x, Middle(p, ty), ZerosText(num, base, precision, ty), d, Last(p, ty));
  }

  function FillLength(p: int, ty: bv8): nat {
    if ty & LEFT == 0 && ty & ZEROPAD != 0 && p > 0 then p else 0
  }

  lemma LeadIsBlank(p: int, num: u64, ty: bv8)
    ensures RoundTrip.Blank(Lead(First(p, ty), SignText(num, ty)))
  {
    Blanks(if ty & (ZEROPAD | LEFT) == 0 then p else 0);
  }

  lemma SignIs(num: u64, ty: bv8, first: string)
    requires SignText(num, ty) != "+"
    ensures first + SignText(num, ty) == Lead(first, SignText(num, ty)) + Minus(num, ty)
  {
  }

  lemma PiecesAreFills(num: u64, base: nat, precision: int, ty: bv8, p: int, m: nat, z: nat, last: nat)
    requires base in {8, 10, 16} && m == FillLength(p, ty)
    requires z == m + (if precision > |DigitsText(num, base, ty)| then precision - |DigitsText(num, base, ty)| else 0)
    requires last == if ty & LEFT != 0 && p > 0 then p else 0
    ensures Middle(p, ty) + ZerosText(num, base, precision, ty) == Fill('0', z) && Last(p, ty) == Fill(' ', last)
  {
    FillOneMore('0', m, z - m);
  }

  lemma RegroupParts(fs: string, first: string, minus: string, x: string, m: string, z: string, d: string, e: string)
    requires fs == first + minus
    ensures fs + x + m + z + d + e == first + (minus + ((x + ((m + z) + d)) + e))
  {
  }

  lemma BlankStops(s: string, i: nat, last: nat)
    requires Stands(s, i, Fill(' ', last)) && i + last == |s|
    ensures Stops(At(s, i)) && forall k | i <= k < |s| :: s[k] == ' '
  {
    if last > 0 {
      StandsAt(s, i, Fill(' ', last), 0);
    }
    forall k | i <= k < |s|
      ensures s[k] == ' '
    {
      StandsAt(s, i, Fill(' ', last), k - i);
    }
  }

  /** The bits of the number: its magnitude, negated when the minus sign is shown. */
  lemma SignedBits(num: u64, ty: bv8)
    ensures Negative(num, ty) ==> (0 - Magnitude(num, ty)) % TWO_64 == num
    ensures !Negative(num, ty) ==> Magnitude(num, ty) % TWO_64 == num
  {
    if Negative(num, ty) {
      EuclidUnique(0 - Magnitude(num, ty), TWO_64, -1, num);
    }
  }

  function Minus(num: u64, ty: bv8): string {
    if Negative(num, ty) then "-" else ""
  }

  function Body(num: u64, base: nat, ty: bv8, z: nat): string
    requires base in {8, 10, 16}
  {
    PrefixText(base, ty) + (Fill('0', z) + DigitsText(num, base, ty))
  }

  /** Reading from the sign on. */
  lemma BodyReads(t: string, i: nat, num: u64, base: nat, ty: bv8, z: nat, last: nat)
    requires base in {8, 10, 16}
    requires Stands(t, i, Minus(num, ty) + (Body(num, base, ty, z) + Fill(' ', last)))
    requires i + |Minus(num, ty)| + |Body(num, base, ty, z)| + last == |t|
    ensures var j := i + |Minus(num, ty)|;
      NumberValue(t, j, base) == Magnitude(num, ty) && NumberEnd(t, j, base) == j + |Body(num, base, ty, z)|
    ensures forall k | i + |Minus(num, ty)| + |Body(num, base, ty, z)| <= k < |t| :: t[k] == ' '
    ensures !IsSpace(At(t, i)) && (At(t, i) == '-' <==> Negative(num, ty))
  {
    hide NumberValue, NumberEnd, Fill, Numeral, PrefixText, Magnitude, Negative, Stands, Stops;
    var minus, body := Minus(num, ty), Body(num, base, ty, z);
    StandsApart(t, i, minus, body + Fill(' ', last));
    StandsApart(t, i + |minus|, body, Fill(' ', last));
    BlankStops(t, i + |minus| + |body|, last);
    PrefixedReads(t, i + |minus|, z, Magnitude(num, ty), base, ty);
    if Negative(num, ty) {
      StandsAt(t, i, minus, 0);
    }
  }

  /** Any field that shows no plus sign, read by the signed reader in its own base after its leading blanks,
      gives the number's 64 bits back, and only blanks are left behind it: padding, prefix, precision and
      zeros change nothing.  The most negative number is no exception. */
  lemma FieldDenotes(num: u64, base: nat, width: int, precision: int, ty: bv8)
    requires base in {8, 10, 16} && SignText(num, ty) != "+"
    ensures var t := NumberText(num, base, width, precision, ty);
      var k := SkipSpace(t, 0);
      var (v, e) := SignedRead(t, k, base, TWO_64);
      v == num && forall j | e <= j < |t| :: t[j] == ' '
  {
    hide NumberText, NumberValue, NumberEnd, Fill, Body, Stands, Magnitude, Negative, SkipSpace, SignedRead, Minus;
    var t := NumberText(num, base, width, precision, ty);
    var first, z, last := Parts(num, base, width, precision, ty);
    RoundTrip.StandsWhole(t);
    StandsApart(t, 0, first, Minus(num, ty) + (Body(num, base, ty, z) + Fill(' ', last)));
    BodyReads(t, |first|, num, base, ty, z, last);
    RoundTrip.SkipBlank(t, 0, first);
    SignedReadIs(t, |first|, num, base, ty);
  }

  lemma SignedReadIs(t: string, i: nat, num: u64, base: nat, ty: bv8)
    requires i + |Minus(num, ty)| <= |t| && (At(t, i) == '-' <==> Negative(num, ty))
    requires NumberValue(t, i + |Minus(num, ty)|, base) == Magnitude(num, ty)
    ensures SignedRead(t, i, base, TWO_64) == (num, NumberEnd(t, i + |Minus(num, ty)|, base))
  {
    hide NumberValue, NumberEnd, Magnitude;
    SignedBits(num, ty);
  }

  lemma PlusAt(num: u64, base: nat, width: int, precision: int, ty: bv8) returns (first: string)
    requires base in {8, 10, 16} && SignText(num, ty) == "+"
    ensures RoundTrip.Blank(first) && Stands(NumberText(num, base, width, precision, ty), 0, first + "+")
  {
    hide Fill, Numeral, ZerosText, DigitsText, NumberText, Middle, Last, PrefixText;
    var p := Padding(num, base, width, precision, ty);
    Layout(num, base, width, precision, ty);
    first := First(p, ty);
    Blanks(if ty & (ZEROPAD | LEFT) == 0 then p else 0);
    Beginning(first + "+", PrefixText(base, ty), Middle(p, ty), ZerosText(num, base, precision, ty),
              DigitsText(num, base, ty), Last(p, ty));
  }

  lemma Beginning(a: string, x: string, m: string, z: string, d: string, e: string)
    ensures Stands(a + x + m + z + d + e, 0, a)
  {
  }

  /** A plus sign is not understood by the reader: nothing is read. */
  lemma PlusIsNotRead(num: u64, base: nat, width: int, precision: int, ty: bv8)
    requires base in {8, 10, 16} && SignText(num, ty) == "+"
    ensures var t := NumberText(num, base, width, precision, ty);
      var k := SkipSpace(t, 0);
      k < |t| && t[k] == '+' && SignedRead(t, k, base, TWO_64) == (0, k)
  {
    hide NumberText, SkipSpace;
    var t := NumberText(num, base, width, precision, ty);
    var first := PlusAt(num, base, width, precision, ty);
    StandsApart(t, 0, first, "+");
    StandsAt(t, |first|, "+", 0);
    RoundTrip.SkipBlank(t, 0, first);
    NoDigits(t, |first|, base);
    RunOver(t, |first|, base);
  }

  /** The code prints a field that denotes its number exactly when the digit loop ends and no plus sign is
      shown. */
  lemma FieldDenotesIff(num: u64, base: nat, width: int, precision: int, ty: bv8)
    requires base in {8, 10, 16}
    ensures var t := NumberText(num, base, width, precision, ty);
      var k := SkipSpace(t, 0);
      var (v, e) := SignedRead(t, k, base, TWO_64);
      Prints(num, base, ty) && v == num && (forall j | e <= j < |t| :: t[j] == ' ')
      <==> Prints(num, base, ty) && SignText(num, ty) != "+"
  {
    hide Prints, NumberText, SkipSpace, SignedRead, SignText;
    if SignText(num, ty) == "+" {
      PlusIsNotRead(num, base, width, precision, ty);
    } else {
      FieldDenotes(num, base, width, precision, ty);
    }
  }
}
