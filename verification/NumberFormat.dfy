/** Padded integer formatting (`number`, lib/vsprintf.c). */
module NumberFormat {
  import opened Words
  import opened Numerals
  import opened Output
  import Decimal

  const ZEROPAD: bv8 := 1
  const SIGN: bv8 := 2
  const PLUS: bv8 := 4
  const SPACE: bv8 := 8
  const LEFT: bv8 := 16
  const SPECIAL: bv8 := 32
  const LARGE: bv8 := 64
  /** The bit that makes a letter small is the bit that asks for a prefix. */
  const SMALL: bv8 := 32

  // ---------- What a number looks like ----------

  predicate Negative(num: u64, ty: bv8) {
    ty & SIGN != 0 && Signed64(num) < 0
  }

  function Magnitude(num: u64, ty: bv8): u64 {
    if Negative(num, ty) then Wrap64(TWO_64 - num) else num
  }

  function SignText(num: u64, ty: bv8): string {
    if ty & SIGN == 0 then ""
    else if Signed64(num) < 0 then "-"
    else if ty & PLUS != 0 then "+"
    else if ty & SPACE != 0 then " "
    else ""
  }

  /** What announces the base; its letter follows the SMALL flag. */
  function PrefixText(base: nat, ty: bv8): string {
    if ty & SPECIAL == 0 || base == 10 then ""
    else if base == 16 then ['0', if ty & SMALL != 0 then 'x' else 'X']
    else "0"
  }

  function DigitsText(num: u64, base: nat, ty: bv8): string
    requires 2 <= base <= 16
  {
    Numeral(Magnitude(num, ty), base, ty & SMALL != 0)
  }

  /** The zeros a precision asks for. */
  function ZerosText(num: u64, base: nat, precision: int, ty: bv8): string
    requires 2 <= base <= 16
  {
    Fill('0', precision - |DigitsText(num, base, ty)|)
  }

  function Core(num: u64, base: nat, precision: int, ty: bv8): string
    requires 2 <= base <= 16
  {
    ZerosText(num, base, precision, ty) + DigitsText(num, base, ty)
  }

  function Head(num: u64, base: nat, ty: bv8): string {
    SignText(num, ty) + PrefixText(base, ty)
  }

  /** The field: what stands in it, and padding to the width on the side the flags say.  A precision does
      not switch zero padding off. */
  function NumberText(num: u64, base: nat, width: int, precision: int, ty: bv8): string
    requires 2 <= base <= 16
  {
    var head, core := Head(num, base, ty), Core(num, base, precision, ty);
    var pad := width - |head| - |core|;
    if ty & LEFT != 0 then head + core + Fill(' ', pad)
    else if ty & ZEROPAD != 0 then head + Fill('0', pad) + core
    else Fill(' ', pad) + head + core
  }

  function Max(a: int, b: int): int {
    if a < b then b else a
  }

  /** The field is exactly as wide as asked, unless its content is wider. */
  lemma NumberWidth(num: u64, base: nat, width: int, precision: int, ty: bv8)
    requires 2 <= base <= 16
    ensures |Core(num, base, precision, ty)| == Max(precision, |DigitsText(num, base, ty)|)
    ensures |NumberText(num, base, width, precision, ty)|
         == Max(width, |Head(num, base, ty)| + |Core(num, base, precision, ty)|)
  {
  }

  // ---------- Generating the digits ----------

  /** An arithmetic right shift of a signed number. */
  function ArithmeticShift(num: int, shift: nat): int {
    num / Pow2(shift)
  }

  function AfterShifts(num: int, shift: nat, k: nat): int
    decreases k
  {
    if k == 0 then num else AfterShifts(ArithmeticShift(num, shift), shift, k - 1)
  }

  /** The digit loop for bases 8 and 16 ends exactly for numbers that are not negative. */
  lemma ShiftLoopEndsIff(num: int, shift: nat)
    requires shift >= 1
    ensures (exists k: nat :: k >= 1 && AfterShifts(num, shift, k) == 0) <==> num >= 0
  {
    if num >= 0 {
      var k := ShiftsToZero(num, shift);
    } else {
      forall k: nat
        ensures AfterShifts(num, shift, k) < 0
      {
        ShiftsStayNegative(num, shift, k);
      }
    }
  }

  /** The number has a field: its digit loop ends. */
  predicate Prints(num: u64, base: nat, ty: bv8) {
    base == 10 || Magnitude(num, ty) < 0x8000_0000_0000_0000
  }

  function ShiftOf(base: nat): nat {
    if base == 16 then 4 else 3
  }

  /** In bases 8 and 16 there is a field exactly when the shifts of the signed number reach zero. */
  lemma PrintsIff(num: u64, base: nat, ty: bv8)
    requires base in {8, 16}
    ensures Prints(num, base, ty) <==>
      exists k: nat :: k >= 1 && AfterShifts(Signed64(Magnitude(num, ty)), ShiftOf(base), k) == 0
  {
    hide AfterShifts;
    ShiftLoopEndsIff(Signed64(Magnitude(num, ty)), ShiftOf(base));
  }

  lemma {:induction false} ShiftsToZero(num: nat, shift: nat) returns (k: nat)
    requires shift >= 1
    ensures k >= 1 && AfterShifts(num, shift, k) == 0
    decreases num
  {
    ShiftOnce(num, shift);
    var next := ArithmeticShift(num, shift);
    if next == 0 {
      k := 1;
      assert AfterShifts(next, shift, 0) == 0;
    } else {
      var j := ShiftsToZero(next, shift);
      k := j + 1;
    }
  }

  lemma ShiftOnce(num: int, shift: nat)
    requires shift >= 1
    ensures num >= 0 ==> 0 <= ArithmeticShift(num, shift) <= num && (num > 0 ==> ArithmeticShift(num, shift) < num)
    ensures num < 0 ==> ArithmeticShift(num, shift) < 0
  {
    var p := Pow2(shift);
    assert p == 2 * Pow2(shift - 1) >= 2;
    Floor(num, p);
  }

  lemma Floor(num: int, p: nat)
    requires p >= 2
    ensures num >= 0 ==> 0 <= num / p <= num && (num > 0 ==> num / p < num)
    ensures num < 0 ==> num / p < 0
  {
    var q := num / p;
    assert num == p * q + num % p;
    if q >= 1 {
      TwiceAtLeast(p, q);
    } else if q <= -1 {
      assert p * q < 0;
    }
  }

  lemma {:induction false} ShiftsStayNegative(num: int, shift: nat, k: nat)
    requires shift >= 1 && num < 0
    ensures AfterShifts(num, shift, k) < 0
    decreases k
  {
    if k > 0 {
      ShiftOnce(num, shift);
      ShiftsStayNegative(ArithmeticShift(num, shift), shift, k - 1);
    }
  }

  lemma ReverseStep(n: nat, base: nat, small: bool)
    requires 2 <= base <= 16
    ensures n < base ==> Reverse(Numeral(n, base, small)) == [DigitChar(n, small)]
    ensures n >= base ==> 0 < n / base < n
    ensures n >= base ==>
        Reverse(Numeral(n, base, small)) == [DigitChar(n % base, small)] + Reverse(Numeral(n / base, base, small))
  {
    var s := Numeral(n, base, small);
    NumeralStep(n, base, small);
    if n >= base {
      QuotientSmaller(n, base);
      QuotientPositive(n, base);
      assert s[..|s| - 1] == Numeral(n / base, base, small);
    } else {
      assert s[..0] == "";
    }
  }

  /** At most 22 digits in any of the three bases. */
  lemma AtMost22(n: u64, base: nat, small: bool)
    requires base in {8, 10, 16}
    ensures 1 <= |Numeral(n, base, small)| <= 22
  {
    NumeralLength(n, base, small, 22);
    PowLarge();
  }

  lemma PowLarge()
    ensures Pow(8, 22) >= TWO_64 && Pow(10, 22) >= TWO_64 && Pow(16, 22) >= TWO_64
  {
    assert Pow(8, 8) == 0x100_0000 && Pow(8, 16) == 0x1_0000_0000_0000 && Pow(8, 22) == 0x4_0000_0000_0000_0000;
    assert Pow(10, 8) == 1_0000_0000 && Pow(10, 16) == 1_0000_0000_0000_0000;
    assert Pow(16, 8) == 0x1_0000_0000 && Pow(16, 16) == TWO_64;
  }

  /** Letters appear in base 16 only. */
  lemma {:induction false} DecimalHasNoCase(n: nat)
    ensures Numeral(n, 10, true) == Numeral(n, 10, false)
    decreases n
  {
    if n >= 10 {
      QuotientSmaller(n, 10);
      DecimalHasNoCase(n / 10);
    }
  }

  /** A digit of the upper-case table with the case bit set on top, which leaves 0 to 9 as they are. */
  function OrCase(c: char, locase: bv8): char
    requires IsDigitChar(c)
  {
    if locase == 0 then c else SmallCode(c); Or(c as int, 0x20) as char
  }

  predicate IsDigitChar(c: char) {
    '0' <= c <= '9' || 'A' <= c <= 'F'
  }

  lemma OrStep(a: nat, b: nat, x: nat)
    requires x < 2
    ensures Or(2 * a + x, 2 * b) == 2 * Or(a, b) + x
  {
    assert (2 * a + x) / 2 == a && (2 * b) / 2 == b;
  }

  lemma OrLowDigit(h: nat, g: nat, low: nat)
    requires low < 16
    ensures Or(16 * h + low, 16 * g) == 16 * Or(h, g) + low
  {
    hide Or;
    OrStep(8 * h + low / 2, 8 * g, low % 2);
    OrStep(4 * h + low / 4, 4 * g, low / 2 % 2);
    OrStep(2 * h + low / 8, 2 * g, low / 4 % 2);
    OrStep(h, g, low / 8);
  }

  lemma SmallCode(c: char)
    requires IsDigitChar(c)
    ensures Or(c as int, 0x20) == if c <= '9' then c as int else c as int + 0x20
  {
    assert Or(3, 2) == 3 && Or(4, 2) == 6;
    if c <= '9' {
      OrLowDigit(3, 2, c as int - 0x30);
    } else {
      OrLowDigit(4, 2, c as int - 0x40);
    }
  }

  const DIGITS: string := "0123456789ABCDEF"

  lemma TableDigit(d: nat, locase: bv8)
    requires d < 16
    ensures IsDigitChar(DIGITS[d]) && OrCase(DIGITS[d], locase) == DigitChar(d, locase != 0)
  {
    assert DIGITS[d] == DigitChar(d, false);
    if locase != 0 {
      SmallCode(DIGITS[d]);
    }
  }

  lemma LowBits(num: nat, base: nat, shift: nat)
    requires (base == 8 && shift == 3) || (base == 16 && shift == 4)
    ensures And(num % 256, base - 1) == num % base && Shr(num, shift) == num / base
  {
    assert Pow2(3) == 8 && Pow2(4) == 16;
    hide And, Shr;
    AndIsMod(num % 256, shift);
    ShrIsQuotient(num, shift);
    LowByte(num);
  }

  lemma LowByte(num: nat)
    ensures num % 256 % 8 == num % 8 && num % 256 % 16 == num % 16
  {
    var q, r := num / 256, num % 256;
    Divide(num, 256);
    PeelValue(32 * q + r / 8, 8, r % 8, num);
    PeelValue(16 * q + r / 16, 16, r % 16, num);
  }

  /** One step of the digit loop: the low digit, masked out of the low byte, and the shifted number. */
  method LowDigit(num: u64, base: nat, locase: bv8) returns (c: char, num': u64)
    requires base in {8, 16} && num < 0x8000_0000_0000_0000
    ensures c == DigitChar(num % base, locase != 0) && num' == num / base
  {
    hide And, Shr, DigitChar, IsDigitChar, OrCase;
    var mask := base - 1;
    var shift := 3;
    if base == 16 {
      shift := 4;
    }
    LowBits(num, base, shift);
    Floor(num, base);
    TableDigit(num % base, locase);
    c := OrCase(DIGITS[And(num % 256, mask)], locase);
    num' := Shr(num, shift);
  }

  /** The digits in reverse order, in `tmp`. */
  method Generate(num: u64, base: nat, locase: bv8) returns (tmp: array<char>, i: nat)
    requires base in {8, 10, 16} && (base != 10 ==> num < 0x8000_0000_0000_0000)
    ensures fresh(tmp) && tmp.Length == 100 && 1 <= i <= 22
    ensures tmp[..i] == Reverse(Numeral(num, base, locase != 0))
  {
    ghost var small := locase != 0;
    AtMost22(num, base, small);
    ReverseStep(num, base, small);
    tmp := new char[100];
    if num == 0 {
      tmp[0] := '0';
      i := 1;
    } else if base != 10 {
      i := GenerateByShifts(tmp, num, base, locase);
    } else {
      DecimalHasNoCase(num);
      i := Decimal.PutDec(tmp, 0, num);
    }
  }

  /** The do-while loop for bases 8 and 16. */
  method GenerateByShifts(tmp: array<char>, num0: u64, base: nat, locase: bv8) returns (i: nat)
    requires base in {8, 16} && 0 < num0 < 0x8000_0000_0000_0000 && tmp.Length == 100
    modifies tmp
    ensures i == |Numeral(num0, base, locase != 0)| <= 22
    ensures tmp[..i] == Reverse(Numeral(num0, base, locase != 0))
  {
    hide Numeral, Reverse, DigitChar;
    var num := num0;
    i := 0;
    ghost var small := locase != 0;
    ghost var whole := Reverse(Numeral(num0, base, small));
    AtMost22(num0, base, small);
    while true
      invariant num > 0 && 0 <= i <= 22 && whole == tmp[..i] + Reverse(Numeral(num, base, small))
      decreases num
    {
      AtMost22(num, base, small);
      ReverseStep(num, base, small);
      ghost var sofar, more := tmp[..i], Reverse(Numeral(num / base, base, small));
      var c;
      c, num := LowDigit(num, base, locase);
      Decimal.Associate(sofar, [c], more);
      tmp[i] := c;
      i := i + 1;
      assert tmp[..i] == sofar + [c];
      if num == 0 {
        return;
      }
    }
  }

  // ---------- Writing the field ----------

  /** The zeros that bring the digits up to the precision. */
  method AddZeros(buf: array<char>, str0: nat, size: nat, i: nat, precision0: i32, ghost before: string, ghost text: string)
    returns (str: nat)
    requires Shows(buf[..], before, size, text) && str0 == |text| && precision0 >= i
    requires Room(buf.Length, size, text + Fill('0', precision0 - i))
    modifies buf
    ensures str == |text + Fill('0', precision0 - i)| && Shows(buf[..], before, size, text + Fill('0', precision0 - i))
  {
    str := str0;
    var precision: i32 := precision0 - 1;
    ghost var done := 0;
    assert text + Fill('0', 0) == text;
    while i <= precision
      invariant i - 1 <= precision && done == precision0 - 1 - precision
      invariant str == |text| + done && Shows(buf[..], before, size, text + Fill('0', done))
      decreases precision
    {
      FillOneMore('0', done, 1);
      assert text + Fill('0', done) + ['0'] == text + Fill('0', done + 1);
      str := AddCh(buf, str, size, '0', before, text + Fill('0', done));
      done := done + 1;
      precision := precision - 1;
    }
  }

  /** The digits, kept lowest first, written highest first. */
  method AddDigits(buf: array<char>, str0: nat, size: nat, tmp: array<char>, i0: nat, ghost before: string, ghost text: string)
    returns (str: nat)
    requires buf != tmp && i0 <= tmp.Length
    requires Shows(buf[..], before, size, text) && str0 == |text|
    requires Room(buf.Length, size, text + Reverse(tmp[..i0]))
    modifies buf
    ensures str == |text + Reverse(tmp[..i0])| && Shows(buf[..], before, size, text + Reverse(tmp[..i0]))
  {
    str := str0;
    var i := i0 - 1;
    ghost var all := Reverse(tmp[..i0]);
    assert text + all[..0] == text;
    while i >= 0
      invariant -1 <= i < i0
      invariant str == |text| + (i0 - 1 - i) && Shows(buf[..], before, size, text + all[..i0 - 1 - i])
    {
      ghost var k := i0 - 1 - i;
      assert all[k] == tmp[i];
      assert text + all[..k] + [tmp[i]] == text + all[..k + 1];
      str := AddCh(buf, str, size, tmp[i], before, text + all[..k]);
      i := i - 1;
    }
    assert all[..i0] == all;
  }

  lemma ReverseTwice(s: string)
    ensures Reverse(Reverse(s)) == s
  {
  }

  lemma Pieces(a: string, s: string, x: string, m: string, z: string, d: string, e: string)
    ensures a + s + x + m + z + d + e == a + (s + x) + m + (z + d) + e
    ensures a == "" ==> a + (s + x) == s + x
    ensures m == "" ==> a + (s + x) + m == a + (s + x)
    ensures e == "" ==> a + s + x + m + z + d + e == a + s + x + m + z + d
  {
  }

  /** The padding written before the sign, after the prefix and at the end. */
  function First(p: int, ty: bv8): string {
    Fill(' ', if ty & (ZEROPAD | LEFT) == 0 then p else 0)
  }

  function Middle(p: int, ty: bv8): string {
    Fill('0', if ty & LEFT == 0 && ty & ZEROPAD != 0 then p else 0)
  }

  function Last(p: int, ty: bv8): string {
    Fill(' ', if ty & LEFT != 0 then p else 0)
  }

  lemma OnePadding(p: int, ty: bv8)
    ensures ty & LEFT != 0 ==> First(p, ty) == "" == Middle(p, ty) && Last(p, ty) == Fill(' ', p)
    ensures ty & LEFT == 0 && ty & ZEROPAD != 0 ==> First(p, ty) == "" == Last(p, ty) && Middle(p, ty) == Fill('0', p)
    ensures ty & LEFT == 0 && ty & ZEROPAD == 0 ==> Middle(p, ty) == "" == Last(p, ty) && First(p, ty) == Fill(' ', p)
  {
    assert ty & (ZEROPAD | LEFT) == 0 <==> ty & ZEROPAD == 0 && ty & LEFT == 0;
  }

  function Padding(num: u64, base: nat, width: int, precision: int, ty: bv8): int
    requires 2 <= base <= 16
  {
    width - |Head(num, base, ty)| - |Core(num, base, precision, ty)|
  }

  /** The field in the order in which its pieces are written. */
  lemma Layout(num: u64, base: nat, width: int, precision: int, ty: bv8)
    requires 2 <= base <= 16
    ensures var p := Padding(num, base, width, precision, ty);
      NumberText(num, base, width, precision, ty)
        == First(p, ty) + SignText(num, ty) + PrefixText(base, ty) + Middle(p, ty)
           + ZerosText(num, base, precision, ty) + DigitsText(num, base, ty) + Last(p, ty)
  {
    hide Fill, SignText, PrefixText, ZerosText, DigitsText, First, Middle, Last;
    var p := Padding(num, base, width, precision, ty);
    OnePadding(p, ty);
    Pieces(First(p, ty), SignText(num, ty), PrefixText(base, ty), Middle(p, ty),
           ZerosText(num, base, precision, ty), DigitsText(num, base, ty), Last(p, ty));
  }

  /** The room for a whole field is room for each of its beginnings. */
  lemma RoomForPart(length: nat, size: nat, text: string, full: string)
    requires Room(length, size, full) && |text| <= |full|
    ensures Room(length, size, text)
  {
  }

  function PrefixLetter(locase: bv8): char {
    if locase == 0 then 'X' else SmallX(); Or('X' as int, 0x20) as char
  }

  lemma SmallX()
    ensures Or('X' as int, 0x20) == 'x' as int
  {
    assert Or(5, 2) == 7;
    OrLowDigit(5, 2, 8);
  }

  lemma Regrouped(t: string, a: string, s: string, x: string, m: string, z: string, d: string, e: string)
    ensures t + (a + s + x + m + z + d + e) == t + a + s + x + m + z + d + e
  {
  }

  /** The second half of number: padding, sign, prefix, padding, zeros, digits, padding. */
  method PutField(buf: array<char>, str0: nat, vsize: nat, size0: i32, sign: char, needPfx: bool, base: nat,
                  locase: bv8, precision: i32, ty: bv8, tmp: array<char>, i: nat,
                  ghost before: string, ghost text: string, ghost s: string, ghost x: string, ghost z: string,
                  ghost d: string)
    returns (str: nat)
    requires buf != tmp && i <= tmp.Length && d == Reverse(tmp[..i]) && precision >= i && z == Fill('0', precision - i)
    requires s == if sign != '\0' then [sign] else ""
    requires x == if needPfx then (if base == 16 then ['0', PrefixLetter(locase)] else ['0']) else ""
    requires size0 > -0x8000_0000 + 2
    requires Shows(buf[..], before, vsize, text) && str0 == |text|
    requires Room(buf.Length, vsize, text + First(size0, ty) + s + x + Middle(size0, ty) + z + d + Last(size0, ty))
    modifies buf
    ensures var t := text + First(size0, ty) + s + x + Middle(size0, ty) + z + d + Last(size0, ty);
      str == |t| && Shows(buf[..], before, vsize, t)
  {
    hide Shows, Room, Fill, Reverse, First, Middle, Last, PrefixLetter;
    var size := size0;
    ghost var a, m, e := First(size0, ty), Middle(size0, ty), Last(size0, ty);
    ghost var t := text + a + s + x + m + z + d + e;
    RoomForPart(buf.Length, vsize, text + a, t);
    str := str0;
    if ty & (ZEROPAD + LEFT) == 0 {
      FirstIs(size, ty);
      str, size := AddRun(buf, str, vsize, ' ', size, before, text);
    } else {
      FirstIs(size, ty);
      assert text + a == text;
    }
    RoomForPart(buf.Length, vsize, text + a, t);
    if sign != '\0' {
      str := AddCh(buf, str, vsize, sign, before, text + a);
    } else {
      assert text + a + s == text + a;
    }
    str := PutPrefix(buf, str, vsize, needPfx, base, locase, before, text + a + s, x, t);
    MiddleIs(size0, size, ty);
    if ty & LEFT == 0 {
      var c := if ty & ZEROPAD != 0 then '0' else ' ';
      RoomForPart(buf.Length, vsize, text + a + s + x + m, t);
      str, size := AddRun(buf, str, vsize, c, size, before, text + a + s + x);
    } else {
      assert text + a + s + x + m == text + a + s + x;
    }
    RoomForPart(buf.Length, vsize, text + a + s + x + m + z, t);
    str := AddZeros(buf, str, vsize, i, precision, before, text + a + s + x + m);
    RoomForPart(buf.Length, vsize, text + a + s + x + m + z + d, t);
    str := AddDigits(buf, str, vsize, tmp, i, before, text + a + s + x + m + z);
    LastIs(size0, size, ty);
    str, size := AddRun(buf, str, vsize, ' ', size, before, text + a + s + x + m + z + d);
  }

  lemma FirstIs(size: int, ty: bv8)
    ensures First(size, ty) == if ty & (ZEROPAD + LEFT) == 0 then Fill(' ', size) else ""
  {
  }

  /** After the first padding, nothing is left for the second one unless the first was skipped. */
  lemma MiddleIs(size0: int, size: int, ty: bv8)
    requires size == if ty & (ZEROPAD + LEFT) == 0 then (if size0 > 0 then -1 else size0 - 1) else size0
    ensures ty & LEFT == 0 ==> Middle(size0, ty) == Fill(if ty & ZEROPAD != 0 then '0' else ' ', size)
    ensures ty & LEFT != 0 ==> Middle(size0, ty) == "" && size == size0
  {
    assert ty & (ZEROPAD + LEFT) == 0 <==> ty & ZEROPAD == 0 && ty & LEFT == 0;
  }

  lemma LastIs(size0: int, size: int, ty: bv8)
    requires if ty & LEFT == 0 then size < 0 else size == size0
    ensures Last(size0, ty) == Fill(' ', size)
  {
  }

  method PutPrefix(buf: array<char>, str0: nat, vsize: nat, needPfx: bool, base: nat, locase: bv8,
                   ghost before: string, ghost text: string, ghost x: string, ghost full: string)
    returns (str: nat)
    requires x == if needPfx then (if base == 16 then ['0', PrefixLetter(locase)] else ['0']) else ""
    requires Shows(buf[..], before, vsize, text) && str0 == |text|
    requires Room(buf.Length, vsize, full) && |text + x| <= |full|
    modifies buf
    ensures str == |text + x| && Shows(buf[..], before, vsize, text + x)
  {
    hide Shows, Room, PrefixLetter;
    str := str0;
    RoomForPart(buf.Length, vsize, text, full);
    if needPfx {
      str := AddCh(buf, str, vsize, '0', before, text);
      if base == 16 {
        RoomForPart(buf.Length, vsize, text + ['0'], full);
        str := AddCh(buf, str, vsize, PrefixLetter(locase), before, text + ['0']);
        assert text + ['0'] + [PrefixLetter(locase)] == text + x;
      }
    } else {
      assert text + x == text;
    }
  }

  /** Clearing ZEROPAD for a field flushed left changes no padding. */
  lemma ClearZeroPad(p: int, ty: bv8)
    requires ty & LEFT != 0
    ensures var ty' := ty & !ZEROPAD;
      First(p, ty') == First(p, ty) && Middle(p, ty') == Middle(p, ty) && Last(p, ty') == Last(p, ty)
  {
  }

  /** The sign character, if any, and the number without it. */
  method TakeSign(num0: u64, size0: i32, ty: bv8) returns (sign: char, num: u64, size: i32)
    requires size0 >= -1
    ensures num == Magnitude(num0, ty) && size == size0 - |SignText(num0, ty)|
    ensures SignText(num0, ty) == if sign != '\0' then [sign] else ""
  {
    sign, num, size := '\0', num0, size0;
    if ty & SIGN != 0 {
      if Signed64(num) < 0 {
        sign := '-';
        num := Wrap64(TWO_64 - num);
        size := size - 1;
      } else if ty & PLUS != 0 {
        sign := '+';
        size := size - 1;
      } else if ty & SPACE != 0 {
        sign := ' ';
        size := size - 1;
      }
    }
  }

  lemma PaddingIs(num: u64, base: nat, width: int, precision: int, ty: bv8)
    requires 2 <= base <= 16
    ensures Padding(num, base, width, precision, ty)
         == width - |SignText(num, ty)| - |PrefixText(base, ty)| - Max(precision, |DigitsText(num, base, ty)|)
    ensures |NumberText(num, base, width, precision, ty)|
         >= |SignText(num, ty)| + |PrefixText(base, ty)| + Max(precision, |DigitsText(num, base, ty)|)
    ensures DigitsText(num, base, ty) == Numeral(Magnitude(num, ty), base, ty & SMALL != 0)
    ensures ZerosText(num, base, precision, ty)
         == Fill('0', Max(precision, |DigitsText(num, base, ty)|) - |DigitsText(num, base, ty)|)
  {
    NumberWidth(num, base, width, precision, ty);
  }

  /** number: writes the field and returns the position after it.  The caller keeps the values in the range
      of `int`: the loops count their operand down past zero. */
  method Number(buf: array<char>, str0: nat, vsize: nat, num0: u64, base: nat, size0: i32, precision0: i32, ty0: bv8,
                ghost before: string, ghost text: string)
    returns (str: nat)
    requires base in {8, 10, 16} && Prints(num0, base, ty0)
    requires size0 >= -1 && precision0 >= -1
    requires |NumberText(num0, base, size0, precision0, ty0)| + 3 <= INT_MAX
    requires Shows(buf[..], before, vsize, text) && str0 == |text|
    requires Room(buf.Length, vsize, text + NumberText(num0, base, size0, precision0, ty0))
    modifies buf
    ensures var t := text + NumberText(num0, base, size0, precision0, ty0);
      str == |t| && Shows(buf[..], before, vsize, t)
  {
    hide Shows, Room, Fill, Numeral, Reverse, NumberText, First, Middle, Last, PrefixLetter, DigitsText, ZerosText,
         Padding, SignText, PrefixText, Magnitude;
    var precision, ty := precision0, ty0;
    ghost var p := Padding(num0, base, size0, precision0, ty0);
    Layout(num0, base, size0, precision0, ty0);
    PaddingIs(num0, base, size0, precision0, ty0);
    PrefixIs(base, ty0);
    var needPfx := ty & SPECIAL != 0 && base != 10;
    var locase := ty & SMALL;
    if ty & LEFT != 0 {
      ClearZeroPad(p, ty);
      ty := ty & !ZEROPAD;
    }
    SameSign(num0, ty0);
    var sign, num, size := TakeSign(num0, size0, ty);
    if needPfx {
      size := size - 1;
      if base == 16 {
        size := size - 1;
      }
    }
    var tmp, i := Generate(num, base, locase);
    ghost var s, x, z, d := SignText(num0, ty0), PrefixText(base, ty0), ZerosText(num0, base, precision0, ty0),
                            DigitsText(num0, base, ty0);
    ReverseTwice(d);
    if i > precision {
      precision := i;
    }
    size := size - precision;
    Regrouped(text, First(p, ty0), s, x, Middle(p, ty0), z, d, Last(p, ty0));
    str := PutField(buf, str0, vsize, size, sign, needPfx, base, locase, precision, ty, tmp, i, before, text, s, x, z, d);
  }

  lemma SameSign(num: u64, ty: bv8)
    ensures var ty' := if ty & LEFT != 0 then ty & !ZEROPAD else ty;
      SignText(num, ty') == SignText(num, ty) && Magnitude(num, ty') == Magnitude(num, ty)
  {
    var ty' := ty & !ZEROPAD;
    assert ty' & SIGN == ty & SIGN && ty' & PLUS == ty & PLUS && ty' & SPACE == ty & SPACE;
  }

  lemma PrefixIs(base: nat, ty: bv8)
    ensures |PrefixText(base, ty)| == if ty & SPECIAL != 0 && base != 10 then (if base == 16 then 2 else 1) else 0
    ensures PrefixText(base, ty) == if ty & SPECIAL != 0 && base != 10
      then (if base == 16 then ['0', PrefixLetter(ty & SMALL)] else ['0']) else ""
  {
    SmallX();
  }
}
