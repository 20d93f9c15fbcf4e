/** The integer field of section 7.19.6.1 of ISO/IEC 9899:1999, and when the one of lib/vsprintf.c is it. */
module StandardField {
  import opened Words
  import opened Numerals
  import opened Output
  import opened NumberFormat

  // ---------- The standard's field ----------

  /** Letters are small unless the conversion is X; zero has no digits of its own, and the precision, 1 when
      there is none, supplies its zeros. */
  function PlainDigits(num: u64, base: nat, precision: int, ty: bv8): string
    requires 2 <= base <= 16
  {
    var n := if Magnitude(num, ty) == 0 then "" else Numeral(Magnitude(num, ty), base, ty & LARGE == 0);
    Fill('0', (if precision < 0 then 1 else precision) - |n|) + n
  }

  /** The alternative form of base 8 makes the first digit a zero if it is none. */
  function StandardCore(num: u64, base: nat, precision: int, ty: bv8): string
    requires 2 <= base <= 16
  {
    var d := PlainDigits(num, base, precision, ty);
    if ty & SPECIAL != 0 && base == 8 && (d == "" || d[0] != '0') then "0" + d else d
  }

  /** Signed conversions show a minus sign; the + flag a plus sign otherwise, and the space flag a space, unless the
      + flag is there too. */
  function StandardSign(num: u64, ty: bv8): string {
    if ty & SIGN != 0 && Signed64(num) < 0 then "-"
    else if ty & SIGN != 0 && ty & PLUS != 0 then "+"
    else if ty & SIGN != 0 && ty & SPACE != 0 then " "
    else ""
  }

  lemma SignIsStandard(num: u64, ty: bv8)
    ensures StandardSign(num, ty) == SignText(num, ty)
  {
  }

  /** The alternative form of base 16 prefixes a number that is not zero. */
  function StandardHead(num: u64, base: nat, ty: bv8): string {
    StandardSign(num, ty)
    + if ty & SPECIAL != 0 && base == 16 && Magnitude(num, ty) != 0 then ['0', if ty & LARGE != 0 then 'X' else 'x'] else ""
  }

  /** Content and padding: behind it, between head and digits as zeros, or before it. */
  function Field(head: string, core: string, width: int, zero: bool, left: bool): string {
    var pad := width - |head| - |core|;
    if left then head + core + Fill(' ', pad)
    else if zero then head + Fill('0', pad) + core
    else Fill(' ', pad) + head + core
  }

  /** The 0 flag counts only without a precision and without the - flag. */
  function StandardText(num: u64, base: nat, width: int, precision: int, ty: bv8): string
    requires 2 <= base <= 16
  {
    Field(StandardHead(num, base, ty), StandardCore(num, base, precision, ty), width,
          ty & ZEROPAD != 0 && precision < 0, ty & LEFT != 0)
  }

  // ---------- The condition ----------

  /** A hexadecimal digit above 9 occurs. */
  predicate HasLetter(n: nat) {
    n % 16 >= 10 || (n >= 16 && HasLetter(n / 16))
  }

  /** The 0 flag pads although a precision is given. */
  predicate PadsDespitePrecision(num: u64, base: nat, width: int, precision: int, ty: bv8)
    requires 2 <= base <= 16
  {
    ty & LEFT == 0 && ty & ZEROPAD != 0 && precision >= 0
    && width > |Head(num, base, ty)| + |Core(num, base, precision, ty)|
  }

  /** The calls for which the two texts are the same. */
  predicate SameText(num: u64, base: nat, width: int, precision: int, ty: bv8)
    requires 2 <= base <= 16
  {
    var zero, special := Magnitude(num, ty) == 0, ty & SPECIAL != 0;
    if base == 8 && special && zero then
      precision < 0 && ty & LEFT == 0 && ty & ZEROPAD != 0 && width >= |SignText(num, ty)| + 2
    else
      && !(zero && precision == 0)
      && !PadsDespitePrecision(num, base, width, precision, ty)
      && (base == 8 && special ==> precision <= |DigitsText(num, base, ty)|)
      && (base == 16 ==> if special then !zero && ty & LARGE == 0
                         else ty & LARGE != 0 || !HasLetter(Magnitude(num, ty)))
  }

  /** The calls for which the code prints the standard's field: it prints one, and the texts are the same. */
  predicate Conforms(num: u64, base: nat, width: int, precision: int, ty: bv8)
    requires 2 <= base <= 16
  {
    Prints(num, base, ty) && SameText(num, base, width, precision, ty)
  }

  // ---------- Fields with the same head ----------

  /** How many blanks a head begins with: at most the space that stands for a plus sign. */
  predicate HeadWith(head: string, b: nat) {
    b <= 1 && b <= |head| && (b == 1 ==> head[0] == ' ') && forall k | b <= k < |head| :: head[k] != ' '
  }

  predicate NoBlank(s: string) {
    forall k | 0 <= k < |s| :: s[k] != ' '
  }

  /** The first character that is no blank. */
  predicate StartsAt(t: string, i: nat) {
    i < |t| && t[i] != ' ' && forall k | 0 <= k < i :: t[k] == ' '
  }

  /** The last character that is no blank. */
  predicate EndsAt(t: string, i: nat) {
    i < |t| && t[i] != ' ' && forall k | i < k < |t| :: t[k] == ' '
  }

  lemma RightStart(head: string, core: string, width: int, zero: bool, b: nat)
    requires HeadWith(head, b) && NoBlank(core) && core != ""
    ensures StartsAt(Field(head, core, width, zero, false),
                     if zero || width < |head| + |core| then b else width - |head| - |core| + b)
  {
  }

  lemma LeftEnd(head: string, core: string, width: int, zero: bool)
    requires NoBlank(core) && core != ""
    ensures EndsAt(Field(head, core, width, zero, true), |head| + |core| - 1)
  {
  }

  lemma FieldLength(head: string, core: string, width: int, zero: bool, left: bool)
    ensures |Field(head, core, width, zero, left)| == Max(width, |head| + |core|)
  {
  }

  lemma CoreInside(head: string, core: string, width: int, zero: bool, left: bool)
    ensures var t := Field(head, core, width, zero, left);
      if left then t[|head|..|head| + |core|] == core else t[|t| - |core|..] == core
  {
  }

  /** With the same head and cores of one length, two fields are the same exactly when the cores are, and
      not one pads with zeros and the other with blanks. */
  lemma SameLengthIff(head: string, c: string, d: string, width: int, y: bool, z: bool, left: bool, b: nat)
    requires HeadWith(head, b) && NoBlank(c) && NoBlank(d) && |c| == |d| >= 1
    ensures Field(head, c, width, y, left) == Field(head, d, width, z, left) <==>
      c == d && (left || y == z || width <= |head| + |c|)
  {
    hide Field, Fill, NoBlank, HeadWith;
    SameFields(head, c, width, y, z, left);
    CoreInside(head, c, width, y, left);
    CoreInside(head, d, width, z, left);
    if !left {
      RightStart(head, c, width, y, b);
      RightStart(head, d, width, z, b);
    }
  }

  lemma SameFields(head: string, c: string, width: int, y: bool, z: bool, left: bool)
    ensures left || y == z || width <= |head| + |c| ==> Field(head, c, width, y, left) == Field(head, c, width, z, left)
  {
    if !left && width <= |head| + |c| {
      assert Fill(' ', width - |head| - |c|) == "" == Fill('0', width - |head| - |c|);
      assert "" + head + c == head + "" + c;
    }
  }

  /** A longer core makes another field, unless zeros fill both. */
  lemma LongerDiffers(head: string, c: string, d: string, width: int, y: bool, left: bool, b: nat)
    requires HeadWith(head, b) && NoBlank(c) && NoBlank(d) && |c| > |d| >= 1
    ensures Field(head, c, width, y, left) != Field(head, d, width, false, left)
  {
    FieldLength(head, c, width, y, left);
    FieldLength(head, d, width, false, left);
    if left {
      LeftEnd(head, c, width, y);
      LeftEnd(head, d, width, false);
    } else {
      RightStart(head, c, width, y, b);
      RightStart(head, d, width, false, b);
    }
  }

  lemma Contains(head: string, core: string, width: int, zero: bool, left: bool, c: char)
    ensures c != ' ' && c != '0' ==> (c in Field(head, core, width, zero, left) <==> c in head || c in core)
    ensures c in core ==> c in Field(head, core, width, zero, left)
    ensures c in Field(head, core, width, zero, left) ==> c in head || c in core || c == ' ' || (zero && c == '0')
  {
    var t := Field(head, core, width, zero, left);
    var pad := width - |head| - |core|;
    var p := if pad > 0 then pad else 0;
    var h := if left || zero then 0 else p;
    var k := if left then |head| else p + |head|;
    assert forall i | 0 <= i < |head| :: t[h + i] == head[i];
    assert forall i | 0 <= i < |core| :: t[k + i] == core[i];
  }

  // ---------- Digits ----------

  lemma {:induction false} CaseOfLetters(n: nat, base: nat)
    requires 2 <= base <= 16
    ensures |Numeral(n, base, true)| == |Numeral(n, base, false)|
    ensures base == 16 ==> (Numeral(n, base, true) == Numeral(n, base, false) <==> !HasLetter(n))
    ensures base <= 10 ==> Numeral(n, base, true) == Numeral(n, base, false)
    decreases n
  {
    NumeralStep(n, base, true);
    NumeralStep(n, base, false);
    hide Numeral;
    if n >= base {
      QuotientSmaller(n, base);
      CaseOfLetters(n / base, base);
      LastDigits(Numeral(n / base, base, true), Numeral(n / base, base, false), n % base);
    } else {
      LastDigits("", "", n);
    }
  }

  lemma LastDigits(a: string, b: string, d: nat)
    requires d < 16 && |a| == |b|
    ensures a + [DigitChar(d, true)] == b + [DigitChar(d, false)] <==> a == b && d < 10
    ensures |a + [DigitChar(d, true)]| == |b + [DigitChar(d, false)]|
  {
    var x, y := a + [DigitChar(d, true)], b + [DigitChar(d, false)];
    assert x[..|a|] == a && y[..|b|] == b && x[|a|] == DigitChar(d, true) && y[|b|] == DigitChar(d, false);
  }

  lemma NumeralChars(n: nat, base: nat, small: bool)
    requires 2 <= base <= 16
    ensures NoBlank(Numeral(n, base, small)) && 'x' !in Numeral(n, base, small)
    ensures n == 0 ==> Numeral(n, base, small) == "0"
    ensures n != 0 ==> Numeral(n, base, small)[0] != '0'
  {
    var s := Numeral(n, base, small);
    NumeralWrites(n, base, small);
    assert forall k | 0 <= k < |s| :: IsDigitOf(s[k], base);
    if n != 0 {
      NotZeroFirst(s, n, base, small);
    }
  }

  lemma ZerosThen(a: int, t: string)
    ensures NoBlank(t) ==> NoBlank(Fill('0', a) + t)
    ensures 'x' !in t ==> 'x' !in Fill('0', a) + t
    ensures a <= 0 ==> Fill('0', a) + t == t
    ensures a > 0 ==> (Fill('0', a) + t)[0] == '0'
  {
  }

  lemma ZeroFills(a: int)
    ensures Fill('0', a - 1) + "0" == Fill('0', if a < 1 then 1 else a)
    ensures Fill('0', a) + "" == Fill('0', a) && NoBlank(Fill('0', a)) && 'x' !in Fill('0', a)
    ensures a <= 0 ==> Fill('0', a) == ""
  {
    if a >= 1 {
      FillOneMore('0', a - 1, 1);
    } else {
      assert Fill('0', a - 1) == "" && Fill('0', 1) == "0";
    }
  }

  /** What the two contents are. */
  lemma Contents(num: u64, base: nat, precision: int, ty: bv8)
    requires 2 <= base <= 16
    ensures var m := Magnitude(num, ty);
      var c, d := Core(num, base, precision, ty), PlainDigits(num, base, precision, ty);
      && NoBlank(c) && NoBlank(d) && 'x' !in d && c != ""
      && (m == 0 ==> c == Fill('0', if precision < 1 then 1 else precision)
                     && d == Fill('0', if precision < 0 then 1 else precision)
                     && |DigitsText(num, base, ty)| == 1)
      && (m != 0 ==> |c| == |d| && d != "" && (d[0] == '0' <==> precision > |DigitsText(num, base, ty)|)
                     && (precision <= |DigitsText(num, base, ty)| ==> c == DigitsText(num, base, ty))
                     && (c == d <==> Numeral(m, base, ty & SMALL != 0) == Numeral(m, base, ty & LARGE == 0)))
  {
    hide Numeral, Fill, Magnitude, NoBlank;
    var m := Magnitude(num, ty);
    NumeralChars(m, base, ty & SMALL != 0);
    NumeralChars(m, base, ty & LARGE == 0);
    CaseOfLetters(m, base);
    if m == 0 {
      ZeroContents(precision);
    } else {
      OtherContents(precision, Numeral(m, base, ty & SMALL != 0), Numeral(m, base, ty & LARGE == 0));
    }
  }

  lemma ZeroContents(precision: int)
    ensures var c, d := Fill('0', precision - 1) + "0", Fill('0', (if precision < 0 then 1 else precision)) + "";
      && NoBlank(c) && NoBlank(d) && 'x' !in d
      && c == Fill('0', if precision < 1 then 1 else precision) && d == Fill('0', if precision < 0 then 1 else precision)
  {
    hide Fill, NoBlank;
    ZeroFills(precision);
    ZeroFills(if precision < 1 then 1 else precision);
    ZeroFills(if precision < 0 then 1 else precision);
  }

  lemma OtherContents(precision: int, n: string, k: string)
    requires |n| == |k| >= 1 && NoBlank(n) && NoBlank(k) && 'x' !in k && k[0] != '0'
    ensures var c, d := Fill('0', precision - |n|) + n, Fill('0', (if precision < 0 then 1 else precision) - |k|) + k;
      && NoBlank(c) && NoBlank(d) && 'x' !in d && |c| == |d| && d != ""
      && (d[0] == '0' <==> precision > |n|) && (precision <= |n| ==> c == n) && (c == d <==> n == k)
  {
    hide Fill, NoBlank;
    ZerosThen(precision - |n|, n);
    ZerosThen((if precision < 0 then 1 else precision) - |k|, k);
    SameZeros(precision, |n|);
    SameTails(Fill('0', precision - |n|), n, k);
  }

  lemma SameZeros(precision: int, n: nat)
    requires n >= 1
    ensures Fill('0', precision - n) == Fill('0', (if precision < 0 then 1 else precision) - n)
  {
  }

  lemma SameTails(z: string, n: string, k: string)
    requires |n| == |k|
    ensures z + n == z + k <==> n == k
  {
    assert (z + n)[|z|..] == n && (z + k)[|z|..] == k;
  }

  // ---------- The code's field ----------

  lemma CodeIsField(num: u64, base: nat, width: int, precision: int, ty: bv8)
    requires 2 <= base <= 16
    ensures NumberText(num, base, width, precision, ty)
         == Field(Head(num, base, ty), Core(num, base, precision, ty), width, ty & ZEROPAD != 0, ty & LEFT != 0)
  {
  }

  /** In base 8 the prefix is as good as a digit. */
  lemma OctalField(num: u64, width: int, precision: int, ty: bv8)
    requires ty & SPECIAL != 0
    ensures NumberText(num, 8, width, precision, ty)
         == Field(SignText(num, ty), "0" + Core(num, 8, precision, ty), width, ty & ZEROPAD != 0, ty & LEFT != 0)
    ensures |Head(num, 8, ty)| == |SignText(num, ty)| + 1
  {
    hide Core, SignText;
    CodeIsField(num, 8, width, precision, ty);
    ZeroMoves(SignText(num, ty), Core(num, 8, precision, ty), width, ty & ZEROPAD != 0, ty & LEFT != 0);
  }

  lemma ZeroMoves(sign: string, core: string, width: int, zero: bool, left: bool)
    ensures Field(sign + "0", core, width, zero, left) == Field(sign, "0" + core, width, zero, left)
  {
    var pad := width - |sign| - 1 - |core|;
    if left {
      assert (sign + "0") + core == sign + ("0" + core);
    } else if zero {
      assert "0" + Fill('0', pad) == Fill('0', pad) + "0";
      assert sign + "0" + Fill('0', pad) + core == sign + ("0" + Fill('0', pad)) + core;
      assert sign + Fill('0', pad) + ("0" + core) == sign + (Fill('0', pad) + "0") + core;
    } else {
      assert Fill(' ', pad) + (sign + "0") + core == Fill(' ', pad) + sign + ("0" + core);
    }
  }

  function Blanks(num: u64, ty: bv8): nat {
    if SignText(num, ty) == " " then 1 else 0
  }

  lemma SignHead(num: u64, base: nat, ty: bv8)
    ensures HeadWith(SignText(num, ty), Blanks(num, ty)) && HeadWith(Head(num, base, ty), Blanks(num, ty))
    ensures 'x' !in SignText(num, ty) && '0' !in SignText(num, ty)
    ensures SignText(num, ty) + "" == SignText(num, ty)
  {
  }

  // ---------- The cases ----------

  lemma NoLetterInZero()
    ensures !HasLetter(0)
  {
  }

  /** No alternative form, or base 10. */
  lemma PlainCase(num: u64, base: nat, width: int, precision: int, ty: bv8)
    requires base in {8, 10, 16} && (ty & SPECIAL == 0 || base == 10)
    ensures NumberText(num, base, width, precision, ty) == StandardText(num, base, width, precision, ty)
      <==> SameText(num, base, width, precision, ty)
  {
    hide NumberText, Field, PlainDigits, Core, DigitsText, Numeral, SignText, StandardSign, HeadWith, NoBlank,
         Fill, Magnitude, HasLetter;
    CodeIsField(num, base, width, precision, ty);
    SignIsStandard(num, ty);
    Contents(num, base, precision, ty);
    SignHead(num, base, ty);
    CaseOfLetters(Magnitude(num, ty), base);
    NoLetterInZero();
    var c, d := Core(num, base, precision, ty), PlainDigits(num, base, precision, ty);
    var head := SignText(num, ty);
    if Magnitude(num, ty) == 0 && precision == 0 {
      ZeroFills(0);
      ZeroFills(1);
      Contains(head, c, width, ty & ZEROPAD != 0, ty & LEFT != 0, '0');
      Contains(head, d, width, false, ty & LEFT != 0, '0');
      assert c[0] == '0';
    } else {
      SameLengthIff(head, c, d, width, ty & ZEROPAD != 0, ty & ZEROPAD != 0 && precision < 0,
                    ty & LEFT != 0, Blanks(num, ty));
    }
  }

  /** The alternative form of base 16. */
  lemma HexCase(num: u64, width: int, precision: int, ty: bv8)
    requires ty & SPECIAL != 0
    ensures NumberText(num, 16, width, precision, ty) == StandardText(num, 16, width, precision, ty)
      <==> SameText(num, 16, width, precision, ty)
  {
    hide NumberText, Field, PlainDigits, Core, DigitsText, Numeral, SignText, StandardSign, HeadWith, NoBlank,
         Fill, Magnitude, HasLetter;
    CodeIsField(num, 16, width, precision, ty);
    SignIsStandard(num, ty);
    Contents(num, 16, precision, ty);
    SignHead(num, 16, ty);
    var c, d := Core(num, 16, precision, ty), PlainDigits(num, 16, precision, ty);
    var head, std := Head(num, 16, ty), StandardHead(num, 16, ty);
    if Magnitude(num, ty) == 0 || ty & LARGE != 0 {
      Contains(head, c, width, ty & ZEROPAD != 0, ty & LEFT != 0, 'x');
      Contains(std, d, width, ty & ZEROPAD != 0 && precision < 0, ty & LEFT != 0, 'x');
      assert head[|head| - 1] == 'x';
    } else {
      SameLengthIff(head, c, d, width, ty & ZEROPAD != 0, ty & ZEROPAD != 0 && precision < 0,
                    ty & LEFT != 0, Blanks(num, ty));
    }
  }

  lemma OneZeroLonger(c: string, d: string)
    ensures |"0" + c| == |c| + 1 && (NoBlank(c) ==> NoBlank("0" + c)) && ("0" + c == "0" + d <==> c == d)
  {
    assert ("0" + c)[1..] == c && ("0" + d)[1..] == d;
  }

  /** The alternative form of base 8, for a number that is not zero. */
  lemma OctalCase(num: u64, width: int, precision: int, ty: bv8)
    requires ty & SPECIAL != 0 && Magnitude(num, ty) != 0
    ensures NumberText(num, 8, width, precision, ty) == StandardText(num, 8, width, precision, ty)
      <==> SameText(num, 8, width, precision, ty)
  {
    hide NumberText, Field, PlainDigits, Core, DigitsText, Numeral, SignText, StandardSign, HeadWith, NoBlank,
         Fill, Magnitude, HasLetter;
    OctalField(num, width, precision, ty);
    SignIsStandard(num, ty);
    Contents(num, 8, precision, ty);
    SignHead(num, 8, ty);
    CaseOfLetters(Magnitude(num, ty), 8);
    var c, d := Core(num, 8, precision, ty), PlainDigits(num, 8, precision, ty);
    var head := SignText(num, ty);
    OneZeroLonger(c, d);
    if precision > |DigitsText(num, 8, ty)| {
      LongerDiffers(head, "0" + c, d, width, ty & ZEROPAD != 0, ty & LEFT != 0, Blanks(num, ty));
    } else {
      SameLengthIff(head, "0" + c, "0" + d, width, ty & ZEROPAD != 0, ty & ZEROPAD != 0 && precision < 0,
                    ty & LEFT != 0, Blanks(num, ty));
    }
  }

  lemma ZerosToWidth(head: string, width: int)
    ensures Field(head, "00", width, true, false) == Field(head, "0", width, true, false) <==> width >= |head| + 2
    ensures forall z: bool :: Field(head, "0", width, z, true) == Field(head, "0", width, false, true)
  {
    var p := width - |head|;
    FieldLength(head, "00", width, true, false);
    FieldLength(head, "0", width, true, false);
    if p >= 2 {
      FillOneMore('0', p - 2, 1);
      assert Fill('0', p - 2) + "00" == Fill('0', p - 2) + "0" + "0";
      assert head + Fill('0', p - 2) + "00" == head + (Fill('0', p - 2) + "0") + "0";
    }
  }

  /** The alternative form of base 8 for zero. */
  lemma OctalZeroCase(num: u64, width: int, precision: int, ty: bv8)
    requires ty & SPECIAL != 0 && Magnitude(num, ty) == 0
    ensures NumberText(num, 8, width, precision, ty) == StandardText(num, 8, width, precision, ty)
      <==> SameText(num, 8, width, precision, ty)
  {
    hide NumberText, Field, PlainDigits, Core, DigitsText, Numeral, SignText, StandardSign, HeadWith, NoBlank,
         Fill, Magnitude, HasLetter;
    OctalField(num, width, precision, ty);
    SignIsStandard(num, ty);
    Contents(num, 8, precision, ty);
    SignHead(num, 8, ty);
    var c, d := Core(num, 8, precision, ty), PlainDigits(num, 8, precision, ty);
    var std := StandardCore(num, 8, precision, ty);
    var head := SignText(num, ty);
    ZeroFills(0);
    ZeroFills(1);
    ZeroFills(precision);
    OneZeroLonger(c, d);
    OneZeroLonger("", "");
    LeadingZero(precision);
    ZerosToWidth(head, width);
    if precision >= 0 || ty & LEFT != 0 || ty & ZEROPAD == 0 {
      LongerDiffers(head, "0" + c, std, width, ty & ZEROPAD != 0, ty & LEFT != 0, Blanks(num, ty));
    }
  }

  lemma LeadingZero(a: int)
    ensures Fill('0', 1) == "0" && "0" + Fill('0', 1) == "00" && "0" + "" == "0"
    ensures a >= 1 ==> Fill('0', a)[0] == '0' && |Fill('0', a)| == a
    ensures NoBlank("0")
  {
  }

  // ---------- The result ----------

  lemma TextIsStandardIff(num: u64, base: nat, width: int, precision: int, ty: bv8)
    requires base in {8, 10, 16}
    ensures NumberText(num, base, width, precision, ty) == StandardText(num, base, width, precision, ty)
      <==> SameText(num, base, width, precision, ty)
  {
    hide NumberText, StandardText, SameText;
    if ty & SPECIAL == 0 || base == 10 {
      PlainCase(num, base, width, precision, ty);
    } else if base == 16 {
      HexCase(num, width, precision, ty);
    } else if Magnitude(num, ty) == 0 {
      OctalZeroCase(num, width, precision, ty);
    } else {
      OctalCase(num, width, precision, ty);
    }
  }

  /** For every number, base, width, precision and flags: the code prints a field, and it is the standard's,
      exactly when the call conforms. */
  lemma FieldIsStandardIff(num: u64, base: nat, width: int, precision: int, ty: bv8)
    requires base in {8, 10, 16}
    ensures
      Prints(num, base, ty)
      && NumberText(num, base, width, precision, ty) == StandardText(num, base, width, precision, ty)
      <==> Conforms(num, base, width, precision, ty)
  {
    hide NumberText, StandardText, SameText, Prints;
    TextIsStandardIff(num, base, width, precision, ty);
  }

  // ---------- Calls that depart from the standard ----------

  /** The 0 flag beside a precision: zeros where the standard has blanks. */
  lemma FieldOfSeven()
    ensures NumberText(7, 10, 5, 3, SIGN | ZEROPAD) == "00007" && StandardText(7, 10, 5, 3, SIGN | ZEROPAD) == "  007"
  {
    assert SIGN | ZEROPAD == 3;
    assert Numeral(7, 10, false) == "7" && Numeral(7, 10, true) == "7";
    assert Fill('0', 2) == "00" && Fill(' ', 2) == "  ";
    assert "" + "00" + ("00" + "7") == "00007" && "  " + "" + ("00" + "7") == "  007";
  }

  /** Zero: a digit at precision 0, and a prefix in the alternative forms of bases 16 and 8. */
  lemma FieldOfZero()
    ensures NumberText(0, 10, -1, 0, SIGN) == "0" && StandardText(0, 10, -1, 0, SIGN) == ""
    ensures NumberText(0, 16, -1, -1, SPECIAL) == "0x0" && StandardText(0, 16, -1, -1, SPECIAL) == "0"
    ensures NumberText(0, 8, -1, -1, SPECIAL) == "00" && StandardText(0, 8, -1, -1, SPECIAL) == "0"
  {
    assert Numeral(0, 10, false) == Numeral(0, 16, true) == Numeral(0, 8, true) == "0";
    assert Fill('0', 1) == "0";
  }

  /** Ten: a capital for x, and small letters for X in the alternative form. */
  lemma FieldOfLetters()
    ensures NumberText(10, 16, -1, -1, 0) == "A" && StandardText(10, 16, -1, -1, 0) == "a"
    ensures NumberText(10, 16, -1, -1, SPECIAL | LARGE) == "0xa" && StandardText(10, 16, -1, -1, SPECIAL | LARGE) == "0XA"
  {
    assert SPECIAL | LARGE == 0x60;
    assert Numeral(10, 16, false) == "A" && Numeral(10, 16, true) == "a";
  }

  /** 2^63 under %llX: the standard has an 8 with fifteen zeros, and the digit loop never ends. */
  lemma FieldOfTwoTo63()
    ensures StandardText(0x8000_0000_0000_0000, 16, -1, -1, LARGE) == "8" + Fill('0', 15)
    ensures SameText(0x8000_0000_0000_0000, 16, -1, -1, LARGE) && !Conforms(0x8000_0000_0000_0000, 16, -1, -1, LARGE)
    ensures forall k: nat :: AfterShifts(Signed64(Magnitude(0x8000_0000_0000_0000, LARGE)), 4, k) != 0
  {
    hide AfterShifts, Numeral, Fill;
    var n: u64 := 0x8000_0000_0000_0000;
    assert LARGE & SIGN == 0 && LARGE & SPECIAL == 0 && LARGE & LEFT == 0 && LARGE & ZEROPAD == 0 && LARGE & LARGE != 0;
    assert Magnitude(n, LARGE) == n && Signed64(n) < 0;
    forall k: nat
      ensures AfterShifts(Signed64(Magnitude(n, LARGE)), 4, k) != 0
    {
      ShiftsStayNegative(Signed64(n), 4, k);
    }
    EightAndZeros(15);
    assert Pow(16, 5) == 0x10_0000 && Pow(16, 10) == 0x100_0000_0000 && Pow(16, 15) == 0x1000_0000_0000_0000;
    assert PlainDigits(n, 16, -1, LARGE) == Numeral(n, 16, false);
    assert StandardHead(n, 16, LARGE) == "";
  }

  lemma {:induction false} EightAndZeros(k: nat)
    ensures Numeral(8 * Pow(16, k), 16, false) == "8" + Fill('0', k)
  {
    if k > 0 {
      EightAndZeros(k - 1);
      var n := 8 * Pow(16, k - 1);
      assert 8 * Pow(16, k) == 16 * n && 16 * n / 16 == n && 16 * n % 16 == 0;
      FillOneMore('0', k - 1, 1);
      assert Fill('0', 1) == "0";
      assert Numeral(16 * n, 16, false) == Numeral(n, 16, false) + "0";
    }
  }
}
