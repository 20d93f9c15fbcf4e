/** What vsnprintf prints, vsscanf reads back (lib/vsprintf.c). */
module RoundTrip {
  import opened Words
  import opened Ctype
  import opened Numerals
  import opened Output
  import opened NumberFormat
  import opened FormatSpec
  import opened Wrappers
  import opened Strto
  import opened ScanSpec
  import Vsnprintf

  /** One conversion after some white space, and the argument printed: an integer of 16, 32 or 64 bits or a word,
      each with a field width or with 0 for none, a character, or a percent sign. */
  datatype Item =
    | Number(sep: string, width: nat, qualifier: string, kind: char, v: u64)
    | Text(sep: string, width: nat, word: string)
    | Letter(sep: string, c: char)
    | Percent(sep: string)

  predicate Blank(s: string) {
    forall k | 0 <= k < |s| :: IsSpace(s[k])
  }

  function Code(it: Item): char {
    if !it.Number? || it.qualifier == "" then '\0' else if it.qualifier == "ll" then 'L' else it.qualifier[0]
  }

  function Width(it: Item): nat {
    if Code(it) == 'h' then 16 else if Code(it) == 'L' then 64 else 32
  }

  /** How many values the object of the qualifier has. */
  function Full(it: Item): (m: nat)
    ensures m > 0
  {
    if Code(it) == 'h' then 0x1_0000 else if Code(it) == 'L' then TWO_64 else TWO_32
  }

  /** Signed in the conversion, and not made unsigned by the size_t qualifier. */
  predicate ReadSigned(it: Item) {
    it.Number? && IsSigned(it.kind) && Code(it) != 'Z' && Code(it) != 'z'
  }

  predicate Inked(c: char) {
    !IsSpace(c) && c != '\0'
  }

  /** The integer conversions are d, i, u, x, X and o, under any qualifier the two functions share; in bases 8 and
      16 the 64-bit numbers are those whose digit loop ends.  Words and characters are not white space, and a word
      is no longer than its width. */
  predicate Proper(it: Item) {
    match it
    case Number(_, width, q, kind, v) =>
      && width <= INT_MAX && IsInteger(kind) && q in {"", "h", "l", "L", "ll", "z", "Z"}
      && (if Code(it) == 'L' then BaseOf(kind) != 10 ==> v < 0x8000_0000_0000_0000 else v < TWO_32)
    case Text(_, width, word) =>
      word != "" && |word| <= (if width == 0 then INT_MAX else width) <= INT_MAX
      && forall k | 0 <= k < |word| :: Inked(word[k])
    case Letter(_, c) => Inked(c) && c as int < 256
    case Percent(_) => true
  }

  /** All conversions but the first stand after white space. */
  predicate Separated(items: seq<Item>) {
    && (forall k | 0 <= k < |items| :: Proper(items[k]) && Blank(items[k].sep))
    && (forall k | 1 <= k < |items| :: items[k].sep != "")
  }

  function Qualifier(it: Item): string {
    if it.Number? then it.qualifier else ""
  }

  function Kind(it: Item): char {
    match it
    case Number(_, _, _, kind, _) => kind
    case Text(_, _, _) => 's'
    case Letter(_, _) => 'c'
    case Percent(_) => '%'
  }

  /** The field width asked for; 0 for none. */
  function Asked(it: Item): nat {
    if it.Number? || it.Text? then it.width else 0
  }

  function WidthText(it: Item): string {
    if Asked(it) == 0 then "" else Numeral(Asked(it), 10, false)
  }

  function Directive(it: Item): string {
    "%" + (WidthText(it) + (Qualifier(it) + [Kind(it)]))
  }

  function FormatOf(items: seq<Item>): string {
    if items == [] then "" else items[0].sep + (Directive(items[0]) + FormatOf(items[1..]))
  }

  function ArgOf(it: Item): Arg
    requires !it.Percent?
  {
    match it
    case Number(_, _, _, _, v) => if Code(it) == 'L' then Wide(v) else Word(v % TWO_32)
    case Text(_, _, word) => Str(word)
    case Letter(_, c) => Word(c as int % 256)
  }

  function ArgIn(it: Item): seq<Arg> {
    if it.Percent? then [] else [ArgOf(it)]
  }

  function ArgsOf(items: seq<Item>): seq<Arg> {
    if items == [] then [] else ArgIn(items[0]) + ArgsOf(items[1..])
  }

  function StoreOf(it: Item): Stored
    requires !it.Percent?
  {
    match it
    case Number(_, _, _, _, v) => Bits(Width(it), v % Full(it))
    case Text(_, _, word) => Chars(word + ['\0'])
    case Letter(_, c) => Chars([c])
  }

  function StoreIn(it: Item): seq<Stored> {
    if it.Percent? then [] else [StoreOf(it)]
  }

  function StoresOf(items: seq<Item>): seq<Stored> {
    if items == [] then [] else StoreIn(items[0]) + StoresOf(items[1..])
  }

  /** The bits of an object of `full` values, printed or read as a negative number. */
  predicate ShowsMinus(it: Item)
    requires it.Number?
  {
    ReadSigned(it) && it.v % Full(it) >= Full(it) / 2
  }

  /** An integer as its object's width and sign say, in decimal, octal or hexadecimal. */
  function FieldOf(it: Item): string {
    match it
    case Number(_, _, _, kind, v) =>
      if ShowsMinus(it) then "-" + Numeral(Full(it) - v % Full(it), 10, false)
      else Numeral(v % Full(it), BaseOf(kind), false)
    case Text(_, _, word) => word
    case Letter(_, c) => [c]
    case Percent(_) => "%"
  }

  /** The blanks that fill the field up to its width. */
  function Pad(it: Item): string {
    Fill(' ', Asked(it) - |FieldOf(it)|)
  }

  function TextOf(items: seq<Item>): string {
    if items == [] then "" else items[0].sep + (Pad(items[0]) + (FieldOf(items[0]) + TextOf(items[1..])))
  }

  // ---------- Printing ----------

  lemma DirectiveStands(fmt: string, i: nat, it: Item)
    requires Proper(it) && Stands(fmt, i, Directive(it))
    ensures At(fmt, i) == '%' && Stands(fmt, i + 1, WidthText(it)) && i + |Directive(it)| <= |fmt|
    ensures |Directive(it)| == 1 + |WidthText(it)| + |Qualifier(it)| + 1
    ensures var n := i + 1 + |WidthText(it)|;
      && At(fmt, n + |Qualifier(it)|) == Kind(it)
      && (|Qualifier(it)| >= 1 ==> At(fmt, n) == Qualifier(it)[0])
      && (|Qualifier(it)| >= 2 ==> At(fmt, n + 1) == 'l')
  {
    hide WidthText, Stands;
    var q := Qualifier(it) + [Kind(it)];
    var n := i + 1 + |WidthText(it)|;
    StandsApart(fmt, i, "%", WidthText(it) + q);
    StandsApart(fmt, i + 1, WidthText(it), q);
    StandsAt(fmt, i, "%", 0);
    StandsAt(fmt, n, q, |Qualifier(it)|);
    StandsAt(fmt, n, q, 0);
    if |Qualifier(it)| >= 2 {
      StandsAt(fmt, n, q, 1);
    }
    Inside(fmt, n, q);
  }

  lemma Inside(fmt: string, n: nat, q: string)
    requires Stands(fmt, n, q)
    ensures n + |q| <= |fmt|
  {
  }

  /** The width is read as it was written. */
  lemma WidthRead(fmt: string, i: nat, it: Item)
    requires Proper(it) && Stands(fmt, i, Directive(it)) && Asked(it) > 0
    ensures IsDigit(At(fmt, i + 1)) && At(fmt, i + 1) != '0' && i + 1 <= |fmt|
    ensures ScanInt(fmt, i + 1) == Some((Asked(it), i + 1 + |WidthText(it)|))
  {
    hide Numeral, Value, RunEnd;
    DirectiveStands(fmt, i, it);
    var t := WidthText(it);
    FirstDigit(Asked(it), 10, false);
    StandsAt(fmt, i + 1, t, 0);
    NumeralWrites(Asked(it), 10, false);
    RunSoFar(fmt, i + 1, i + 1 + |t|, 10);
    RunOver(fmt, i + 1 + |t|, 10);
  }

  /** The width as the two functions take it. */
  function Given(it: Item): int {
    if Asked(it) == 0 then -1 else Asked(it)
  }

  lemma PlainSpec(fmt: string, i: nat, it: Item, args: seq<Arg>)
    requires Proper(it) && Stands(fmt, i, Directive(it))
    ensures i + |Directive(it)| <= |fmt|
    ensures ParseSpec(fmt, i + 1, args) == Some(Spec(0, Given(it), -1, Code(it), i + |Directive(it)| - 1, args))
    ensures At(fmt, i + |Directive(it)| - 1) == Kind(it)
  {
    hide ScanInt, Numeral, Stands, WidthText, Directive;
    DirectiveStands(fmt, i, it);
    if Asked(it) > 0 {
      WidthRead(fmt, i, it);
    } else {
      assert WidthText(it) == "" by {
        NoWidth(it);
      }
    }
    NoFlagHere(fmt, i + 1);
  }

  lemma NoWidth(it: Item)
    requires Asked(it) == 0
    ensures WidthText(it) == ""
  {
  }

  lemma NoFlagHere(fmt: string, i: nat)
    requires i <= |fmt| && FlagOf(At(fmt, i)) == 0
    ensures ScanFlags(fmt, i, 0) == (0, i)
  {
  }

  /** The 64 bits the formatter works on. */
  function Widened(it: Item): u64
    requires it.Number?
  {
    if ShowsMinus(it) then Wrap64(it.v % Full(it) - Full(it)) else it.v % Full(it)
  }

  lemma ArgIsWidened(it: Item)
    requires it.Number? && Proper(it)
    ensures IntegerArg(ArgOf(it), Code(it), IntegerFlags(it.kind, 0) & SIGN != 0) == Some(Widened(it))
  {
    assert IntegerFlags(it.kind, 0) & SIGN != 0 <==> IsSigned(it.kind);
  }

  lemma WidenedSign(it: Item, ty: bv8)
    requires it.Number? && Proper(it) && (ty & SIGN != 0 <==> IsSigned(it.kind))
    ensures Negative(Widened(it), ty) <==> ShowsMinus(it)
    ensures Magnitude(Widened(it), ty) == if ShowsMinus(it) then Full(it) - it.v % Full(it) else it.v % Full(it)
    ensures ShowsMinus(it) ==> BaseOf(it.kind) == 10
  {
  }

  lemma FieldIsNumber(it: Item)
    requires it.Number? && Proper(it)
    ensures IntegerText(Spec(0, Given(it), -1, Code(it), 0, [ArgOf(it)]), it.kind) == Some(Pad(it) + FieldOf(it))
  {
    hide NumberText, Numeral, IntegerArg, Widened, ShowsMinus, Negative, Magnitude;
    var ty := IntegerFlags(it.kind, 0);
    assert ty & SPECIAL == 0 && ty & SMALL == 0 && ty & PLUS == 0 && ty & SPACE == 0;
    assert ty & SIGN != 0 <==> IsSigned(it.kind);
    var num := Widened(it);
    ArgIsWidened(it);
    WidenedSign(it, ty);
    MagnitudeBelow(it, ty);
    Unpadded(num, BaseOf(it.kind), ty);
    assert ty & LEFT == 0 && ty & ZEROPAD == 0;
    BlanksBefore(num, BaseOf(it.kind), Given(it), ty);
    var sign, digits := SignText(num, ty), DigitsText(num, BaseOf(it.kind), ty);
    assert PrefixText(BaseOf(it.kind), ty) == "";
    assert sign == (if ShowsMinus(it) then "-" else "") by {
      SignIsNegative(num, ty);
    }
    NothingBefore(sign, digits);
    GivenPad(it);
  }

  lemma GivenPad(it: Item)
    requires |FieldOf(it)| >= 1
    ensures Fill(' ', Given(it) - |FieldOf(it)|) == Pad(it)
  {
  }

  /** Without flags a width puts blanks before the field. */
  lemma BlanksBefore(num: u64, base: nat, width: int, ty: bv8)
    requires 2 <= base <= 16 && ty & LEFT == 0 && ty & ZEROPAD == 0
    ensures var t := NumberText(num, base, -1, -1, ty);
      NumberText(num, base, width, -1, ty) == Fill(' ', width - |t|) + t
  {
    hide Numeral, SignText, PrefixText;
    var head, core := Head(num, base, ty), Core(num, base, -1, ty);
    assert Fill(' ', -1 - |head| - |core|) == "";
    assert Fill(' ', width - |head| - |core|) + head + core == Fill(' ', width - |head| - |core|) + (head + core);
    assert "" + head + core == head + core;
  }

  lemma MagnitudeBelow(it: Item, ty: bv8)
    requires it.Number? && Proper(it) && (ty & SIGN != 0 <==> IsSigned(it.kind))
    ensures Prints(Widened(it), BaseOf(it.kind), ty)
  {
  }

  lemma SignIsNegative(num: u64, ty: bv8)
    requires ty & PLUS == 0 && ty & SPACE == 0
    ensures SignText(num, ty) == if Negative(num, ty) then "-" else ""
  {
  }

  lemma NothingBefore(sign: string, digits: string)
    ensures sign + ("" + digits) == sign + digits && (sign == "" ==> sign + digits == digits)
  {
  }

  lemma {:induction false} NoEndInside(word: string, count: nat)
    requires count >= |word| && forall k | 0 <= k < |word| :: Inked(word[k])
    ensures StrNLen(word, count) == |word|
    decreases |word|
  {
    if word != "" {
      assert Inked(word[0]);
      NoEndInside(word[1..], count - 1);
    }
  }

  lemma FieldIsText(spec: Spec, it: Item)
    requires Proper(it) && !it.Percent? && spec.flags == 0 && spec.width == Given(it) && spec.precision == -1
    requires spec.qualifier == Code(it) && spec.args != [] && spec.args[0] == ArgOf(it)
    ensures FieldText(spec, Kind(it)) == Some(Pad(it) + FieldOf(it))
  {
    hide IntegerText, Fill;
    match it
    case Number(_, _, _, kind, _) =>
      FieldIsNumber(it);
      SameField(spec, it);
    case Text(_, _, word) =>
      NoEndInside(word, Limit(-1));
      assert word[..|word|] == word;
      GivenPad(it);
    case Letter(_, c) =>
      GivenPad(it);
  }

  lemma SameField(spec: Spec, it: Item)
    requires it.Number? && spec.args != [] && spec == Spec(0, Given(it), -1, Code(it), spec.at, spec.args)
    requires spec.args[0] == ArgOf(it)
    ensures IntegerText(spec, it.kind) == IntegerText(Spec(0, Given(it), -1, Code(it), 0, [ArgOf(it)]), it.kind)
  {
  }

  lemma ConvertPlain(fmt: string, at: nat, it: Item, rest: seq<Arg>)
    requires Proper(it) && At(fmt, at) == Kind(it)
    ensures Convert(fmt, Spec(0, Given(it), -1, Code(it), at, ArgIn(it) + rest))
         == Some((Pad(it) + FieldOf(it), at + 1, rest))
  {
    hide FieldText, ArgOf, Code;
    var args := ArgIn(it) + rest;
    if it.Percent? {
      assert args == rest && Pad(it) == "" && "" + "%" == "%";
    } else {
      hide FieldOf;
      assert args[0] == ArgOf(it) && args[1..] == rest;
      FieldIsText(Spec(0, Given(it), -1, Code(it), at, args), it);
    }
  }

  lemma RenderSpace(fmt: string, i: nat, args: seq<Arg>)
    requires i < |fmt| && IsSpace(fmt[i]) && Render(fmt, i + 1, args).Some?
    ensures Render(fmt, i, args) == Some([fmt[i]] + Render(fmt, i + 1, args).value)
  {
  }

  /** White space in the format prints itself. */
  lemma {:induction false} RenderBlank(fmt: string, i: nat, sep: string, args: seq<Arg>)
    requires Stands(fmt, i, sep) && Blank(sep) && Render(fmt, i + |sep|, args).Some?
    ensures Render(fmt, i, args) == Some(sep + Render(fmt, i + |sep|, args).value)
    decreases |sep|
  {
    hide Render;
    var rest := Render(fmt, i + |sep|, args).value;
    if sep != "" {
      StandsAt(fmt, i, sep, 0);
      assert [sep[0]] + sep[1..] == sep;
      StandsApart(fmt, i, [sep[0]], sep[1..]);
      RenderBlank(fmt, i + 1, sep[1..], args);
      RenderSpace(fmt, i, args);
      assert [sep[0]] + (sep[1..] + rest) == sep + rest;
    } else {
      assert sep + rest == rest;
    }
  }

  lemma SeparatedRest(items: seq<Item>)
    requires Separated(items) && items != []
    ensures Separated(items[1..]) && Proper(items[0]) && Blank(items[0].sep)
  {
  }

  lemma RenderDirective(fmt: string, i: nat, it: Item, rest: seq<Arg>)
    requires Stands(fmt, i, Directive(it)) && Proper(it) && i + |Directive(it)| <= |fmt|
    requires Render(fmt, i + |Directive(it)|, rest).Some?
    ensures Render(fmt, i, ArgIn(it) + rest)
         == Some(Pad(it) + FieldOf(it) + Render(fmt, i + |Directive(it)|, rest).value)
  {
    hide ParseSpec, Convert, FieldOf, ArgIn, Code, Pad, Given, Render, Directive, Kind, Qualifier, WidthText, Proper,
         Stands;
    DirectiveStands(fmt, i, it);
    PlainSpec(fmt, i, it, ArgIn(it) + rest);
    ConvertPlain(fmt, i + |Directive(it)| - 1, it, rest);
    RenderOne(fmt, i, ArgIn(it) + rest);
  }

  lemma RenderOne(fmt: string, i: nat, args: seq<Arg>)
    requires At(fmt, i) == '%' && i < |fmt| && ParseSpec(fmt, i + 1, args).Some?
    requires Convert(fmt, ParseSpec(fmt, i + 1, args).value).Some?
    requires var (t, next, rest) := Convert(fmt, ParseSpec(fmt, i + 1, args).value).value;
      i < next <= |fmt| && Render(fmt, next, rest).Some?
    ensures var (t, next, rest) := Convert(fmt, ParseSpec(fmt, i + 1, args).value).value;
      Render(fmt, i, args) == Some(t + Render(fmt, next, rest).value)
  {
    hide ParseSpec, Convert;
  }

  lemma {:induction false} ItemsPrint(fmt: string, i: nat, items: seq<Item>)
    requires Separated(items) && Stands(fmt, i, FormatOf(items)) && i + |FormatOf(items)| == |fmt|
    ensures Render(fmt, i, ArgsOf(items)) == Some(TextOf(items))
    decreases |items|
  {
    hide Render, FieldOf, Separated, Directive, ArgIn, Pad;
    if items == [] {
      RenderEnd(fmt, i);
    } else {
      SeparatedRest(items);
      var it, rest := items[0], items[1..];
      StandsApart(fmt, i, it.sep, Directive(it) + FormatOf(rest));
      StandsApart(fmt, i + |it.sep|, Directive(it), FormatOf(rest));
      ItemsPrint(fmt, i + |it.sep| + |Directive(it)|, rest);
      RenderDirective(fmt, i + |it.sep|, it, ArgsOf(rest));
      RenderBlank(fmt, i, it.sep, ArgsOf(items));
      assert Pad(it) + FieldOf(it) + TextOf(rest) == Pad(it) + (FieldOf(it) + TextOf(rest));
    }
  }

  lemma RenderEnd(fmt: string, i: nat)
    requires i == |fmt|
    ensures Render(fmt, i, []) == Some("")
  {
  }

  // ---------- Scanning ----------

  lemma {:induction false} SkipBlank(s: string, i: nat, sep: string)
    requires Stands(s, i, sep) && Blank(sep) && !IsSpace(At(s, i + |sep|))
    ensures SkipSpace(s, i) == i + |sep|
    decreases |sep|
  {
    if sep != "" {
      StandsAt(s, i, sep, 0);
      assert [sep[0]] + sep[1..] == sep;
      StandsApart(s, i, [sep[0]], sep[1..]);
      SkipBlank(s, i + 1, sep[1..]);
    }
  }

  lemma UnsignedBack(s: string, j: nat, base: nat, n: nat, t: string)
    requires base in {0, 8, 10, 16} && t == Numeral(n, if base == 0 then 10 else base, false)
    requires Stands(s, j, t) && Stops(At(s, j + |t|))
    ensures NumberValue(s, j, base) == n && NumberEnd(s, j, base) == j + |t|
    ensures IsDigitOf(At(s, j), if base == 0 then 10 else base)
  {
    hide NumberValue, NumberEnd, Numeral;
    FirstDigit(n, if base == 0 then 10 else base, false);
    StandsAt(s, j, t, 0);
    if base == 0 {
      DetectsDecimal(s, j, n);
    } else {
      ReadsNumeral(s, j, n, base, false);
    }
  }

  lemma DigitIsNoSpace(c: char, base: nat)
    requires IsDigitOf(c, base)
    ensures !IsSpace(c) && c != '\0' && c != '-' && IsXDigit(c) && (base <= 10 ==> IsDigit(c)) && (base == 8 ==> c <= '7')
  {
  }

  lemma NegativeBack(s: string, j: nat, base: nat, mag: nat, m: nat, t: string)
    requires base in {0, 10} && 0 < mag <= m && t == Numeral(mag, 10, false)
    requires Stands(s, j, "-" + t) && Stops(At(s, j + 1 + |t|))
    ensures SignedRead(s, j, base, m) == (m - mag, j + 1 + |t|)
    ensures At(s, j) == '-' && IsDigitOf(At(s, j + 1), 10)
  {
    hide NumberValue, NumberEnd, Numeral, Stands, Stops;
    StandsApart(s, j, "-", t);
    StandsAt(s, j, "-", 0);
    UnsignedBack(s, j + 1, base, mag, t);
    EuclidUnique(0 - mag, m, -1, m - mag);
  }

  /** Reading works modulo 2^32, or 2^64 for the long long qualifier. */
  function Modulus(it: Item): nat {
    if Code(it) == 'L' then TWO_64 else TWO_32
  }

  lemma StoreIs(s: string, j: nat, it: Item, e: nat)
    requires j <= |s| && it.Number? && Proper(it)
    requires if ShowsMinus(it) then SignedRead(s, j, InputBase(it.kind), Modulus(it))
                                    == (Modulus(it) - (Full(it) - it.v % Full(it)), e)
             else NumberValue(s, j, InputBase(it.kind)) == it.v % Full(it) && NumberEnd(s, j, InputBase(it.kind)) == e
                  && At(s, j) != '-'
    ensures StoreNumber(s, j, InputBase(it.kind), IsSigned(it.kind), Code(it)) == (StoreOf(it), e)
  {
    hide NumberValue, NumberEnd, Pow2, Full, Width, Modulus, SignedRead;
    WidthIsFull(it);
    FullWithin(it);
    LowPart(it, it.v % Full(it));
    SignedIsUnsigned(s, j, InputBase(it.kind), Modulus(it));
    SizesAre(it);
  }

  lemma SizesAre(it: Item)
    ensures Modulus(it) == if Code(it) == 'L' then TWO_64 else TWO_32
    ensures Width(it) == if Code(it) == 'h' then 16 else if Code(it) == 'L' then 64 else 32
  {
  }

  lemma WidthIsFull(it: Item)
    ensures Pow2(Width(it)) == Full(it)
  {
    Widths();
    SmallWidths();
  }

  /** What is negated modulo the larger power of two has the low bits it had modulo the smaller one. */
  lemma LowPart(it: Item, x: nat)
    requires x < Full(it) <= Modulus(it)
    ensures (Modulus(it) - (Full(it) - x)) % Full(it) == x && x % Full(it) == x && x % Modulus(it) == x
  {
  }

  lemma SignedIsUnsigned(s: string, j: nat, base: nat, m: nat)
    requires j <= |s| && m > 0
    ensures At(s, j) != '-' ==> SignedRead(s, j, base, m) == (NumberValue(s, j, base) % m, NumberEnd(s, j, base))
  {
  }

  /** A printed integer is read back as the bits of its object, the most negative numbers included. */
  lemma FieldReads(s: string, j: nat, it: Item)
    requires it.Number? && Proper(it) && Stands(s, j, FieldOf(it)) && Stops(At(s, j + |FieldOf(it)|))
    ensures StartsNumber(s, j, InputBase(it.kind), IsSigned(it.kind)) && !IsSpace(At(s, j))
    ensures StoreNumber(s, j, InputBase(it.kind), IsSigned(it.kind), Code(it)) == (StoreOf(it), j + |FieldOf(it)|)
  {
    hide NumberValue, NumberEnd, Numeral, IsDigitOf, Stands, Stops, StoreNumber, StoreOf, Code;
    var base := InputBase(it.kind);
    var b := if base == 0 then 10 else base;
    var x := it.v % Full(it);
    if ShowsMinus(it) {
      FullWithin(it);
      NegativeBack(s, j, base, Full(it) - x, Modulus(it), Numeral(Full(it) - x, 10, false));
      DigitIsNoSpace(At(s, j + 1), b);
    } else {
      UnsignedBack(s, j, base, x, Numeral(x, b, false));
      DigitIsNoSpace(At(s, j), b);
    }
    StoreIs(s, j, it, j + |FieldOf(it)|);
  }

  lemma FullWithin(it: Item)
    ensures 0 < Full(it) <= Modulus(it)
  {
  }

  predicate Ends(c: char) {
    IsSpace(c) || c == '\0'
  }

  lemma {:induction false} WordReads(s: string, j: nat, word: string, limit: nat)
    requires Stands(s, j, word) && Ends(At(s, j + |word|)) && |word| <= limit
    requires forall k | 0 <= k < |word| :: Inked(word[k])
    ensures WordEnd(s, j, limit) == j + |word|
    decreases |word|
  {
    if word != "" {
      assert Inked(word[0]);
      StandsAt(s, j, word, 0);
      assert [word[0]] + word[1..] == word;
      StandsApart(s, j, [word[0]], word[1..]);
      WordReads(s, j + 1, word[1..], limit - 1);
    }
  }

  /** What a conversion does with the field that was printed for it, perhaps behind blanks. */
  lemma Applies(s: string, j: nat, lead: string, it: Item, o: Outcome)
    requires Proper(it) && Stands(s, j, lead) && Blank(lead) && (it.Letter? || it.Percent? ==> lead == "")
    requires Stands(s, j + |lead|, FieldOf(it)) && Ends(At(s, j + |lead| + |FieldOf(it)|))
    ensures j < |s| && At(s, j) != '\0' && Inked(At(s, j + |lead|))
    ensures Apply(s, j, Kind(it), Given(it), Code(it), o)
         == Go(j + |lead| + |FieldOf(it)|, Outcome(o.count + |StoreIn(it)|, o.stores + StoreIn(it)))
  {
    hide Apply, StoreIn, FieldOf, Code, Given, SkipSpace, Stands, Proper, Blank, Kind;
    FieldInked(s, j + |lead|, it);
    LeadPassed(s, j, lead);
    match it
    case Number(_, _, _, _, _) =>
      NumberApplies(s, j, j + |lead|, it, o);
    case Text(_, _, _) =>
      WordApplies(s, j, j + |lead|, it, o);
    case Letter(_, _) =>
      SignApplies(s, j, it, o);
    case Percent(_) =>
      SignApplies(s, j, it, o);
  }

  lemma LeadPassed(s: string, j: nat, lead: string)
    requires Stands(s, j, lead) && Blank(lead) && Inked(At(s, j + |lead|))
    ensures j < |s| && At(s, j) != '\0' && SkipSpace(s, j) == j + |lead|
  {
    SkipBlank(s, j, lead);
    if lead != "" {
      StandsAt(s, j, lead, 0);
    }
  }

  lemma NumberApplies(s: string, j: nat, k: nat, it: Item, o: Outcome)
    requires it.Number? && Proper(it) && j <= |s| && At(s, j) != '\0' && SkipSpace(s, j) == k
    requires Stands(s, k, FieldOf(it)) && Ends(At(s, k + |FieldOf(it)|))
    ensures Apply(s, j, Kind(it), Given(it), Code(it), o)
         == Go(k + |FieldOf(it)|, Outcome(o.count + |StoreIn(it)|, o.stores + StoreIn(it)))
  {
    hide StoreNumber, StartsNumber, SkipSpace, StoreOf, FieldOf, Code, Stands;
    EndStops(At(s, k + |FieldOf(it)|));
    FieldReads(s, k, it);
  }

  lemma EndStops(c: char)
    requires Ends(c)
    ensures Stops(c)
  {
  }

  lemma WordApplies(s: string, j: nat, k: nat, it: Item, o: Outcome)
    requires it.Text? && Proper(it) && j <= |s| && At(s, j) != '\0' && SkipSpace(s, j) == k
    requires Stands(s, k, FieldOf(it)) && Ends(At(s, k + |FieldOf(it)|))
    ensures Apply(s, j, Kind(it), Given(it), Code(it), o)
         == Go(k + |FieldOf(it)|, Outcome(o.count + |StoreIn(it)|, o.stores + StoreIn(it)))
  {
    hide SkipSpace, WordEnd, Ends;
    WordReads(s, k, it.word, if it.width == 0 then INT_MAX else it.width);
  }

  lemma SignApplies(s: string, j: nat, it: Item, o: Outcome)
    requires (it.Letter? || it.Percent?) && Proper(it) && j < |s| && At(s, j) != '\0' && Stands(s, j, FieldOf(it))
    ensures Apply(s, j, Kind(it), Given(it), Code(it), o)
         == Go(j + |FieldOf(it)|, Outcome(o.count + |StoreIn(it)|, o.stores + StoreIn(it)))
  {
    hide BlockEnd, SkipSpace;
    StandsAt(s, j, FieldOf(it), 0);
    OneChar(s, j);
    assert o.stores + [] == o.stores;
  }

  lemma OneChar(s: string, j: nat)
    requires j < |s| && s[j] != '\0'
    ensures BlockEnd(s, j, -1) == j + 1 && s[j..j + 1] == [s[j]]
  {
  }

  lemma FieldInked(s: string, j: nat, it: Item)
    requires Proper(it) && Stands(s, j, FieldOf(it))
    ensures |FieldOf(it)| >= 1 && Inked(At(s, j))
  {
    if it.Number? {
      FirstDigit(it.v % Full(it), BaseOf(it.kind), false);
    }
    StandsAt(s, j, FieldOf(it), 0);
  }

  lemma ScanPlain(fmt: string, i: nat, s: string, j: nat, i1: nat, j1: nat, it: Item, o: Outcome)
    requires Proper(it) && i <= i1 && Stands(fmt, i1, Directive(it)) && j <= j1 < |s|
    requires At(fmt, i) != '\0' && At(s, j) != '\0' && At(s, j1) != '\0'
    requires if IsSpace(At(fmt, i)) then i1 == SkipSpace(fmt, i) && j1 == SkipSpace(s, j) else i1 == i && j1 == j
    ensures i1 + |Directive(it)| <= |fmt| && i <= |fmt|
    ensures Scan(fmt, i, s, j, o) ==
      match Apply(s, j1, Kind(it), Given(it), Code(it), o)
      case Stop(r) => Some(r)
      case Go(next, r) => Scan(fmt, i1 + |Directive(it)|, s, next, r)
  {
    hide Apply, SkipSpace, Stands, Directive, Qualifier, WidthText, Kind, Code, Given, InputWidth, InputQualifier, Proper,
         SkipWord, IsSpace;
    DirectiveStands(fmt, i1, it);
    PercentIsNoSpace();
    InputParsed(fmt, i1, it);
  }

  lemma PercentIsNoSpace()
    ensures !IsSpace('%')
  {
  }

  lemma InputParsed(fmt: string, i: nat, it: Item)
    requires Proper(it) && Stands(fmt, i, Directive(it))
    ensures i + |Directive(it)| <= |fmt| && At(fmt, i + 1) != '*' && Kind(it) != '\0'
    ensures InputWidth(fmt, i + 1) == Some((Given(it), i + 1 + |WidthText(it)|))
    ensures InputQualifier(fmt, i + 1 + |WidthText(it)|) == (Code(it), i + |Directive(it)| - 1)
  {
    hide ScanInt, Numeral, Stands;
    DirectiveStands(fmt, i, it);
    if Asked(it) > 0 {
      WidthRead(fmt, i, it);
    }
  }

  lemma PadIsBlank(it: Item)
    requires Proper(it)
    ensures Blank(Pad(it)) && (it.Letter? || it.Percent? ==> Pad(it) == "")
    ensures Blank(it.sep) ==> Blank(it.sep + Pad(it))
  {
  }

  /** One conversion of the scan. */
  lemma ScanItem(fmt: string, i: nat, s: string, j: nat, it: Item, o: Outcome)
    requires Proper(it) && Blank(it.sep)
    requires Stands(fmt, i, it.sep) && Stands(fmt, i + |it.sep|, Directive(it))
    requires Stands(s, j, it.sep + Pad(it)) && Stands(s, j + |it.sep + Pad(it)|, FieldOf(it))
    requires Ends(At(s, j + |it.sep + Pad(it)| + |FieldOf(it)|))
    ensures i + |it.sep| + |Directive(it)| <= |fmt| && j + |it.sep + Pad(it)| + |FieldOf(it)| <= |s|
    ensures Scan(fmt, i, s, j, o)
         == Scan(fmt, i + |it.sep| + |Directive(it)|, s, j + |it.sep + Pad(it)| + |FieldOf(it)|,
                 Outcome(o.count + |StoreIn(it)|, o.stores + StoreIn(it)))
  {
    hide StoreNumber, StartsNumber, FieldOf, Scan, Apply, StoreIn, Code, Pad, Given, Directive, Qualifier,
         WidthText, Kind,
         Stands, Blank, Proper, SkipSpace, Ends, IsSpace;
    var lead := it.sep + Pad(it);
    var i1 := i + |it.sep|;
    DirectiveStands(fmt, i1, it);
    PadIsBlank(it);
    Inside(s, j + |lead|, FieldOf(it));
    PercentIsNoSpace();
    if it.sep != "" {
      FieldInked(s, j + |lead|, it);
      BothSkipped(fmt, i, s, j, it.sep, lead);
      Nothing(s, j + |lead|);
      Applies(s, j + |lead|, "", it, o);
      ScanPlain(fmt, i, s, j, i1, j + |lead|, it, o);
    } else {
      assert lead == Pad(it);
      Applies(s, j, lead, it, o);
      ScanPlain(fmt, i, s, j, i1, j, it, o);
    }
  }

  /** White space in the format passes all the white space of the input, that of the padding included. */
  lemma BothSkipped(fmt: string, i: nat, s: string, j: nat, sep: string, lead: string)
    requires sep != "" && |lead| >= |sep| && lead[0] == sep[0] && Blank(sep) && Blank(lead)
    requires Stands(fmt, i, sep) && !IsSpace(At(fmt, i + |sep|)) && Stands(s, j, lead) && !IsSpace(At(s, j + |lead|))
    ensures IsSpace(At(fmt, i)) && At(fmt, i) != '\0' && At(s, j) != '\0'
    ensures i <= |fmt| && j <= |s| && SkipSpace(fmt, i) == i + |sep| && SkipSpace(s, j) == j + |lead|
  {
    StandsAt(fmt, i, sep, 0);
    StandsAt(s, j, lead, 0);
    BlankAt(sep);
    SkipBlank(fmt, i, sep);
    SkipBlank(s, j, lead);
  }

  lemma BlankAt(sep: string)
    requires Blank(sep) && sep != ""
    ensures IsSpace(sep[0]) && sep[0] != '\0'
  {
  }

  lemma Nothing(s: string, j: nat)
    requires j <= |s|
    ensures Stands(s, j, "") && Blank("")
  {
  }

  /** What follows a field ends it. */
  lemma TextEnds(s: string, j: nat, items: seq<Item>)
    requires Separated(items) && Stands(s, j, TextOf(items)) && At(s, j + |TextOf(items)|) == '\0'
    requires items != [] ==> items[0].sep != ""
    ensures Ends(At(s, j))
  {
    if items != [] {
      StandsAt(s, j, TextOf(items), 0);
      SeparatedRest(items);
    }
  }

  lemma {:induction false} Reads(fmt: string, i: nat, s: string, j: nat, items: seq<Item>, o: Outcome)
    requires Separated(items) && Stands(fmt, i, FormatOf(items)) && i + |FormatOf(items)| == |fmt|
    requires Stands(s, j, TextOf(items)) && At(s, j + |TextOf(items)|) == '\0'
    ensures Scan(fmt, i, s, j, o) == Some(Outcome(o.count + |StoresOf(items)|, o.stores + StoresOf(items)))
    decreases |items|
  {
    if items == [] {
      assert o.stores + [] == o.stores;
    } else {
      ReadsStep(fmt, i, s, j, items, o);
    }
  }

  lemma FirstItem(items: seq<Item>)
    requires items != [] && Separated(items)
    ensures FormatOf(items) == items[0].sep + (Directive(items[0]) + FormatOf(items[1..]))
    ensures TextOf(items) == items[0].sep + Pad(items[0]) + (FieldOf(items[0]) + TextOf(items[1..]))
    ensures StoresOf(items) == StoreIn(items[0]) + StoresOf(items[1..])
    ensures |items| > 1 ==> items[1..] != [] && items[1..][0].sep != ""
  {
    hide Pad, FieldOf, Directive, StoreIn, Proper, Blank;
    Regrouped(items[0].sep, Pad(items[0]), FieldOf(items[0]) + TextOf(items[1..]));
  }

  lemma Regrouped(a: string, p: string, r: string)
    ensures a + (p + r) == a + p + r
  {
  }

  lemma AppendStores(a: seq<Stored>, b: seq<Stored>, c: seq<Stored>)
    ensures a + b + c == a + (b + c)
  {
  }

  lemma ThreeStand(s: string, i: nat, a: string, b: string, c: string)
    requires Stands(s, i, a + (b + c))
    ensures Stands(s, i, a) && Stands(s, i + |a|, b) && Stands(s, i + |a| + |b|, c)
  {
    hide Stands;
    StandsApart(s, i, a, b + c);
    StandsApart(s, i + |a|, b, c);
  }

  lemma ReadsStep(fmt: string, i: nat, s: string, j: nat, items: seq<Item>, o: Outcome)
    requires Separated(items) && Stands(fmt, i, FormatOf(items)) && i + |FormatOf(items)| == |fmt| && items != []
    requires Stands(s, j, TextOf(items)) && At(s, j + |TextOf(items)|) == '\0'
    ensures Scan(fmt, i, s, j, o) == Some(Outcome(o.count + |StoresOf(items)|, o.stores + StoresOf(items)))
    decreases |items|, 0
  {
    hide Scan, FieldOf, Directive, StoreIn, Stands, Separated, TextOf, FormatOf, StoresOf, Blank, Pad, Proper, Ends, At;
    SeparatedRest(items);
    FirstItem(items);
    var it, rest := items[0], items[1..];
    var lead, field := it.sep + Pad(it), FieldOf(it);
    ThreeStand(fmt, i, it.sep, Directive(it), FormatOf(rest));
    ThreeStand(s, j, lead, field, TextOf(rest));
    TextEnds(s, j + |lead| + |field|, rest);
    ScanItem(fmt, i, s, j, it, o);
    var o1 := Outcome(o.count + |StoreIn(it)|, o.stores + StoreIn(it));
    Reads(fmt, i + |it.sep| + |Directive(it)|, s, j + |lead| + |field|, rest, o1);
    AppendStores(o.stores, StoreIn(it), StoresOf(rest));
  }

  // ---------- The round trip ----------

  lemma StandsWhole(s: string)
    ensures Stands(s, 0, s)
  {
  }

  lemma DeliveredStands(before: string, size: nat, text: string)
    requires |text| < size && Room(|before|, size, text)
    ensures var s := Vsnprintf.Delivered(before, size, text); Stands(s, 0, text) && At(s, |text|) == '\0'
  {
  }

  /** Printing any list of integers of any size, words, characters and percent signs under white-space-separated
      conversions with any field widths into a buffer that holds the text, and scanning the buffer with the same
      format, returns the count and the values. */
  lemma PrintScan(items: seq<Item>, before: string, size: nat)
    requires Separated(items) && |TextOf(items)| < size && Room(|before|, size, TextOf(items))
    ensures Render(FormatOf(items), 0, ArgsOf(items)) == Some(TextOf(items))
    ensures Scan(FormatOf(items), 0, Vsnprintf.Delivered(before, size, TextOf(items)), 0, Outcome(0, []))
         == Some(Outcome(|StoresOf(items)|, StoresOf(items)))
  {
    hide Stands, TextOf, FormatOf, StoresOf, Separated, Render, Scan, Vsnprintf.Delivered;
    var fmt, text := FormatOf(items), TextOf(items);
    StandsWhole(fmt);
    ItemsPrint(fmt, 0, items);
    var s := Vsnprintf.Delivered(before, size, text);
    DeliveredStands(before, size, text);
    Reads(fmt, 0, s, 0, items, Outcome(0, []));
    assert [] + StoresOf(items) == StoresOf(items);
  }
}
