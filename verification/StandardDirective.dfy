/** A printf directive of section 7.19.6.1 of ISO/IEC 9899:1999, from its characters to its text, and when the one of
    lib/vsprintf.c prints the same. */
module StandardDirective {
  import opened Words
  import opened Ctype
  import opened Numerals
  import opened Output
  import opened NumberFormat
  import opened FormatSpec
  import opened Wrappers
  import opened Strto
  import opened StandardField
  import FieldMeaning

  // ---------- The standard's directive ----------

  /** A width or precision as it is written. */
  datatype Amount = Given(digits: string) | Star

  /** The parts of a directive behind its percent sign.  A precision is a point with an amount or with nothing. */
  datatype Directive = Directive(flags: string, width: Option<Amount>, precision: Option<Option<Amount>>,
                                 length: string, conv: char)

  function AmountText(a: Option<Amount>): string {
    match a
    case None => ""
    case Some(Star) => "*"
    case Some(Given(digits)) => digits
  }

  function PrecisionText(p: Option<Option<Amount>>): string {
    if p.None? then "" else "." + AmountText(p.value)
  }

  function DirectiveText(d: Directive): string {
    d.flags + (AmountText(d.width) + (PrecisionText(d.precision) + (d.length + [d.conv])))
  }

  predicate IsFlag(c: char) {
    c == '-' || c == '+' || c == ' ' || c == '#' || c == '0'
  }

  predicate IsConversion(c: char) {
    c == 'd' || c == 'i' || c == 'o' || c == 'u' || c == 'x' || c == 'X' || c == 'c' || c == 's'
  }

  predicate IsLength(q: string) {
    q in {"", "h", "l", "ll", "L", "z", "Z"}
  }

  predicate IsAmount(a: Option<Amount>) {
    a.Some? && a.value.Given? ==> a.value.digits != "" && AllDigits(a.value.digits, 10)
  }

  /** Flags in any order and number, an amount that is not taken for a flag, and so on. */
  predicate Grammatical(d: Directive) {
    && (forall k | 0 <= k < |d.flags| :: IsFlag(d.flags[k]))
    && IsAmount(d.width) && (d.width.Some? && d.width.value.Given? ==> d.width.value.digits[0] != '0')
    && (d.precision.Some? ==> IsAmount(d.precision.value))
    && IsLength(d.length) && IsConversion(d.conv)
  }

  /** The value of an amount; a `*` takes the next argument, an int.  Values above INT_MAX are undefined. */
  function Amounts(a: Option<Amount>, args: seq<Arg>): Option<(Option<int>, seq<Arg>)> {
    match a
    case None => Some((None, args))
    case Some(Given(digits)) =>
      if AllDigits(digits, 10) && Value(digits, 10) <= INT_MAX then Some((Some(Value(digits, 10)), args)) else None
    case Some(Star) =>
      if args != [] && args[0].Word? then Some((Some(Signed32(args[0].w)), args[1..])) else None
  }

  function PrecisionAmount(p: Option<Option<Amount>>, args: seq<Arg>): Option<(Option<int>, seq<Arg>)> {
    if p.None? then Some((None, args)) else Amounts(p.value, args)
  }

  /** What the parts mean: the flags that are set, width and precision or -1 for none, and the arguments left. */
  datatype Layout = Layout(left: bool, plus: bool, space: bool, alt: bool, zero: bool, width: int, precision: int,
                           args: seq<Arg>)

  /** A negative `*` width is a - flag and a positive width, a negative `*` precision is none; a point alone is
      precision 0. */
  function LayoutOf(d: Directive, args: seq<Arg>): (r: Option<Layout>)
    ensures r.Some? ==> -1 <= r.value.width <= INT_MAX && -1 <= r.value.precision <= INT_MAX
  {
    match Amounts(d.width, args)
    case None => None
    case Some((w, rest)) =>
      if w == Some(-0x8000_0000) then None
      else
        match PrecisionAmount(d.precision, rest)
        case None => None
        case Some((p, rest')) =>
          Some(Layout('-' in d.flags || (w.Some? && w.value < 0), '+' in d.flags, ' ' in d.flags, '#' in d.flags,
                      '0' in d.flags,
                      if w.None? then -1 else if w.value < 0 then -w.value else w.value,
                      if d.precision.None? then -1 else if p.None? then 0 else if p.value < 0 then -1 else p.value,
                      rest'))
  }

  /** The flags of a field, one bit each, with the bits for a signed conversion and for capital letters. */
  function FieldFlags(l: Layout, conv: char): bv8 {
    (if l.left then LEFT else 0) | (if l.plus then PLUS else 0) | (if l.space then SPACE else 0)
    | (if l.alt then SPECIAL else 0) | (if l.zero then ZEROPAD else 0)
    | (if conv == 'd' || conv == 'i' then SIGN else 0) | (if conv == 'X' then LARGE else 0)
  }

  function StandardBase(conv: char): (b: nat)
    ensures b in {8, 10, 16}
  {
    match conv
    case 'o' => 8
    case 'x' => 16
    case 'X' => 16
    case _ => 10
  }

  /** A word read as a two's complement number of so many bits. */
  function SignedOf(v: nat, full: nat): int
    requires full > 0
  {
    var low := v % full;
    if 2 * low >= full then low - full else low
  }

  /** The integer that a conversion prints: of the type that length and conversion name, int and long having 32
      bits and size_t too. */
  function StandardValue(a: Arg, length: string, conv: char): Option<int> {
    var signed := conv == 'd' || conv == 'i';
    if length == "ll" || length == "L" then
      if a.Wide? then Some(if signed then SignedOf(a.v, TWO_64) else a.v) else None
    else if a.Word? then
      var full := if length == "h" then 0x1_0000 else TWO_32;
      Some(if signed then SignedOf(a.w, full) else a.w % full)
    else None
  }

  function StandardPad(body: string, width: int, left: bool): string {
    var blanks := Fill(' ', width - |body|);
    if left then body + blanks else blanks + body
  }

  /** The string up to its end mark, or to the precision if there is one. */
  function StandardBody(s: string, precision: int): string {
    s[..StrNLen(s, if precision < 0 then |s| else precision)]
  }

  /** The text of a directive. */
  function DirectiveField(d: Directive, args: seq<Arg>): Option<string> {
    match LayoutOf(d, args)
    case None => None
    case Some(l) =>
      if l.args == [] then None
      else if d.conv == 'c' then
        if d.length == "" && l.args[0].Word? then
          Some(StandardPad([(l.args[0].w % 256) as char], l.width, l.left))
        else None
      else if d.conv == 's' then
        if d.length == "" && l.args[0].Str? then
          Some(StandardPad(StandardBody(l.args[0].s, l.precision), l.width, l.left))
        else None
      else
        match StandardValue(l.args[0], d.length, d.conv)
        case None => None
        case Some(v) => Some(StandardText(Wrap64(v), StandardBase(d.conv), l.width, l.precision, FieldFlags(l, d.conv)))
  }

  // ---------- The condition ----------

  /** The precision is a `*`, and its argument is negative. */
  predicate NegativePrecision(d: Directive, args: seq<Arg>) {
    && d.precision == Some(Some(Star)) && Amounts(d.width, args).Some?
    && var rest := Amounts(d.width, args).value.1;
    rest != [] && rest[0].Word? && Signed32(rest[0].w) < 0
  }

  /** Only blanks, and no more of them than the width asks for. */
  predicate BlankWithin(b: string, width: int) {
    |b| <= Max(width, 0) && forall k | 0 <= k < |b| :: b[k] == ' '
  }

  predicate NegativeSizeT(d: Directive, v: int) {
    (d.length == "z" || d.length == "Z") && v < 0
  }

  /** The directives that print as the standard says.  A negative precision hurts strings only, and not those
      that are lost in the padding; a negative size_t is printed as if it were unsigned; an integer field
      conforms by itself. */
  predicate DirectiveConforms(d: Directive, args: seq<Arg>)
    requires DirectiveField(d, args).Some?
  {
    var l := LayoutOf(d, args).value;
    if d.conv == 's' then NegativePrecision(d, args) ==> BlankWithin(StandardBody(l.args[0].s, -1), l.width)
    else if d.conv == 'c' then true
    else
      var v := StandardValue(l.args[0], d.length, d.conv).value;
      && !NegativeSizeT(d, v)
      && Conforms(Wrap64(v), StandardBase(d.conv), l.width, l.precision, FieldFlags(l, d.conv))
  }

  // ---------- Reading the flags ----------

  /** The flag bits of a run of flag characters. */
  function RunBits(run: string): bv8 {
    (if '-' in run then LEFT else 0) | (if '+' in run then PLUS else 0) | (if ' ' in run then SPACE else 0)
    | (if '#' in run then SPECIAL else 0) | (if '0' in run then ZEROPAD else 0)
  }

  /** Each bit is set exactly when its character occurs. */
  lemma RunBitsIff(run: string)
    ensures RunBits(run) & LEFT != 0 <==> '-' in run
    ensures RunBits(run) & PLUS != 0 <==> '+' in run
    ensures RunBits(run) & SPACE != 0 <==> ' ' in run
    ensures RunBits(run) & SPECIAL != 0 <==> '#' in run
    ensures RunBits(run) & ZEROPAD != 0 <==> '0' in run
    ensures RunBits(run) & SIGN == 0 && RunBits(run) & LARGE == 0
  {
  }

  lemma OneFlagMore(c: char, run: string)
    requires IsFlag(c)
    ensures RunBits([c] + run) == FlagOf(c) | RunBits(run) && FlagOf(c) != 0
  {
    assert forall x: char :: x in [c] + run <==> x == c || x in run;
  }

  /** A run of flags is read to its end, whatever their order and number. */
  lemma {:induction false} FlagsRead(fmt: string, i: nat, run: string, flags: bv8)
    requires Stands(fmt, i, run) && forall k | 0 <= k < |run| :: IsFlag(run[k])
    requires !IsFlag(At(fmt, i + |run|))
    ensures i <= |fmt| && ScanFlags(fmt, i, flags) == (flags | RunBits(run), i + |run|)
    decreases |run|
  {
    hide RunBits;
    if run == "" {
      NoFlagBits(flags);
    } else {
      var c := run[0];
      StandsAt(fmt, i, run, 0);
      assert run == [c] + run[1..];
      StandsApart(fmt, i, [c], run[1..]);
      FlagsRead(fmt, i + 1, run[1..], flags | FlagOf(c));
      OneFlagMore(c, run[1..]);
      OrOrder(flags, FlagOf(c), RunBits(run[1..]));
    }
  }

  lemma NoFlagBits(flags: bv8)
    ensures flags | RunBits("") == flags
  {
  }

  lemma OrOrder(a: bv8, b: bv8, c: bv8)
    ensures (a | b) | c == a | (b | c)
  {
  }

  // ---------- Reading the amounts ----------

  lemma NumberRead(fmt: string, i: nat, t: string)
    requires Stands(fmt, i, t) && t != "" && AllDigits(t, 10) && !IsDigit(At(fmt, i + |t|))
    ensures IsDigit(At(fmt, i)) && i <= |fmt|
    ensures ScanInt(fmt, i) == if Value(t, 10) <= INT_MAX then Some((Value(t, 10), i + |t|)) else None
  {
    hide Value, RunEnd;
    StandsAt(fmt, i, t, 0);
    RunSoFar(fmt, i, i + |t|, 10);
    RunOver(fmt, i + |t|, 10);
  }

  /** An amount is read as it is written, -1 standing for none. */
  lemma AmountRead(fmt: string, i: nat, a: Option<Amount>, args: seq<Arg>)
    requires IsAmount(a) && Stands(fmt, i, AmountText(a))
    requires !IsDigit(At(fmt, i + |AmountText(a)|)) && (a.None? ==> At(fmt, i) != '*')
    ensures i <= |fmt| && (At(fmt, i) == '*' <==> a == Some(Star))
    ensures ScanAmount(fmt, i, args) ==
      match Amounts(a, args)
      case None => None
      case Some((v, rest)) => Some((if v.None? then -1 else v.value, i + |AmountText(a)|, rest))
  {
    hide Value, ScanInt;
    match a
    case None =>
    case Some(Star) =>
      StandsAt(fmt, i, "*", 0);
    case Some(Given(digits)) =>
      NumberRead(fmt, i, digits);
      StandsAt(fmt, i, digits, 0);
  }

  /** The parts stand one behind the other. */
  lemma PartsStand(fmt: string, i: nat, d: Directive)
    requires Stands(fmt, i, DirectiveText(d))
    ensures var i1 := i + |d.flags|;
      var i2 := i1 + |AmountText(d.width)|;
      var i3 := i2 + |PrecisionText(d.precision)|;
      && Stands(fmt, i, d.flags) && Stands(fmt, i1, AmountText(d.width)) && Stands(fmt, i2, PrecisionText(d.precision))
      && Stands(fmt, i3, d.length + [d.conv]) && i3 + |d.length| + 1 == i + |DirectiveText(d)| <= |fmt|
  {
    hide Stands, AmountText, PrecisionText;
    var w, p, q := AmountText(d.width), PrecisionText(d.precision), d.length + [d.conv];
    StandsApart(fmt, i, d.flags, w + (p + q));
    StandsApart(fmt, i + |d.flags|, w, p + q);
    StandsApart(fmt, i + |d.flags| + |w|, p, q);
    Ends(fmt, i + |d.flags| + |w| + |p|, q);
  }

  predicate IsEnd(c: char) {
    !IsFlag(c) && !IsDigit(c) && c != '*' && c != '.'
  }

  lemma AtLength(fmt: string, i: nat, q: string, conv: char)
    requires IsLength(q) && IsConversion(conv) && Stands(fmt, i, q + [conv])
    ensures IsEnd(At(fmt, i))
  {
    StandsAt(fmt, i, q + [conv], 0);
  }

  lemma AtPrecision(fmt: string, i: nat, p: Option<Option<Amount>>)
    requires Stands(fmt, i, PrecisionText(p)) && IsEnd(At(fmt, i + |PrecisionText(p)|))
    ensures p.Some? <==> At(fmt, i) == '.'
    ensures IsEnd(At(fmt, i)) || At(fmt, i) == '.'
  {
    if p.Some? {
      StandsAt(fmt, i, PrecisionText(p), 0);
    }
  }

  lemma AtWidth(fmt: string, i: nat, a: Option<Amount>)
    requires IsAmount(a) && Stands(fmt, i, AmountText(a))
    requires a.Some? && a.value.Given? ==> a.value.digits[0] != '0'
    requires IsEnd(At(fmt, i + |AmountText(a)|)) || At(fmt, i + |AmountText(a)|) == '.'
    ensures !IsFlag(At(fmt, i)) && (a.None? ==> At(fmt, i) != '*')
  {
    if a.Some? {
      FirstOfAmount(a);
      StandsAt(fmt, i, AmountText(a), 0);
    }
  }

  lemma FirstOfAmount(a: Option<Amount>)
    requires IsAmount(a) && AmountText(a) != ""
    ensures IsDigit(AmountText(a)[0]) || AmountText(a) == "*"
  {
  }

  lemma Ends(fmt: string, i: nat, t: string)
    requires Stands(fmt, i, t)
    ensures i + |t| <= |fmt|
  {
  }

  lemma WidthRead(fmt: string, i: nat, d: Directive, flags: bv8, args: seq<Arg>)
    requires IsAmount(d.width) && Stands(fmt, i, AmountText(d.width))
    requires !IsDigit(At(fmt, i + |AmountText(d.width)|)) && (d.width.None? ==> At(fmt, i) != '*')
    ensures i <= |fmt|
    ensures ScanWidth(fmt, i, flags, args) ==
      match Amounts(d.width, args)
      case None => None
      case Some((w, rest)) =>
        var j := i + |AmountText(d.width)|;
        if w.None? then Some((flags, -1, j, rest))
        else if w.value >= 0 then Some((flags, w.value, j, rest))
        else if w.value == -0x8000_0000 then None
        else Some((flags | LEFT, -w.value, j, rest))
  {
    hide ScanAmount;
    AmountRead(fmt, i, d.width, args);
  }

  lemma PrecisionRead(fmt: string, i: nat, d: Directive, args: seq<Arg>)
    requires (d.precision.Some? ==> IsAmount(d.precision.value)) && Stands(fmt, i, PrecisionText(d.precision))
    requires var j := i + |PrecisionText(d.precision)|; !IsDigit(At(fmt, j)) && At(fmt, j) != '*'
    requires d.precision.Some? <==> At(fmt, i) == '.'
    ensures i <= |fmt|
    ensures ScanPrecision(fmt, i, args) ==
      if d.precision.None? then Some((-1, i, args))
      else
        match Amounts(d.precision.value, args)
        case None => None
        case Some((p, rest)) =>
          Some((if p.None? || p.value < 0 then 0 else p.value, i + |PrecisionText(d.precision)|, rest))
  {
    hide ScanAmount, Stands;
    if d.precision.Some? {
      StandsApart(fmt, i, ".", AmountText(d.precision.value));
      AmountRead(fmt, i + 1, d.precision.value, args);
    } else {
      Ends(fmt, i, "");
    }
  }

  function LengthCode(q: string): char {
    if q == "" then '\0' else if q == "ll" then 'L' else q[0]
  }

  lemma LengthRead(fmt: string, i: nat, q: string, conv: char)
    requires IsLength(q) && IsConversion(conv) && Stands(fmt, i, q + [conv])
    ensures i <= |fmt| && ScanQualifier(fmt, i) == (LengthCode(q), i + |q|) && At(fmt, i + |q|) == conv
  {
    hide Stands;
    Ends(fmt, i, q + [conv]);
    StandsAt(fmt, i, q + [conv], 0);
    StandsAt(fmt, i, q + [conv], |q|);
    if |q| >= 1 {
      StandsAt(fmt, i, q + [conv], 1);
    }
  }

  /** The bits that the code has for the flags and a width. */
  function CodeFlags(d: Directive, args: seq<Arg>): bv8 {
    var a := Amounts(d.width, args);
    if a.Some? && a.value.0.Some? && a.value.0.value < 0 then RunBits(d.flags) | LEFT else RunBits(d.flags)
  }

  /** What the code takes the parts for. */
  function CodeSpec(d: Directive, args: seq<Arg>, at: nat): Option<Spec> {
    match Amounts(d.width, args)
    case None => None
    case Some((w, rest)) =>
      if w == Some(-0x8000_0000) then None
      else
        var width := if w.None? then -1 else if w.value < 0 then -w.value else w.value;
        match PrecisionAmount(d.precision, rest)
        case None => None
        case Some((p, rest')) =>
          var precision := if d.precision.None? then -1 else if p.None? || p.value < 0 then 0 else p.value;
          Some(Spec(CodeFlags(d, args), width, precision, LengthCode(d.length), at, rest'))
  }

  /** Where the parts begin, and what stands there. */
  lemma Places(fmt: string, i: nat, d: Directive)
    requires Grammatical(d) && Stands(fmt, i, DirectiveText(d))
    ensures var i1 := i + |d.flags|;
      var i2 := i1 + |AmountText(d.width)|;
      var i3 := i2 + |PrecisionText(d.precision)|;
      && Stands(fmt, i, d.flags) && Stands(fmt, i1, AmountText(d.width)) && Stands(fmt, i2, PrecisionText(d.precision))
      && Stands(fmt, i3, d.length + [d.conv]) && i3 + |d.length| + 1 == i + |DirectiveText(d)| <= |fmt|
      && !IsFlag(At(fmt, i1)) && !IsDigit(At(fmt, i2)) && !IsDigit(At(fmt, i3)) && At(fmt, i3) != '*'
      && (d.width.None? ==> At(fmt, i1) != '*') && (d.precision.Some? <==> At(fmt, i2) == '.')
  {
    hide Stands, AmountText, PrecisionText, DirectiveText, IsFlag, IsDigit, IsAmount, IsLength, IsConversion;
    PartsStand(fmt, i, d);
    var i2 := i + |d.flags| + |AmountText(d.width)|;
    AtLength(fmt, i2 + |PrecisionText(d.precision)|, d.length, d.conv);
    AtPrecision(fmt, i2, d.precision);
    AtWidth(fmt, i + |d.flags|, d.width);
    PointIsNoDigit();
  }

  lemma Together(fmt: string, i: nat, i1: nat, i2: nat, i3: nat, d: Directive, args: seq<Arg>)
    requires i <= |fmt| && i1 <= |fmt| && i2 <= |fmt| && i3 <= |fmt|
    requires ScanFlags(fmt, i, 0) == (RunBits(d.flags), i1)
    requires ScanWidth(fmt, i1, RunBits(d.flags), args) ==
      match Amounts(d.width, args)
      case None => None
      case Some((w, rest)) =>
        if w.None? then Some((RunBits(d.flags), -1, i2, rest))
        else if w.value >= 0 then Some((RunBits(d.flags), w.value, i2, rest))
        else if w.value == -0x8000_0000 then None
        else Some((RunBits(d.flags) | LEFT, -w.value, i2, rest))
    requires Amounts(d.width, args).Some? ==>
      ScanPrecision(fmt, i2, Amounts(d.width, args).value.1) ==
      match PrecisionAmount(d.precision, Amounts(d.width, args).value.1)
      case None => None
      case Some((p, rest)) =>
        Some((if d.precision.None? then -1 else if p.None? || p.value < 0 then 0 else p.value, i3, rest))
    requires ScanQualifier(fmt, i3) == (LengthCode(d.length), i3 + |d.length|)
    ensures ParseSpec(fmt, i, args) == CodeSpec(d, args, i3 + |d.length|)
  {
    hide ScanFlags, ScanWidth, ScanPrecision, ScanQualifier, RunBits, Amounts, PrecisionAmount, LengthCode;
  }

  lemma PartsRead(fmt: string, i: nat, d: Directive, args: seq<Arg>)
    requires Grammatical(d) && Stands(fmt, i, DirectiveText(d))
    ensures i + |DirectiveText(d)| <= |fmt| && At(fmt, i + |DirectiveText(d)| - 1) == d.conv
    ensures ParseSpec(fmt, i, args) == CodeSpec(d, args, i + |DirectiveText(d)| - 1)
  {
    hide ScanFlags, ScanWidth, ScanPrecision, ScanQualifier, Stands, RunBits, AmountText, PrecisionText,
         DirectiveText, Value,
         IsFlag, IsDigit, IsAmount, IsLength, IsConversion, ParseSpec, CodeSpec, LengthCode, Amounts;
    Places(fmt, i, d);
    var i1 := i + |d.flags|;
    var i2 := i1 + |AmountText(d.width)|;
    var i3 := i2 + |PrecisionText(d.precision)|;
    FlagsRead(fmt, i, d.flags, 0);
    NoBits(RunBits(d.flags));
    WidthRead(fmt, i1, d, RunBits(d.flags), args);
    LengthRead(fmt, i3, d.length, d.conv);
    NoPrecision(d.precision);
    if Amounts(d.width, args).Some? {
      PrecisionRead(fmt, i2, d, Amounts(d.width, args).value.1);
    }
    Together(fmt, i, i1, i2, i3, d, args);
  }

  lemma CodeSpecIs(d: Directive, args: seq<Arg>, at: nat)
    ensures CodeSpec(d, args, at) ==
      match LayoutOf(d, args)
      case None => None
      case Some(l) =>
        Some(Spec(CodeFlags(d, args), l.width, if NegativePrecision(d, args) then 0 else l.precision,
                  LengthCode(d.length), at, l.args))
  {
    hide Value, CodeFlags, LengthCode;
  }

  /** Every directive of the grammar is read as the standard means it, but for a negative `*` precision, which
      becomes 0 instead of none. */
  lemma DirectiveRead(fmt: string, i: nat, d: Directive, args: seq<Arg>)
    requires Grammatical(d) && Stands(fmt, i, DirectiveText(d))
    ensures i + |DirectiveText(d)| <= |fmt| && At(fmt, i + |DirectiveText(d)| - 1) == d.conv
    ensures ParseSpec(fmt, i, args) ==
      match LayoutOf(d, args)
      case None => None
      case Some(l) =>
        Some(Spec(CodeFlags(d, args), l.width, if NegativePrecision(d, args) then 0 else l.precision,
                  LengthCode(d.length), i + |DirectiveText(d)| - 1, l.args))
  {
    hide ParseSpec, CodeSpec, CodeFlags, LengthCode, NegativePrecision, Grammatical, Stands;
    PartsRead(fmt, i, d, args);
    CodeSpecIs(d, args, i + |DirectiveText(d)| - 1);
  }

  lemma PointIsNoDigit()
    ensures !IsDigit('.') && '.' != '*'
  {
  }

  lemma NoPrecision(p: Option<Option<Amount>>)
    ensures p.None? ==> PrecisionText(p) == ""
  {
  }

  lemma NoBits(a: bv8)
    ensures 0 | a == a
  {
  }

  /** With the bits that the conversion adds, the flags are those of the standard's field. */
  lemma FlagsAgree(d: Directive, args: seq<Arg>)
    requires IsConversion(d.conv) && LayoutOf(d, args).Some?
    ensures IntegerFlags(d.conv, CodeFlags(d, args)) == FieldFlags(LayoutOf(d, args).value, d.conv)
    ensures CodeFlags(d, args) & LEFT != 0 <==> LayoutOf(d, args).value.left
  {
    hide Amounts;
  }

  // ---------- Integers ----------

  /** A precision below the number of digits is no precision: 0 prints as none does. */
  lemma PrecisionZero(num: u64, base: nat, width: int, ty: bv8)
    requires 2 <= base <= 16
    ensures NumberText(num, base, width, 0, ty) == NumberText(num, base, width, -1, ty)
  {
    hide Numeral;
    assert ZerosText(num, base, 0, ty) == "" == ZerosText(num, base, -1, ty);
  }

  lemma NoMinusInDigits(num: u64, base: nat, precision: int, ty: bv8)
    requires base in {8, 10, 16}
    ensures '-' !in Core(num, base, precision, ty)
  {
    hide Numeral, Fill;
    var small := ty & SMALL != 0;
    NumeralWrites(Magnitude(num, ty), base, small);
    assert forall c | c in DigitsText(num, base, ty) :: IsDigitOf(c, base);
    assert forall c | c in ZerosText(num, base, precision, ty) :: c == '0' by {
      ZeroFills(precision - |DigitsText(num, base, ty)|);
    }
  }

  /** The text of a word from 2^31 on, taken as unsigned, is not that of the negative number. */
  lemma UnsignedDiffers(w: u32, width: int, precision: int, p: int, ty: bv8)
    requires ty & SIGN != 0 && Signed32(w) < 0
    ensures NumberText(w, 10, width, precision, ty) != StandardText(Wrap64(Signed32(w)), 10, width, p, ty)
  {
    hide Core, StandardCore, Field;
    var n: u64 := Wrap64(Signed32(w));
    assert Signed64(n) < 0 && Signed64(w) >= 0;
    CodeIsField(w, 10, width, precision, ty);
    NoMinusInDigits(w, 10, precision, ty);
    Contains(Head(w, 10, ty), Core(w, 10, precision, ty), width, ty & ZEROPAD != 0, ty & LEFT != 0, '-');
    Contains(StandardHead(n, 10, ty), StandardCore(n, 10, p, ty), width, ty & ZEROPAD != 0 && p < 0, ty & LEFT != 0, '-');
    assert PrefixText(10, ty) == "" && '-' !in Head(w, 10, ty);
    assert StandardHead(n, 10, ty)[0] == '-';
  }

  /** The code fetches the value that the standard prints, but for a negative size_t. */
  lemma ArgAgrees(a: Arg, length: string, conv: char, ty: bv8)
    requires IsLength(length) && IsInteger(conv) && (ty & SIGN != 0 <==> conv == 'd' || conv == 'i')
    requires StandardValue(a, length, conv).Some?
    ensures var v := StandardValue(a, length, conv).value;
      var q := LengthCode(length);
      if (length == "z" || length == "Z") && v < 0 then
        a.Word? && Signed32(a.w) == v && IntegerArg(a, q, ty & SIGN != 0) == Some(a.w) && ty & SIGN != 0
      else IntegerArg(a, q, ty & SIGN != 0) == Some(Wrap64(v))
  {
  }

  lemma SignBit(l: Layout, conv: char)
    ensures FieldFlags(l, conv) & SIGN != 0 <==> conv == 'd' || conv == 'i'
  {
  }

  lemma BasesAgree(conv: char)
    requires IsConversion(conv)
    ensures StandardBase(conv) == BaseOf(conv) && (IsInteger(conv) <==> conv != 'c' && conv != 's')
  {
  }

  lemma IntegerIsStandardIff(d: Directive, l: Layout, code: Spec)
    requires IsLength(d.length) && IsInteger(d.conv) && l.args != [] && code.args == l.args
    requires code.width == l.width && code.qualifier == LengthCode(d.length)
    requires IntegerFlags(d.conv, code.flags) == FieldFlags(l, d.conv)
    requires code.precision == l.precision || (code.precision == 0 && l.precision == -1)
    requires StandardValue(l.args[0], d.length, d.conv).Some?
    ensures var v := StandardValue(l.args[0], d.length, d.conv).value;
      FieldText(code, d.conv)
        == Some(StandardText(Wrap64(v), StandardBase(d.conv), l.width, l.precision, FieldFlags(l, d.conv)))
      <==> !NegativeSizeT(d, v)
           && Conforms(Wrap64(v), StandardBase(d.conv), l.width, l.precision, FieldFlags(l, d.conv))
  {
    hide StandardText, NumberText, SameText, Prints, IntegerFlags, FieldFlags, StandardValue, IntegerArg,
         StandardBase, BaseOf;
    var ty := FieldFlags(l, d.conv);
    var v := StandardValue(l.args[0], d.length, d.conv).value;
    BasesAgree(d.conv);
    SignBit(l, d.conv);
    ArgAgrees(l.args[0], d.length, d.conv, ty);
    if NegativeSizeT(d, v) {
      DecimalSigned(d.conv);
      UnsignedDiffers(l.args[0].w, l.width, code.precision, l.precision, ty);
    } else {
      PrecisionZero(Wrap64(v), BaseOf(d.conv), l.width, ty);
      FieldIsStandardIff(Wrap64(v), BaseOf(d.conv), l.width, l.precision, ty);
    }
  }

  lemma DecimalSigned(conv: char)
    ensures conv == 'd' || conv == 'i' ==> BaseOf(conv) == 10 && StandardBase(conv) == 10
  {
  }

  // ---------- Characters and strings ----------

  lemma {:induction false} LongEnough(s: string, m: nat, n: nat)
    requires m >= |s| && n >= |s|
    ensures StrNLen(s, m) == StrNLen(s, n)
    decreases |s|
  {
    if s != "" && s[0] != '\0' {
      LongEnough(s[1..], m - 1, n - 1);
    }
  }

  lemma PadsAgree(body: string, width: int, flags: bv8, left: bool)
    requires flags & LEFT != 0 <==> left
    ensures Padded(body, width, flags) == StandardPad(body, width, left)
  {
  }

  lemma StringIsStandardIff(l: Layout, code: Spec, negative: bool)
    requires l.args != [] && l.args[0].Str? && |l.args[0].s| < TWO_32 && -1 <= l.precision <= INT_MAX
    requires code.args == l.args && code.width == l.width && (code.flags & LEFT != 0 <==> l.left)
    requires code.precision == if negative then 0 else l.precision
    requires negative ==> l.precision == -1
    ensures FieldText(code, 's') == Some(StandardPad(StandardBody(l.args[0].s, l.precision), l.width, l.left)) <==>
      (negative ==> BlankWithin(StandardBody(l.args[0].s, -1), l.width))
  {
    hide StrNLen, Padded, Fill, StandardPad;
    var s := l.args[0].s;
    StringLengths(s);
    PadsAgree(StandardBody(s, l.precision), l.width, code.flags, l.left);
    if negative {
      EmptyBodyIff(s[..StrNLen(s, |s|)], l.width, code.flags);
    }
  }

  lemma StringLengths(s: string)
    requires |s| < TWO_32
    ensures StrNLen(s, Limit(-1)) == StrNLen(s, |s|) && StrNLen(s, Limit(0)) == 0 && s[..0] == ""
    ensures forall p: nat | p <= INT_MAX :: Limit(p) == p
  {
    LongEnough(s, Limit(-1), |s|);
  }

  /** An empty body leaves the same field as a body of blanks that the width would have filled anyway. */
  lemma EmptyBodyIff(b: string, width: int, flags: bv8)
    ensures Padded("", width, flags) == Padded(b, width, flags) <==> BlankWithin(b, width)
  {
    var t, e := Padded(b, width, flags), Padded("", width, flags);
    assert e == Fill(' ', width);
    assert forall k | 0 <= k < |b| :: b[k] == t[if flags & LEFT != 0 then k else |t| - |b| + k];
    assert t == e <==> |t| == |e| && forall k | 0 <= k < |t| :: t[k] == ' ';
  }

  // ---------- The result ----------

  /** For every directive of the grammar, however its flags are ordered, and every argument that the standard
      accepts: the code prints what the standard says exactly when the directive conforms. */
  lemma DirectiveIsStandardIff(fmt: string, i: nat, d: Directive, args: seq<Arg>)
    requires Grammatical(d) && Stands(fmt, i, DirectiveText(d)) && DirectiveField(d, args).Some?
    requires var l := LayoutOf(d, args).value; l.args[0].Str? ==> |l.args[0].s| < TWO_32
    ensures i <= |fmt| && ParseSpec(fmt, i, args).Some?
    ensures FieldText(ParseSpec(fmt, i, args).value, d.conv) == DirectiveField(d, args) <==> DirectiveConforms(d, args)
  {
    hide ParseSpec, Amounts, NegativePrecision, FieldFlags, CodeFlags, IntegerFlags, Stands, DirectiveText, StandardText,
         StandardBase, StandardValue, StandardPad, StandardBody, Conforms;
    DirectiveRead(fmt, i, d, args);
    var l, code := LayoutOf(d, args).value, ParseSpec(fmt, i, args).value;
    FlagsAgree(d, args);
    NegativeIsNone(d, args);
    BasesAgree(d.conv);
    if IsInteger(d.conv) {
      IntegerIsStandardIff(d, l, code);
    } else if d.conv == 's' {
      StringIsStandardIff(l, code, NegativePrecision(d, args));
    } else {
      PadsAgree([(l.args[0].w % 256) as char], l.width, code.flags, l.left);
    }
  }

  lemma NegativeIsNone(d: Directive, args: seq<Arg>)
    requires LayoutOf(d, args).Some?
    ensures NegativePrecision(d, args) ==> LayoutOf(d, args).value.precision == -1
  {
  }

  // ---------- Directives that depart from the standard ----------

  /** %.*s with -1 prints nothing of a string. */
  lemma NegativePrecisionCuts()
    ensures var d, args := Directive("", None, Some(Some(Star)), "", 's'), [Word(0xffff_ffff), Str("a")];
      && Grammatical(d) && DirectiveText(d) == ".*s" && DirectiveField(d, args) == Some("a")
      && ParseSpec(".*s", 0, args).Some? && FieldText(ParseSpec(".*s", 0, args).value, 's') == Some("")
  {
    hide ParseSpec, FieldText;
    var d, args := Directive("", None, Some(Some(Star)), "", 's'), [Word(0xffff_ffff), Str("a")];
    assert "" + ("" + ("." + "*" + ("" + ['s']))) == ".*s";
    assert Stands(".*s", 0, DirectiveText(d));
    assert args[1..] == [Str("a")];
    assert Amounts(None, args) == Some((None, args));
    DirectiveRead(".*s", 0, d, args);
    StringTexts();
    NoRun();
  }

  lemma NoRun()
    ensures RunBits("") == 0
  {
  }

  lemma StringTexts()
    ensures StandardPad(StandardBody("a", -1), -1, false) == "a"
    ensures FieldText(Spec(0, -1, 0, '\0', 2, [Str("a")]), 's') == Some("")
  {
    assert StrNLen("a", 1) == 1 && Limit(0) == 0 && StrNLen("a", 0) == 0;
    assert "a"[..1] == "a" && "a"[..0] == "";
    assert Fill(' ', -2) == "" && Fill(' ', -1) == "" && "" + "a" == "a" && "" + "" == "";
    assert 0 & LEFT == 0;
  }

  /** %zd of -1 prints the word as unsigned. */
  lemma SizeTIsUnsigned()
    ensures var d, args := Directive("", None, None, "z", 'd'), [Word(0xffff_ffff)];
      && Grammatical(d) && DirectiveText(d) == "zd" && DirectiveField(d, args) == Some("-1")
      && ParseSpec("zd", 0, args).Some? && FieldText(ParseSpec("zd", 0, args).value, 'd') != Some("-1")
  {
    hide ParseSpec, FieldText, StandardText, Conforms;
    var d, args := Directive("", None, None, "z", 'd'), [Word(0xffff_ffff)];
    assert "" + ("" + ("" + ("z" + ['d']))) == "zd";
    assert Stands("zd", 0, DirectiveText(d));
    assert LayoutOf(d, args) == Some(Layout(false, false, false, false, false, -1, -1, args));
    MinusOne();
    assert FieldFlags(LayoutOf(d, args).value, 'd') == SIGN;
    DirectiveIsStandardIff("zd", 0, d, args);
  }

  lemma MinusOne()
    ensures StandardText(Wrap64(-1), 10, -1, -1, SIGN) == "-1"
  {
    assert Magnitude(Wrap64(-1), SIGN) == 1 && Signed64(Wrap64(-1)) < 0;
    assert Numeral(1, 10, true) == "1";
    assert "-" + "1" == "-1" && Fill(' ', -3) == "" && Fill('0', 0) == "";
  }

  // ---------- Pointers ----------

  /** A plain `p` prints a pointer as exactly eight hexadecimal digits of its value. */
  lemma PointerIsEightDigits(w: u32, at: nat, q: char)
    ensures var t := FieldText(Spec(0, -1, -1, q, at, [Word(w)]), 'p');
      t.Some? && |t.value| == 8 && AllDigits(t.value, 16) && Value(t.value, 16) == w
  {
    hide Numeral, Fill, Value;
    assert 0 | ZEROPAD == ZEROPAD && ZEROPAD & LEFT == 0 && ZEROPAD & SIGN == 0 && ZEROPAD & SPECIAL == 0;
    assert ZEROPAD & ZEROPAD != 0 && ZEROPAD & SMALL == 0;
    var n := Numeral(w, 16, false);
    NumeralWrites(w, 16, false);
    EightDigits(w);
    FieldMeaning.ZerosBefore(8 - |n|, n, 16);
    assert ZerosText(w, 16, -1, ZEROPAD) == "" by {
      NoZeros(-1 - |n|);
    }
    assert NumberText(w, 16, 8, -1, ZEROPAD) == "" + "" + Fill('0', 8 - |n|) + ("" + n);
    assert "" + "" + Fill('0', 8 - |n|) + ("" + n) == Fill('0', 8 - |n|) + n;
  }

  lemma NoZeros(n: int)
    ensures n <= 0 ==> Fill('0', n) == ""
  {
  }

  lemma EightDigits(w: u32)
    ensures |Numeral(w, 16, false)| <= 8
  {
    NumeralLength(w, 16, false, 8);
    assert Pow(16, 4) == 0x1_0000 && Pow(16, 8) == 0x1_0000_0000;
  }

  /** A string that would lie in the first kilobyte of the address space prints as <NULL>. */
  lemma NullStrings(w: u32, at: nat, q: char)
    ensures FieldText(Spec(0, -1, -1, q, at, [Word(w)]), 's') == if w < 1024 then Some("<NULL>") else None
  {
    assert StrNLen("<NULL>", Limit(-1)) == 6 by {
      LongEnough("<NULL>", Limit(-1), 6);
      SixCharacters();
    }
    assert "<NULL>"[..6] == "<NULL>" && Fill(' ', -7) == "" && "" + "<NULL>" == "<NULL>" && 0 & LEFT == 0;
  }

  lemma SixCharacters()
    ensures StrNLen("<NULL>", 6) == 6
  {
    assert "<NULL>"[1..] == "NULL>" && "NULL>"[1..] == "ULL>" && "ULL>"[1..] == "LL>" && "LL>"[1..] == "L>";
    assert "L>"[1..] == ">" && ">"[1..] == "";
    assert StrNLen(">", 1) == 1;
    assert StrNLen("L>", 2) == 2;
    assert StrNLen("LL>", 3) == 3;
    assert StrNLen("ULL>", 4) == 4;
    assert StrNLen("NULL>", 5) == 5;
  }
}
