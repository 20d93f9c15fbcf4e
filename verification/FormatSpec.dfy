/** The meaning of a format string (vsnprintf, lib/vsprintf.c): the whole text it stands for, of whatever
    length.  Arguments are a typed sequence; a text is undefined where the C code would be. */
module FormatSpec {
  import opened Words
  import opened Ctype
  import opened Numerals
  import opened Output
  import opened NumberFormat
  import opened Wrappers

  /** One argument slot: 32 bits (int, long, size_t or a pointer), 64 bits, or a pointer to a string. */
  datatype Arg = Word(w: u32) | Wide(v: u64) | Str(s: string)

  /** A directive read up to its conversion character, which stands at `at`. */
  datatype Spec = Spec(flags: bv8, width: int, precision: int, qualifier: char, at: nat, args: seq<Arg>)

  // ---------- Reading a directive ----------

  function FlagOf(c: char): bv8 {
    if c == '-' then LEFT
    else if c == '+' then PLUS
    else if c == ' ' then SPACE
    else if c == '#' then SPECIAL
    else if c == '0' then ZEROPAD
    else 0
  }

  function ScanFlags(fmt: string, i: nat, flags: bv8): (r: (bv8, nat))
    requires i <= |fmt|
    ensures i <= r.1 <= |fmt|
    decreases |fmt| - i
  {
    if FlagOf(At(fmt, i)) == 0 then (flags, i) else ScanFlags(fmt, i + 1, flags | FlagOf(At(fmt, i)))
  }

  /** A decimal number in the format; overflow of `int` is undefined. */
  function ScanInt(fmt: string, i: nat): (r: Option<(int, nat)>)
    requires i <= |fmt|
    ensures r.Some? ==> 0 <= r.value.0 <= INT_MAX && i <= r.value.1 <= |fmt|
  {
    var j := RunEnd(fmt, i, 10);
    var v := Value(fmt[i..j], 10);
    if v <= INT_MAX then Some((v, j)) else None
  }

  /** A number or `*`: the value, the place after it and the arguments left. */
  function ScanAmount(fmt: string, i: nat, args: seq<Arg>): (r: Option<(int, nat, seq<Arg>)>)
    requires i <= |fmt|
    ensures r.Some? ==> -0x8000_0000 <= r.value.0 <= INT_MAX && i <= r.value.1 <= |fmt|
  {
    if IsDigit(At(fmt, i)) then
      match ScanInt(fmt, i)
      case Some((v, j)) => Some((v, j, args))
      case None => None
    else if At(fmt, i) == '*' then
      if args != [] && args[0].Word? then Some((Signed32(args[0].w), i + 1, args[1..])) else None
    else Some((-1, i, args))
  }

  /** A negative `*` width asks for flushing left; negating the most negative one is undefined. */
  function ScanWidth(fmt: string, i: nat, flags: bv8, args: seq<Arg>): (r: Option<(bv8, int, nat, seq<Arg>)>)
    requires i <= |fmt|
    ensures r.Some? ==> -1 <= r.value.1 <= INT_MAX && i <= r.value.2 <= |fmt|
  {
    match ScanAmount(fmt, i, args)
    case None => None
    case Some((v, j, rest)) =>
      if At(fmt, i) != '*' || v >= 0 then Some((flags, v, j, rest))
      else if v == -0x8000_0000 then None
      else Some((flags | LEFT, -v, j, rest))
  }

  /** A point with nothing, or with a negative `*`, after it means precision 0. */
  function ScanPrecision(fmt: string, i: nat, args: seq<Arg>): (r: Option<(int, nat, seq<Arg>)>)
    requires i <= |fmt|
    ensures r.Some? ==> -1 <= r.value.0 <= INT_MAX && i <= r.value.1 <= |fmt|
  {
    if At(fmt, i) != '.' then Some((-1, i, args))
    else
      match ScanAmount(fmt, i + 1, args)
      case None => None
      case Some((v, j, rest)) => Some((if v < 0 then 0 else v, j, rest))
  }

  function ScanQualifier(fmt: string, i: nat): (r: (char, nat))
    requires i <= |fmt|
    ensures i <= r.1 <= |fmt|
  {
    var c := At(fmt, i);
    if c == 'l' && At(fmt, i + 1) == 'l' then ('L', i + 2)
    else if c == 'h' || c == 'l' || c == 'L' || c == 'Z' || c == 'z' then (c, i + 1)
    else ('\0', i)
  }

  /** The directive after a percent sign. */
  function ParseSpec(fmt: string, i: nat, args: seq<Arg>): (r: Option<Spec>)
    requires i <= |fmt|
    ensures r.Some? ==> -1 <= r.value.width <= INT_MAX && -1 <= r.value.precision <= INT_MAX
    ensures r.Some? ==> i <= r.value.at <= |fmt|
  {
    var (flags, i1) := ScanFlags(fmt, i, 0);
    match ScanWidth(fmt, i1, flags, args)
    case None => None
    case Some((flags', width, i2, args2)) =>
      match ScanPrecision(fmt, i2, args2)
      case None => None
      case Some((precision, i3, args3)) =>
        var (q, i4) := ScanQualifier(fmt, i3);
        Some(Spec(flags', width, precision, q, i4, args3))
  }

  // ---------- The conversions ----------

  /** strnlen. */
  function StrNLen(s: string, count: nat): (n: nat)
    ensures n <= |s| && n <= count
    ensures forall k | 0 <= k < n :: s[k] != '\0'
    ensures n < count ==> At(s, n) == '\0'
  {
    if count == 0 || s == "" || s[0] == '\0' then 0 else 1 + StrNLen(s[1..], count - 1)
  }

  /** The precision of a string as strnlen reads it: none (-1) is the largest size_t. */
  function Limit(precision: int): u32 {
    Wrap32(precision)
  }

  function Padded(body: string, width: int, flags: bv8): string {
    if flags & LEFT != 0 then body + Fill(' ', width - |body|) else Fill(' ', width - |body|) + body
  }

  function StringArg(a: Arg): Option<string> {
    match a
    case Str(s) => Some(s)
    case Word(w) => if w < 1024 then Some("<NULL>") else None
    case Wide(_) => None
  }

  /** The 64 bits an integer conversion works on. */
  function IntegerArg(a: Arg, qualifier: char, signed: bool): Option<u64> {
    if qualifier == 'L' then (if a.Wide? then Some(a.v) else None)
    else if !a.Word? then None
    else if qualifier == 'Z' || qualifier == 'z' then Some(a.w)
    else if qualifier == 'h' then
      var h: u32 := a.w % 0x1_0000;
      Some(if signed && h >= 0x8000 then Wrap64(h - 0x1_0000) else h)
    else Some(if signed then Wrap64(Signed32(a.w)) else a.w)
  }

  function BaseOf(c: char): (b: nat)
    ensures b in {8, 10, 16}
  {
    if c == 'o' then 8 else if c == 'x' || c == 'X' then 16 else 10
  }

  function IntegerFlags(c: char, flags: bv8): bv8 {
    if c == 'X' then flags | LARGE else if c == 'd' || c == 'i' then flags | SIGN else flags
  }

  /** An integer field; a number whose digit loop would not end has none. */
  function IntegerText(spec: Spec, c: char): (r: Option<string>)
    ensures r.Some? ==> spec.args != []
  {
    if spec.args == [] then None
    else
      var ty := IntegerFlags(c, spec.flags);
      match IntegerArg(spec.args[0], spec.qualifier, ty & SIGN != 0)
      case None => None
      case Some(num) =>
        if !Prints(num, BaseOf(c), ty) then None
        else Some(NumberText(num, BaseOf(c), spec.width, spec.precision, ty))
  }

  predicate IsInteger(c: char) {
    c == 'o' || c == 'x' || c == 'X' || c == 'd' || c == 'i' || c == 'u'
  }

  /** Fields that use up an argument. */
  function FieldText(spec: Spec, c: char): Option<string> {
    if IsInteger(c) then IntegerText(spec, c)
    else if spec.args == [] then None
    else
      var a := spec.args[0];
      if c == 'c' then
        if a.Word? then Some(Padded([(a.w % 256) as char], spec.width, spec.flags)) else None
      else if c == 's' then
        match StringArg(a)
        case None => None
        case Some(s) =>
          Some(Padded(s[..StrNLen(s, Limit(spec.precision))], spec.width, spec.flags))
      else if c == 'p' && a.Word? then
        Some(NumberText(a.w, 16, if spec.width == -1 then 8 else spec.width, spec.precision,
                        if spec.width == -1 then spec.flags | ZEROPAD else spec.flags))
      else if c == 'n' && a.Word? then Some("")
      else None
  }

  predicate TakesArg(c: char) {
    IsInteger(c) || c == 'c' || c == 's' || c == 'p' || c == 'n'
  }

  /** A directive's text, the place of the next format character and the arguments left.  An unknown
      conversion prints itself; `%n` has an empty text. */
  function Convert(fmt: string, spec: Spec): Option<(string, nat, seq<Arg>)> {
    var c := At(fmt, spec.at);
    if TakesArg(c) then
      match FieldText(spec, c)
      case Some(t) => Some((t, spec.at + 1, if spec.args == [] then [] else spec.args[1..]))
      case None => None
    else if c == '\0' then Some(("%", spec.at, spec.args))
    else if c == '%' then Some(("%", spec.at + 1, spec.args))
    else Some((['%', c], spec.at + 1, spec.args))
  }

  /** A store of a number through a pointer argument; int, long and size_t are all 32 bits wide. */
  datatype Poke = Poke(pointer: u32, value: nat)

  /** What a directive stores when `at` characters stand before it. */
  function PokeOf(fmt: string, spec: Spec, at: nat): seq<Poke> {
    if At(fmt, spec.at) == 'n' && spec.args != [] && spec.args[0].Word? then [Poke(spec.args[0].w, at)] else []
  }

  /** Every `%n` from place `i` on stores how many characters the text has before it, `at` of them so far. */
  function Pokes(fmt: string, i: nat, args: seq<Arg>, at: nat): seq<Poke>
    requires i <= |fmt|
    decreases |fmt| - i
  {
    var c := At(fmt, i);
    if c == '\0' then []
    else if c != '%' then Pokes(fmt, i + 1, args, at + 1)
    else
      match ParseSpec(fmt, i + 1, args)
      case None => []
      case Some(spec) =>
        match Convert(fmt, spec)
        case None => []
        case Some((t, next, rest)) => PokeOf(fmt, spec, at) + Pokes(fmt, next, rest, at + |t|)
  }

  /** The whole text of a format from place `i` on. */
  function Render(fmt: string, i: nat, args: seq<Arg>): Option<string>
    requires i <= |fmt|
    decreases |fmt| - i
  {
    var c := At(fmt, i);
    if c == '\0' then Some("")
    else if c != '%' then
      match Render(fmt, i + 1, args)
      case Some(t) => Some([c] + t)
      case None => None
    else
      match ParseSpec(fmt, i + 1, args)
      case None => None
      case Some(spec) =>
        match Convert(fmt, spec)
        case None => None
        case Some((t, next, rest)) =>
          match Render(fmt, next, rest)
          case Some(more) => Some(t + more)
          case None => None
  }

  ghost predicate Rising(pokes: seq<Poke>, low: nat, high: nat) {
    && (forall k | 0 <= k < |pokes| :: low <= pokes[k].value <= high)
    && (forall j, k | 0 <= j < k < |pokes| :: pokes[j].value <= pokes[k].value)
  }

  lemma RisingJoin(a: seq<Poke>, b: seq<Poke>, low: nat, mid: nat, high: nat)
    requires Rising(a, low, mid) && Rising(b, mid, high) && low <= mid <= high
    ensures Rising(a + b, low, high)
  {
  }

  /** The numbers stored never fall, and none exceeds the length of the text. */
  lemma {:induction false} PokesRise(fmt: string, i: nat, args: seq<Arg>, at: nat)
    requires i <= |fmt| && Render(fmt, i, args).Some?
    ensures Rising(Pokes(fmt, i, args, at), at, at + |Render(fmt, i, args).value|)
    decreases |fmt| - i
  {
    hide ParseSpec, Convert, PokeOf, Rising, Render, Pokes;
    RenderOnce(fmt, i, args, at);
    if At(fmt, i) == '\0' {
      RisingNone(at);
    } else {
      if At(fmt, i) != '%' {
        PokesRise(fmt, i + 1, args, at + 1);
        RisingNone(at);
        RisingJoin([], Pokes(fmt, i + 1, args, at + 1), at, at + 1, at + |Render(fmt, i, args).value|);
        assert [] + Pokes(fmt, i + 1, args, at + 1) == Pokes(fmt, i, args, at);
      } else {
        var spec := ParseSpec(fmt, i + 1, args).value;
        var (t, next, rest) := Convert(fmt, spec).value;
        PokesRise(fmt, next, rest, at + |t|);
        RisingOne(fmt, spec, at, at + |t|);
        RisingJoin(PokeOf(fmt, spec, at), Pokes(fmt, next, rest, at + |t|), at, at + |t|, at + |Render(fmt, i, args).value|);
      }
    }
  }

  lemma RisingNone(at: nat)
    ensures Rising([], at, at) && Rising([], at, at + 1)
  {
  }

  lemma RisingOne(fmt: string, spec: Spec, at: nat, high: nat)
    requires at <= high
    ensures Rising(PokeOf(fmt, spec, at), at, high)
  {
  }

  /** One turn of the format walk. */
  lemma RenderOnce(fmt: string, i: nat, args: seq<Arg>, at: nat)
    requires i <= |fmt| && Render(fmt, i, args).Some?
    ensures At(fmt, i) == '\0' ==> Render(fmt, i, args).value == "" && Pokes(fmt, i, args, at) == []
    ensures At(fmt, i) != '\0' && At(fmt, i) != '%' ==>
      && Render(fmt, i + 1, args).Some? && |Render(fmt, i, args).value| == 1 + |Render(fmt, i + 1, args).value|
      && Pokes(fmt, i, args, at) == Pokes(fmt, i + 1, args, at + 1)
    ensures At(fmt, i) == '%' ==>
      ParseSpec(fmt, i + 1, args).Some? && Convert(fmt, ParseSpec(fmt, i + 1, args).value).Some?
    ensures At(fmt, i) == '%' ==>
      var spec := ParseSpec(fmt, i + 1, args).value;
      var (t, next, rest) := Convert(fmt, spec).value;
      && i < next <= |fmt| && Render(fmt, next, rest).Some?
      && |Render(fmt, i, args).value| == |t| + |Render(fmt, next, rest).value|
      && Pokes(fmt, i, args, at) == PokeOf(fmt, spec, at) + Pokes(fmt, next, rest, at + |t|)
  {
    hide ParseSpec, Convert, PokeOf;
    if At(fmt, i) == '%' {
      ConvertAdvances(fmt, i + 1, args);
    }
  }

  lemma ConvertAdvances(fmt: string, i: nat, args: seq<Arg>)
    requires i <= |fmt| && ParseSpec(fmt, i, args).Some? && Convert(fmt, ParseSpec(fmt, i, args).value).Some?
    ensures i <= Convert(fmt, ParseSpec(fmt, i, args).value).value.1 <= |fmt|
  {
  }
}
