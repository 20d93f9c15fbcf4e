/** vsnprintf (lib/vsprintf.c): the format walk, writing into a bounded buffer. */
module Vsnprintf {
  import opened Words
  import opened Ctype
  import opened Numerals
  import opened Output
  import opened NumberFormat
  import opened FormatSpec
  import opened Wrappers

  // ---------- Reading a directive ----------

  method SkipFlags(fmt: string, i0: nat) returns (flags: bv8, i: nat)
    requires i0 <= |fmt|
    ensures (flags, i) == ScanFlags(fmt, i0, 0)
  {
    flags, i := 0, i0;
    while true
      invariant i0 <= i <= |fmt| && ScanFlags(fmt, i0, 0) == ScanFlags(fmt, i, flags)
      decreases |fmt| - i
    {
      var c := At(fmt, i);
      if c == '-' {
        flags := flags | LEFT;
      } else if c == '+' {
        flags := flags | PLUS;
      } else if c == ' ' {
        flags := flags | SPACE;
      } else if c == '#' {
        flags := flags | SPECIAL;
      } else if c == '0' {
        flags := flags | ZEROPAD;
      } else {
        return;
      }
      i := i + 1;
    }
  }

  /** skip_atoi. */
  method SkipAtoi(fmt: string, i0: nat) returns (v: i32, i: nat)
    requires i0 <= |fmt| && ScanInt(fmt, i0).Some?
    ensures ScanInt(fmt, i0) == Some((v as int, i))
  {
    hide RunEnd, Value, AllDigits;
    v, i := 0, i0;
    NoDigits(fmt, i0);
    while IsDigit(At(fmt, i))
      invariant i0 <= i <= |fmt| && AllDigits(fmt[i0..i], 10) && v == Value(fmt[i0..i], 10)
      decreases |fmt| - i
    {
      AtoiStep(fmt, i0, i);
      v := v * 10 + (fmt[i] as int - '0' as int);
      i := i + 1;
    }
    RunSoFar(fmt, i0, i, 10);
    RunOver(fmt, i, 10);
  }

  lemma NoDigits(fmt: string, i: nat)
    requires i <= |fmt|
    ensures AllDigits(fmt[i..i], 10) && Value(fmt[i..i], 10) == 0
  {
  }

  /** One digit further, the value still is at most that of the whole run. */
  lemma AtoiStep(fmt: string, i0: nat, i: nat)
    requires i0 <= i < |fmt| && AllDigits(fmt[i0..i], 10) && IsDigit(fmt[i])
    ensures AllDigits(fmt[i0..i + 1], 10)
    ensures Value(fmt[i0..i + 1], 10) == Value(fmt[i0..i], 10) * 10 + (fmt[i] as int - '0' as int)
    ensures Value(fmt[i0..i + 1], 10) <= Value(fmt[i0..RunEnd(fmt, i0, 10)], 10)
  {
    hide RunEnd, Value, AllDigits;
    assert fmt[i0..i + 1] == fmt[i0..i] + [fmt[i]];
    SplitLast(fmt[i0..i], fmt[i], 10, false);
    RunSoFar(fmt, i0, i + 1, 10);
    var run := fmt[i0..RunEnd(fmt, i0, 10)];
    PrefixValue(run, i + 1 - i0, 10);
    assert run[..i + 1 - i0] == fmt[i0..i + 1];
  }

  /** "get field width". */
  method GetWidth(fmt: string, i0: nat, flags0: bv8, args0: seq<Arg>)
    returns (flags: bv8, width: i32, i: nat, args: seq<Arg>)
    requires i0 <= |fmt| && ScanWidth(fmt, i0, flags0, args0).Some?
    ensures ScanWidth(fmt, i0, flags0, args0) == Some((flags, width as int, i, args))
  {
    hide ScanInt;
    flags, i, args := flags0, i0, args0;
    width := -1;
    if IsDigit(At(fmt, i)) {
      width, i := SkipAtoi(fmt, i);
    } else if At(fmt, i) == '*' {
      i := i + 1;
      width, args := Signed32(args[0].w), args[1..];
      if width < 0 {
        width := -width;
        flags := flags | LEFT;
      }
    }
  }

  /** "get the precision". */
  method GetPrecision(fmt: string, i0: nat, args0: seq<Arg>) returns (precision: i32, i: nat, args: seq<Arg>)
    requires i0 <= |fmt| && ScanPrecision(fmt, i0, args0).Some?
    ensures ScanPrecision(fmt, i0, args0) == Some((precision as int, i, args))
  {
    hide ScanInt;
    i, args := i0, args0;
    precision := -1;
    if At(fmt, i) == '.' {
      i := i + 1;
      if IsDigit(At(fmt, i)) {
        precision, i := SkipAtoi(fmt, i);
      } else if At(fmt, i) == '*' {
        i := i + 1;
        precision, args := Signed32(args[0].w), args[1..];
      }
      if precision < 0 {
        precision := 0;
      }
    }
  }

  /** "get the conversion qualifier". */
  method GetQualifier(fmt: string, i0: nat) returns (qualifier: char, i: nat)
    requires i0 <= |fmt|
    ensures (qualifier, i) == ScanQualifier(fmt, i0)
  {
    i := i0;
    qualifier := '\0';
    var c := At(fmt, i);
    if c == 'h' || c == 'l' || c == 'L' || c == 'Z' || c == 'z' {
      qualifier := c;
      i := i + 1;
      if qualifier == 'l' && At(fmt, i) == 'l' {
        qualifier := 'L';
        i := i + 1;
      }
    }
  }

  /** A whole directive, from the place after the percent sign. */
  method ParseDirective(fmt: string, i0: nat, args0: seq<Arg>) returns (spec: Spec)
    requires i0 <= |fmt| && ParseSpec(fmt, i0, args0).Some?
    ensures ParseSpec(fmt, i0, args0) == Some(spec)
  {
    hide ScanFlags, ScanWidth, ScanPrecision, ScanQualifier;
    var flags, i := SkipFlags(fmt, i0);
    var args, width, precision, qualifier;
    flags, width, i, args := GetWidth(fmt, i, flags, args0);
    precision, i, args := GetPrecision(fmt, i, args);
    qualifier, i := GetQualifier(fmt, i);
    spec := Spec(flags, width, precision, qualifier, i, args);
  }

  // ---------- Fields that are not numbers ----------

  /** The spaces of a character field: one fewer than the width, which is used up on the way. */
  method PadChar(buf: array<char>, str0: nat, size: nat, width0: i32, ghost before: string, ghost text: string)
    returns (str: nat, width: i32)
    requires width0 > -0x8000_0000
    requires Shows(buf[..], before, size, text) && str0 == |text| && Room(buf.Length, size, text + Fill(' ', width0 - 1))
    modifies buf
    ensures str == |text + Fill(' ', width0 - 1)| && Shows(buf[..], before, size, text + Fill(' ', width0 - 1))
    ensures width == if width0 > 1 then 0 else width0 - 1
  {
    hide Shows, Room, Fill;
    str, width := str0, width0 - 1;
    ghost var done: nat := 0;
    NoFill(text);
    while width > 0
      invariant done == if width0 > 1 then width0 - 1 - width else 0
      invariant if width0 > 1 then 0 <= width < width0 else width == width0 - 1
      invariant str == |text| + done && Shows(buf[..], before, size, text + Fill(' ', done))
      decreases width
    {
      OneMore(buf.Length, size, text, done, width0 - 1);
      str := PutCh(buf, str, size, ' ', before, text + Fill(' ', done));
      done := done + 1;
      width := width - 1;
    }
    FillIsDone(done, width0 - 1);
  }

  lemma NoFill(text: string)
    ensures Fill(' ', 0) == "" && text + Fill(' ', 0) == text
  {
  }

  lemma FillIsDone(done: nat, n: int)
    requires done == if n > 0 then n else 0
    ensures Fill(' ', done) == Fill(' ', n)
  {
  }

  lemma OneMore(length: nat, size: nat, text: string, done: nat, n: int)
    requires Room(length, size, text + Fill(' ', n)) && done < n
    ensures Room(length, size, text + Fill(' ', done))
    ensures text + Fill(' ', done) + [' '] == text + Fill(' ', done + 1)
  {
    FillOneMore(' ', done, 1);
  }

  /** The spaces of a string field: the width beyond the length; the last test lowers the width once more. */
  method PadString(buf: array<char>, str0: nat, size: nat, len: nat, width0: i32, ghost before: string, ghost text: string)
    returns (str: nat, width: i32)
    requires width0 > -0x8000_0000 && len <= INT_MAX
    requires Shows(buf[..], before, size, text) && str0 == |text| && Room(buf.Length, size, text + Fill(' ', width0 - len))
    modifies buf
    ensures str == |text + Fill(' ', width0 - len)| && Shows(buf[..], before, size, text + Fill(' ', width0 - len))
    ensures width == if width0 > len then len - 1 else width0 - 1
  {
    hide Shows, Room, Fill;
    str, width := str0, width0;
    ghost var done: nat := 0;
    NoFill(text);
    while true
      invariant done == width0 - width && (width0 > len ==> width >= len) && (width0 <= len ==> width == width0)
      invariant str == |text| + done && Shows(buf[..], before, size, text + Fill(' ', done))
      decreases width
    {
      var last := width;
      width := width - 1;
      if len >= last {
        FillIsDone(done, width0 - len);
        return;
      }
      OneMore(buf.Length, size, text, done, width0 - len);
      str := PutCh(buf, str, size, ' ', before, text + Fill(' ', done));
      done := done + 1;
    }
  }

  /** The `c` conversion. */
  method PutCharField(buf: array<char>, str0: nat, size: nat, c: char, width0: i32, flags: bv8,
                      ghost before: string, ghost text: string)
    returns (str: nat)
    requires width0 >= -1
    requires Shows(buf[..], before, size, text) && str0 == |text|
    requires Room(buf.Length, size, text + Padded([c], width0, flags))
    modifies buf
    ensures var t := text + Padded([c], width0, flags); str == |t| && Shows(buf[..], before, size, t)
  {
    hide Shows, Room, Fill;
    var width := width0;
    ghost var left := if flags & LEFT == 0 then Fill(' ', width0 - 1) else "";
    ghost var right := if flags & LEFT == 0 then "" else Fill(' ', width0 - 1);
    ghost var full := text + Padded([c], width0, flags);
    assert full == text + left + [c] + right;
    RoomForPart(buf.Length, size, text + left, full);
    str := str0;
    assert text + "" == text;
    if flags & LEFT == 0 {
      str, width := PadChar(buf, str, size, width, before, text);
    }
    str := PutCh(buf, str, size, c, before, text + left);
    if flags & LEFT == 0 {
      NoMore(width - 1);
    }
    str, width := PadChar(buf, str, size, width, before, text + left + [c]);
  }

  lemma NoMore(n: int)
    requires n <= 0
    ensures Fill(' ', n) == ""
  {
  }

  /** strnlen. */
  method Strnlen(s: string, count0: u32) returns (n: nat)
    ensures n == StrNLen(s, count0)
  {
    var count := count0;
    n := 0;
    assert s[0..] == s;
    while count > 0 && At(s, n) != '\0'
      invariant n + count == count0 && n <= |s|
      invariant StrNLen(s, count0) == n + StrNLen(s[n..], count)
      decreases count
    {
      assert s[n..][1..] == s[n + 1..];
      n := n + 1;
      count := count - 1;
    }
  }

  /** The `s` conversion. */
  method PutStringField(buf: array<char>, str0: nat, size: nat, s: string, precision: i32, width0: i32, flags: bv8,
                        ghost before: string, ghost text: string)
    returns (str: nat)
    requires width0 >= -1 && precision >= -1
    requires Shows(buf[..], before, size, text) && str0 == |text|
    requires var body := s[..StrNLen(s, Limit(precision))];
      |body| <= INT_MAX && Room(buf.Length, size, text + Padded(body, width0, flags))
    modifies buf
    ensures var body := s[..StrNLen(s, Limit(precision))];
      var t := text + Padded(body, width0, flags); str == |t| && Shows(buf[..], before, size, t)
  {
    hide Shows, Room, Fill, StrNLen;
    var width := width0;
    var len := Strnlen(s, Limit(precision));
    ghost var body := s[..len];
    ghost var left := if flags & LEFT == 0 then Fill(' ', width0 - len) else "";
    ghost var right := if flags & LEFT == 0 then "" else Fill(' ', width0 - len);
    ghost var full := text + Padded(body, width0, flags);
    assert full == text + left + body + right;
    RoomForPart(buf.Length, size, text + left, full);
    RoomForPart(buf.Length, size, text + left + body, full);
    str := str0;
    assert text + "" == text;
    if flags & LEFT == 0 {
      str, width := PadString(buf, str, size, len, width, before, text);
    }
    str := PutBody(buf, str, size, s, len, before, text + left);
    if flags & LEFT == 0 {
      NoMore(width - len);
    }
    str, width := PadString(buf, str, size, len, width, before, text + left + body);
  }

  /** The first `len` characters of the argument, one at a time. */
  method PutBody(buf: array<char>, str0: nat, size: nat, s: string, len: nat, ghost before: string, ghost text: string)
    returns (str: nat)
    requires len <= |s| && Shows(buf[..], before, size, text) && str0 == |text| && Room(buf.Length, size, text + s[..len])
    modifies buf
    ensures str == |text + s[..len]| && Shows(buf[..], before, size, text + s[..len])
  {
    hide Shows, Room;
    str := str0;
    assert text + s[..0] == text;
    for i := 0 to len
      invariant str == |text| + i && Shows(buf[..], before, size, text + s[..i])
    {
      RoomForPart(buf.Length, size, text + s[..i], text + s[..len]);
      assert text + s[..i] + [s[i]] == text + s[..i + 1];
      str := PutCh(buf, str, size, s[i], before, text + s[..i]);
    }
  }

  // ---------- Directives ----------

  /** The argument of an integer conversion, widened to 64 bits. */
  method FetchInteger(a: Arg, qualifier: char, flags: bv8) returns (num: u64)
    requires IntegerArg(a, qualifier, flags & SIGN != 0).Some?
    ensures Some(num) == IntegerArg(a, qualifier, flags & SIGN != 0)
  {
    if qualifier == 'L' {
      num := a.v;
    } else if qualifier == 'l' {
      num := a.w;
      if flags & SIGN != 0 {
        num := Wrap64(Signed32(num));
      }
    } else if qualifier == 'Z' || qualifier == 'z' {
      num := a.w;
    } else if qualifier == 'h' {
      num := a.w % 0x1_0000;
      if flags & SIGN != 0 {
        num := Wrap64(if num >= 0x8000 then num - 0x1_0000 else num);
      }
    } else {
      num := a.w;
      if flags & SIGN != 0 {
        num := Wrap64(Signed32(num));
      }
    }
  }

  lemma IntegerTextIs(spec: Spec, c: char)
    requires IsInteger(c) && IntegerText(spec, c).Some?
    ensures spec.args != [] && IntegerArg(spec.args[0], spec.qualifier, IntegerFlags(c, spec.flags) & SIGN != 0).Some?
    ensures var ty := IntegerFlags(c, spec.flags);
      var num := IntegerArg(spec.args[0], spec.qualifier, ty & SIGN != 0).value;
      && Prints(num, BaseOf(c), ty)
      && IntegerText(spec, c).value == NumberText(num, BaseOf(c), spec.width, spec.precision, ty)
  {
  }

  /** "set up the flags and break". */
  method SetUp(c: char, flags0: bv8) returns (base: nat, flags: bv8)
    requires IsInteger(c)
    ensures base == BaseOf(c) && flags == IntegerFlags(c, flags0)
  {
    base, flags := 10, flags0;
    if c == 'o' {
      base := 8;
    } else if c == 'X' || c == 'x' {
      if c == 'X' {
        flags := flags | LARGE;
      }
      base := 16;
    } else if c == 'd' || c == 'i' {
      flags := flags | SIGN;
    }
  }

  /** Integer conversions: choose base and flags, fetch the number, format it. */
  method PutInteger(buf: array<char>, str0: nat, size: nat, spec: Spec, c: char, ghost before: string, ghost text: string)
    returns (str: nat)
    requires IsInteger(c) && IntegerText(spec, c).Some?
    requires -1 <= spec.width <= INT_MAX && -1 <= spec.precision <= INT_MAX
    requires |IntegerText(spec, c).value| + 3 <= INT_MAX
    requires Shows(buf[..], before, size, text) && str0 == |text|
    requires Room(buf.Length, size, text + IntegerText(spec, c).value)
    modifies buf
    ensures var t := text + IntegerText(spec, c).value; str == |t| && Shows(buf[..], before, size, t)
  {
    hide Shows, Room, NumberText, Magnitude, IntegerArg, IntegerText, BaseOf, IntegerFlags;
    IntegerTextIs(spec, c);
    var base, flags := SetUp(c, spec.flags);
    var num := FetchInteger(spec.args[0], spec.qualifier, flags);
    str := Number(buf, str0, size, num, base, spec.width, spec.precision, flags, before, text);
  }

  lemma PointerIsPositive(w: u32, ty: bv8)
    ensures Magnitude(w, ty) == w
  {
  }

  lemma FieldTextIs(spec: Spec, c: char)
    requires TakesArg(c) ==> FieldText(spec, c).Some?
    ensures TakesArg(c) ==> spec.args != []
    ensures c == 'n' ==> spec.args[0].Word? && FieldText(spec, c).value == ""
    ensures IsInteger(c) ==> FieldText(spec, c) == IntegerText(spec, c)
    ensures c == 'c' || c == 'p' ==> spec.args[0].Word?
    ensures c == 's' ==> spec.args[0].Word? || spec.args[0].Str?
    ensures c == 'c' ==>
      FieldText(spec, c).value == Padded([(spec.args[0].w % 256) as char], spec.width, spec.flags)
    ensures c == 's' ==>
      var s := if spec.args[0].Word? then "<NULL>" else spec.args[0].s;
      FieldText(spec, c).value == Padded(s[..StrNLen(s, Limit(spec.precision))], spec.width, spec.flags)
    ensures c == 'p' ==>
      FieldText(spec, c).value
        == NumberText(spec.args[0].w, 16, if spec.width == -1 then 8 else spec.width, spec.precision,
                      if spec.width == -1 then spec.flags | ZEROPAD else spec.flags)
  {
  }

  /** The switch on the conversion character. */
  method PutDirective(buf: array<char>, str0: nat, size: nat, fmt: string, spec: Spec, ghost before: string, ghost text: string)
    returns (str: nat, next: nat, args: seq<Arg>, stores: seq<Poke>)
    requires Convert(fmt, spec).Some? && spec.at <= |fmt|
    requires -1 <= spec.width <= INT_MAX && -1 <= spec.precision <= INT_MAX
    requires |Convert(fmt, spec).value.0| + 3 <= INT_MAX
    requires Shows(buf[..], before, size, text) && str0 == |text|
    requires Room(buf.Length, size, text + Convert(fmt, spec).value.0)
    modifies buf
    ensures var (t, n, rest) := Convert(fmt, spec).value;
      next == n && args == rest && str == |text + t| && Shows(buf[..], before, size, text + t)
    ensures stores == PokeOf(fmt, spec, str0)
  {
    hide Shows, Room, NumberText, IntegerText, Padded, StrNLen, FieldText, StringArg;
    var c := At(fmt, spec.at);
    FieldTextIs(spec, c);
    ghost var full := text + Convert(fmt, spec).value.0;
    RoomForPart(buf.Length, size, text, full);
    next, args, stores := spec.at + 1, spec.args, [];
    if TakesArg(c) {
      args := args[1..];
    }
    if c == 'c' {
      str := PutCharField(buf, str0, size, (spec.args[0].w % 256) as char, spec.width, spec.flags, before, text);
    } else if c == 's' {
      var s := if spec.args[0].Word? then "<NULL>" else spec.args[0].s;
      BodyFits(s[..StrNLen(s, Limit(spec.precision))], spec.width, spec.flags);
      str := PutStringField(buf, str0, size, s, spec.precision, spec.width, spec.flags, before, text);
    } else if c == 'p' {
      var width, flags := spec.width, spec.flags;
      if width == -1 {
        width := 8;
        flags := flags | ZEROPAD;
      }
      PointerIsPositive(spec.args[0].w, flags);
      str := Number(buf, str0, size, spec.args[0].w, 16, width, spec.precision, flags, before, text);
    } else if c == 'n' {
      str, stores := str0, [Poke(spec.args[0].w, str0)];
      assert text + "" == text;
    } else if c == '%' {
      str := PutCh(buf, str0, size, '%', before, text);
    } else if IsInteger(c) {
      str := PutInteger(buf, str0, size, spec, c, before, text);
    } else {
      RoomForPart(buf.Length, size, text + ['%'], full);
      str := PutCh(buf, str0, size, '%', before, text);
      if c != '\0' {
        str := PutCh(buf, str, size, c, before, text + ['%']);
        assert text + ['%'] + [c] == text + ['%', c];
      } else {
        next := next - 1;
      }
    }
  }

  lemma BodyFits(body: string, width: int, flags: bv8)
    ensures |body| <= |Padded(body, width, flags)|
  {
  }

  // ---------- The whole call ----------

  /** How many characters of a text of `n` a buffer of `size` holds beside the end mark. */
  function Kept(n: nat, size: nat): nat
    requires size > 0
  {
    if n < size then n else size - 1
  }

  /** What the caller finds: the text cut to the size, the end mark, and the rest as it was. */
  function Delivered(before: string, size: nat, text: string): string
    requires Room(|before|, size, text)
  {
    if size == 0 then before
    else
      var k := Kept(|text|, size);
      text[..k] + ['\0'] + before[k + 1..]
  }

  /** The size the function works with: a buffer cannot reach beyond the address space. */
  function Effective(addr: u32, size: u32): nat {
    if addr + size - 1 >= TWO_32 then TWO_32 - addr else size
  }

  lemma Finish(cur: string, before: string, size: nat, text: string)
    requires Shows(cur, before, size, text) && Room(|cur|, size, text)
    ensures |text| < size ==> |text| < |cur| && cur[|text| := '\0'] == Delivered(before, size, text)
    ensures 0 < size <= |text| ==> size <= |cur| && cur[size - 1 := '\0'] == Delivered(before, size, text)
    ensures size == 0 ==> cur == Delivered(before, size, text)
  {
  }

  /** What is still to be written fits what the whole text may take. */
  lemma RenderStep(fmt: string, i: nat, args: seq<Arg>, text: string, full: string)
    requires i <= |fmt| && Render(fmt, i, args).Some? && full == text + Render(fmt, i, args).value
    ensures At(fmt, i) == '\0' ==> full == text
    ensures At(fmt, i) != '\0' && At(fmt, i) != '%' ==>
      Render(fmt, i + 1, args).Some? && full == text + [At(fmt, i)] + Render(fmt, i + 1, args).value
    ensures At(fmt, i) == '%' ==>
      ParseSpec(fmt, i + 1, args).Some? && Convert(fmt, ParseSpec(fmt, i + 1, args).value).Some?
    ensures At(fmt, i) == '%' ==>
      var (t, next, rest) := Convert(fmt, ParseSpec(fmt, i + 1, args).value).value;
      i < next <= |fmt| && Render(fmt, next, rest).Some? && full == text + t + Render(fmt, next, rest).value
      && Pokes(fmt, i, args, |text|)
         == PokeOf(fmt, ParseSpec(fmt, i + 1, args).value, |text|) + Pokes(fmt, next, rest, |text + t|)
    ensures At(fmt, i) == '\0' ==> Pokes(fmt, i, args, |text|) == []
    ensures At(fmt, i) != '\0' && At(fmt, i) != '%' ==>
      Pokes(fmt, i, args, |text|) == Pokes(fmt, i + 1, args, |text + [At(fmt, i)]|)
  {
    hide ParseSpec, Convert, PokeOf;
    if At(fmt, i) == '%' {
      ConvertAdvances(fmt, i + 1, args);
    }
  }

  /** The loop of vsnprintf. */
  method Walk(buf: array<char>, size: nat, fmt: string, args0: seq<Arg>, ghost before: string, ghost full: string)
    returns (str: nat, stores: seq<Poke>)
    requires Render(fmt, 0, args0) == Some(full) && |full| + 3 <= INT_MAX
    requires buf[..] == before && Room(buf.Length, size, full)
    modifies buf
    ensures str == |full| && Shows(buf[..], before, size, full) && stores == Pokes(fmt, 0, args0, 0)
  {
    hide Shows, Room, Render, ParseSpec, Convert, Pokes, PokeOf;
    str, stores := 0, [];
    var i, args := 0, args0;
    ghost var text := "";
    ShowsNothing(before, size);
    assert full == text + full;
    while At(fmt, i) != '\0'
      invariant i <= |fmt| && Render(fmt, i, args).Some? && full == text + Render(fmt, i, args).value
      invariant str == |text| && Shows(buf[..], before, size, text)
      invariant stores + Pokes(fmt, i, args, |text|) == Pokes(fmt, 0, args0, 0)
      decreases |fmt| - i
    {
      RenderStep(fmt, i, args, text, full);
      if At(fmt, i) != '%' {
        RoomForPart(buf.Length, size, text, full);
        str := PutCh(buf, str, size, At(fmt, i), before, text);
        text := text + [At(fmt, i)];
        i := i + 1;
      } else {
        var spec := ParseDirective(fmt, i + 1, args);
        ghost var t := Convert(fmt, spec).value.0;
        RoomForPart(buf.Length, size, text + t, full);
        var more;
        str, i, args, more := PutDirective(buf, str, size, fmt, spec, before, text);
        text := text + t;
        stores := stores + more;
      }
    }
    RenderStep(fmt, i, args, text, full);
  }

  /** vsnprintf.  Whatever the size, the value is the length of the whole text; a size that is negative as an
      `int` is refused with 0. */
  method Vsnprintf(buf: array<char>, addr: u32, size0: u32, fmt: string, args: seq<Arg>)
    returns (r: int, stores: seq<Poke>)
    requires addr > 0 && Render(fmt, 0, args).Some?
    requires var text := Render(fmt, 0, args).value; |text| + 3 <= INT_MAX && addr + |text| < TWO_32
    requires size0 < 0x8000_0000 ==> Room(buf.Length, Effective(addr, size0), Render(fmt, 0, args).value)
    modifies buf
    ensures size0 >= 0x8000_0000 ==> r == 0 && buf[..] == old(buf[..]) && stores == []
    ensures size0 < 0x8000_0000 ==> stores == Pokes(fmt, 0, args, 0)
    ensures size0 < 0x8000_0000 ==> var text := Render(fmt, 0, args).value;
      r == |text| && buf[..] == Delivered(old(buf[..]), Effective(addr, size0), text)
  {
    hide Shows, Render, Delivered, Pokes;
    if Signed32(size0) < 0 {
      return 0, [];
    }
    ghost var before, text := buf[..], Render(fmt, 0, args).value;
    var size := size0;
    var end := Wrap32(addr + size - 1);
    if end < addr - 1 {
      end := 0xffff_ffff;
      size := end - addr + 1;
    }
    var str;
    str, stores := Walk(buf, size, fmt, args, before, text);
    Finish(buf[..], before, size, text);
    if str < size {
      buf[str] := '\0';
    } else if size > 0 {
      buf[size - 1] := '\0';
    }
    r := str;
  }

  /** vscnprintf: the number of characters stored, but for size 0, where the unsigned `size - 1` reads as -1
      although the comment in the source promises 0. */
  method Vscnprintf(buf: array<char>, addr: u32, size: u32, fmt: string, args: seq<Arg>)
    returns (r: int, stores: seq<Poke>)
    requires addr > 0 && Render(fmt, 0, args).Some?
    requires var text := Render(fmt, 0, args).value; |text| + 3 <= INT_MAX && addr + |text| < TWO_32
    requires size < 0x8000_0000 ==> Room(buf.Length, Effective(addr, size), Render(fmt, 0, args).value)
    modifies buf
    ensures size == 0 ==> r == -1
    ensures 0 < size < 0x8000_0000 ==> r == Kept(|Render(fmt, 0, args).value|, Effective(addr, size))
    ensures size >= 0x8000_0000 ==> r == 0
    ensures stores == if size >= 0x8000_0000 then [] else Pokes(fmt, 0, args, 0)
    ensures size < 0x8000_0000 ==>
      buf[..] == Delivered(old(buf[..]), Effective(addr, size), Render(fmt, 0, args).value)
  {
    hide Render, Delivered, Pokes;
    var i;
    i, stores := Vsnprintf(buf, addr, size, fmt, args);
    r := if i >= size then Signed32(Wrap32(size - 1)) else i;
  }

  /** vsprintf: no limit but INT_MAX. */
  method Vsprintf(buf: array<char>, addr: u32, fmt: string, args: seq<Arg>) returns (r: int, stores: seq<Poke>)
    requires addr > 0 && Render(fmt, 0, args).Some?
    requires var text := Render(fmt, 0, args).value; |text| + 3 <= INT_MAX && addr + |text| < TWO_32
    requires |Render(fmt, 0, args).value| < buf.Length
    modifies buf
    ensures var text := Render(fmt, 0, args).value;
      r == |text| && buf[..] == text + ['\0'] + old(buf[|text| + 1..])
    ensures stores == Pokes(fmt, 0, args, 0)
  {
    hide Render, Pokes;
    ghost var text, before := Render(fmt, 0, args).value, buf[..];
    r, stores := Vsnprintf(buf, addr, 0x7fff_ffff, fmt, args);
    assert text[..|text|] == text;
  }

  // ---------- What the caller can rely on ----------

  /** The string a C program sees in a buffer. */
  function CString(s: string): string {
    s[..StrNLen(s, |s|)]
  }

  lemma {:induction false} StrNLenIs(s: string, n: nat, count: nat)
    requires n <= |s| && (forall k | 0 <= k < n :: s[k] != '\0') && n <= count && (n == count || At(s, n) == '\0')
    ensures StrNLen(s, count) == n
    decreases n
  {
    if n > 0 {
      assert At(s[1..], n - 1) == At(s, n);
      StrNLenIs(s[1..], n - 1, count - 1);
    }
  }

  /** With a size of at least 1 the buffer always holds a terminated string: the text's first size - 1
      characters, or all of it exactly when the returned length is below the size. */
  lemma TruncatedPrefix(before: string, size: nat, text: string)
    requires size > 0 && Room(|before|, size, text) && '\0' !in text
    ensures CString(Delivered(before, size, text)) == text[..Kept(|text|, size)]
    ensures CString(Delivered(before, size, text)) == text <==> |text| < size
    ensures forall i | 0 <= i < |before| && (i >= size || i > |text|) :: Delivered(before, size, text)[i] == before[i]
  {
    var d, k := Delivered(before, size, text), Kept(|text|, size);
    assert forall j | 0 <= j < k :: d[j] == text[j];
    StrNLenIs(d, k, |d|);
    assert d[..k] == text[..k];
  }

  /** The effective size is the given one unless the buffer would wrap around the address space, and then
      the text is never cut. */
  lemma EffectiveSize(addr: u32, size: u32, n: nat)
    requires addr > 0 && 0 < size < 0x8000_0000 && addr + n < TWO_32
    ensures Kept(n, Effective(addr, size)) == Kept(n, size)
  {
  }
}
