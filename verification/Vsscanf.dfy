/** vsscanf (lib/vsprintf.c): the scanning loop. */
module Vsscanf {
  import opened Words
  import opened Ctype
  import opened Output
  import opened FormatSpec
  import opened Wrappers
  import opened Strto
  import opened ScanSpec
  import Vsnprintf

  /** Passes over white space. */
  method PassSpace(s: string, i0: nat) returns (i: nat)
    requires i0 <= |s|
    ensures i == SkipSpace(s, i0)
  {
    i := i0;
    while IsSpace(At(s, i))
      invariant i0 <= i <= |s| && SkipSpace(s, i) == SkipSpace(s, i0)
      decreases |s| - i
    {
      i := i + 1;
    }
  }

  /** Passes over everything up to white space or the end of the string. */
  method PassWord(s: string, i0: nat) returns (i: nat)
    requires i0 <= |s|
    ensures i == SkipWord(s, i0)
  {
    i := i0;
    while !IsSpace(At(s, i)) && At(s, i) != '\0'
      invariant i0 <= i <= |s| && SkipWord(s, i) == SkipWord(s, i0)
      decreases |s| - i
    {
      i := i + 1;
    }
  }

  /** The `c` conversion: characters without an end mark. */
  method ReadBlock(str0: nat, s: string, width: i32) returns (text: string, str: nat)
    requires str0 <= |s| && At(s, str0) != '\0' && width >= -1
    ensures str == BlockEnd(s, str0, width) && text == s[str0..str]
  {
    var left: i32 := if width == -1 then 1 else width;
    text, str := [s[str0]], str0 + 1;
    left := left - 1;
    while left > 0 && At(s, str) != '\0'
      invariant str0 < str <= |s| && At(s, str - 1) != '\0' && text == s[str0..str] && left >= -1
      invariant BlockEnd(s, str - 1, left + 1) == BlockEnd(s, str0, width)
      decreases |s| - str
    {
      text := text + [s[str]];
      str := str + 1;
      left := left - 1;
    }
  }

  /** The `s` conversion: a word, with its end mark. */
  method ReadWord(str0: nat, s: string, width: i32) returns (text: string, str: nat)
    requires str0 <= |s| && width >= -1
    ensures var k := SkipSpace(s, str0); var e := WordEnd(s, k, if width == -1 then INT_MAX else width);
      str == e && text == s[k..e] + ['\0']
  {
    var left: i32 := if width == -1 then 0x7fff_ffff else width;
    var start := PassSpace(s, str0);
    str := start;
    text := "";
    ghost var e := WordEnd(s, start, left);
    while At(s, str) != '\0' && !IsSpace(At(s, str)) && left != 0
      invariant start <= str <= |s| && text == s[start..str] && left >= 0
      invariant WordEnd(s, str, left) == e
      decreases |s| - str
    {
      left := left - 1;
      text := text + [s[str]];
      str := str + 1;
    }
    text := text + ['\0'];
  }

  /** The conversion qualifier. */
  method GetQualifier(fmt: string, i0: nat) returns (qualifier: char, i: nat)
    requires i0 <= |fmt|
    ensures (qualifier, i) == InputQualifier(fmt, i0)
  {
    qualifier, i := '\0', i0;
    var c := At(fmt, i);
    if c == 'h' || c == 'l' || c == 'L' || c == 'Z' || c == 'z' {
      qualifier := c;
      i := i + 1;
      if qualifier == At(fmt, i) {
        if qualifier == 'h' {
          qualifier := 'H';
          i := i + 1;
        } else if qualifier == 'l' {
          qualifier := 'L';
          i := i + 1;
        }
      }
    }
  }

  lemma StoreWidths(v: nat)
    ensures Pow2(8) == 256 && Pow2(16) == 0x1_0000 && Pow2(32) == TWO_32 && Pow2(64) == TWO_64
    ensures v < TWO_32 ==> v % Pow2(32) == v
    ensures v < TWO_64 ==> v % Pow2(64) == v
  {
    Widths();
    SmallWidths();
  }

  /** The switch on the qualifier: read and store. */
  method ReadNumber(s: string, j: nat, base: u32, signed: bool, qualifier: char) returns (store: Stored, next: nat)
    requires j <= |s|
    ensures (store, next) == StoreNumber(s, j, base, signed, qualifier)
  {
    hide NumberValue, NumberEnd, SignedRead, Pow2;
    var v: u32, w: u64;
    if qualifier == 'L' {
      if signed {
        w, next := SimpleStrtoll(s, j, base);
      } else {
        w, next := SimpleStrtoull(s, j, base);
      }
      StoreWidths(w);
      store := Bits(64, w);
      return;
    }
    if signed && qualifier != 'Z' && qualifier != 'z' {
      v, next := SimpleStrtol(s, j, base);
    } else {
      v, next := SimpleStrtoul(s, j, base);
    }
    StoreWidths(v);
    if qualifier == 'H' {
      store := Bits(8, v % 256);
    } else if qualifier == 'h' {
      store := Bits(16, v % 0x1_0000);
    } else {
      store := Bits(32, v);
    }
  }

  /** The switch on the conversion character. */
  method Convert(s: string, str0: nat, c: char, width: i32, qualifier: char, o0: Outcome)
    returns (stop: bool, str: nat, o: Outcome)
    requires str0 <= |s| && At(s, str0) != '\0' && width >= -1
    ensures Apply(s, str0, c, width, qualifier, o0) == if stop then Stop(o) else Go(str, o)
  {
    hide BlockEnd, WordEnd, SkipSpace, StoreNumber;
    stop, str, o := false, str0, o0;
    var text, store;
    if c == 'c' {
      text, str := ReadBlock(str, s, width);
      o := Outcome(o.count + 1, o.stores + [Chars(text)]);
    } else if c == 's' {
      text, str := ReadWord(str, s, width);
      o := Outcome(o.count + 1, o.stores + [Chars(text)]);
    } else if c == 'n' {
      o := o.(stores := o.stores + [Bits(32, str)]);
    } else if c == '%' {
      if At(s, str) == '%' {
        str := str + 1;
      } else {
        stop := true;
      }
    } else if c == 'o' || c == 'x' || c == 'X' || c == 'i' || c == 'd' || c == 'u' {
      var base, signed := InputBase(c), c == 'i' || c == 'd';
      str := PassSpace(s, str);
      var digit := At(s, str);
      if signed && digit == '-' {
        digit := At(s, str + 1);
      }
      if digit == '\0' || (base == 16 && !IsXDigit(digit)) || (base == 10 && !IsDigit(digit))
         || (base == 8 && (!IsDigit(digit) || digit > '7')) || (base == 0 && !IsDigit(digit)) {
        stop := true;
      } else {
        store, str := ReadNumber(s, str, base, signed, qualifier);
        o := Outcome(o.count + 1, o.stores + [store]);
      }
    } else {
      stop := true;
    }
  }

  /** vsscanf: the number of conversions stored, and the stores. */
  method Vsscanf(buf: string, fmt: string) returns (o: Outcome)
    requires Scan(fmt, 0, buf, 0, Outcome(0, [])).Some?
    ensures Scan(fmt, 0, buf, 0, Outcome(0, [])) == Some(o)
  {
    hide Apply, SkipSpace, SkipWord, InputQualifier, ScanInt;
    o := Outcome(0, []);
    var i: nat, str: nat := 0, 0;
    ghost var final := Scan(fmt, 0, buf, 0, o);
    while At(fmt, i) != '\0' && At(buf, str) != '\0'
      invariant i <= |fmt| && str <= |buf| && Scan(fmt, i, buf, str, o) == final
      decreases |fmt| - i
    {
      if IsSpace(At(fmt, i)) {
        i := PassSpace(fmt, i);
        str := PassSpace(buf, str);
      }
      if At(fmt, i) != '%' && At(fmt, i) != '\0' {
        if At(fmt, i) != At(buf, str) {
          break;
        }
        i, str := i + 1, str + 1;
        continue;
      }
      if At(fmt, i) == '\0' {
        break;
      }
      i := i + 1;
      if At(fmt, i) == '*' {
        i := PassWord(fmt, i);
        str := PassWord(buf, str);
        continue;
      }
      var width: i32 := -1;
      if IsDigit(At(fmt, i)) {
        width, i := Vsnprintf.SkipAtoi(fmt, i);
      }
      var qualifier;
      qualifier, i := GetQualifier(fmt, i);
      if At(fmt, i) == '\0' || At(buf, str) == '\0' {
        break;
      }
      var stop;
      stop, str, o := Convert(buf, str, At(fmt, i), width, qualifier, o);
      i := i + 1;
      if stop {
        return;
      }
    }
  }
}
