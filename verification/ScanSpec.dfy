/** What vsscanf (lib/vsprintf.c) reads from a string under a format. */
module ScanSpec {
  import opened Words
  import opened Ctype
  import opened Output
  import opened FormatSpec
  import opened Wrappers
  import opened Strto

  /** One store through an argument pointer: an object of so many bits, or characters. */
  datatype Stored = Bits(width: nat, value: nat) | Chars(text: string)

  /** What the scan has delivered: the value returned and the stores in order. */
  datatype Outcome = Outcome(count: nat, stores: seq<Stored>)

  function SkipSpace(s: string, i: nat): (j: nat)
    requires i <= |s|
    ensures i <= j <= |s|
    decreases |s| - i
  {
    if IsSpace(At(s, i)) then SkipSpace(s, i + 1) else i
  }

  /** The place of the next white space or end. */
  function SkipWord(s: string, i: nat): (j: nat)
    requires i <= |s|
    ensures i <= j <= |s|
    ensures At(s, i) != '\0' && !IsSpace(At(s, i)) ==> i < j
    decreases |s| - i
  {
    if At(s, i) == '\0' || IsSpace(At(s, i)) then i else SkipWord(s, i + 1)
  }

  /** The end of a word of at most `limit` characters. */
  function WordEnd(s: string, i: nat, limit: int): (j: nat)
    requires i <= |s|
    ensures i <= j <= |s|
    decreases |s| - i
  {
    if At(s, i) == '\0' || IsSpace(At(s, i)) || limit == 0 then i else WordEnd(s, i + 1, limit - 1)
  }

  /** The end of a block of at least one and at most `limit` characters. */
  function BlockEnd(s: string, i: nat, limit: int): (j: nat)
    requires i <= |s| && At(s, i) != '\0'
    ensures i < j <= |s|
    decreases |s| - i
  {
    if limit > 1 && At(s, i + 1) != '\0' then BlockEnd(s, i + 1, limit - 1) else i + 1
  }

  /** `hh` and `ll` are the only doubled qualifiers. */
  function InputQualifier(fmt: string, i: nat): (r: (char, nat))
    requires i <= |fmt|
    ensures i <= r.1 <= |fmt|
  {
    var c := At(fmt, i);
    if c == 'h' && At(fmt, i + 1) == 'h' then ('H', i + 2)
    else if c == 'l' && At(fmt, i + 1) == 'l' then ('L', i + 2)
    else if c == 'h' || c == 'l' || c == 'L' || c == 'Z' || c == 'z' then (c, i + 1)
    else ('\0', i)
  }

  predicate IsSigned(c: char) {
    c == 'd' || c == 'i'
  }

  function InputBase(c: char): (b: u32)
    ensures b in {0, 8, 10, 16}
  {
    if c == 'o' then 8 else if c == 'x' || c == 'X' then 16 else if c == 'i' then 0 else 10
  }

  /** The test that a number starts here. */
  predicate StartsNumber(s: string, j: nat, base: nat, signed: bool) {
    var digit := if signed && At(s, j) == '-' then At(s, j + 1) else At(s, j);
    && digit != '\0'
    && (base == 16 ==> IsXDigit(digit))
    && (base == 10 || base == 0 ==> IsDigit(digit))
    && (base == 8 ==> IsDigit(digit) && digit <= '7')
  }

  /** The number at `j` as the qualifier stores it, and the place after it.  The size_t qualifiers read
      unsigned whatever the conversion. */
  function StoreNumber(s: string, j: nat, base: nat, signed: bool, qualifier: char): (r: (Stored, nat))
    requires j <= |s|
    ensures j <= r.1 <= |s|
  {
    var m := if qualifier == 'L' then TWO_64 else TWO_32;
    var (v, next) := if signed && qualifier != 'Z' && qualifier != 'z' then SignedRead(s, j, base, m)
                     else (NumberValue(s, j, base) % m, NumberEnd(s, j, base));
    var width := if qualifier == 'H' then 8 else if qualifier == 'h' then 16 else if qualifier == 'L' then 64 else 32;
    (Bits(width, v % Pow2(width)), next)
  }

  /** What a conversion does: nothing more is scanned, or scanning goes on from place `next`. */
  datatype Step = Stop(result: Outcome) | Go(next: nat, result: Outcome)

  /** The conversion with character `c` applied at place `j` of the input. */
  function Apply(s: string, j: nat, c: char, width: int, qualifier: char, o: Outcome): (r: Step)
    requires j <= |s| && At(s, j) != '\0'
    ensures r.Go? ==> j <= r.next <= |s|
  {
    if c == 'c' then
      var e := BlockEnd(s, j, width);
      Go(e, Outcome(o.count + 1, o.stores + [Chars(s[j..e])]))
    else if c == 's' then
      var k := SkipSpace(s, j);
      var e := WordEnd(s, k, if width == -1 then INT_MAX else width);
      Go(e, Outcome(o.count + 1, o.stores + [Chars(s[k..e] + ['\0'])]))
    else if c == 'n' then
      Go(j, o.(stores := o.stores + [Bits(32, j)]))
    else if c == '%' then
      if At(s, j) == '%' then Go(j + 1, o) else Stop(o)
    else if IsInteger(c) then
      var k := SkipSpace(s, j);
      if !StartsNumber(s, k, InputBase(c), IsSigned(c)) then Stop(o)
      else
        var (store, e) := StoreNumber(s, k, InputBase(c), IsSigned(c), qualifier);
        Go(e, Outcome(o.count + 1, o.stores + [store]))
    else Stop(o)
  }

  /** The width of a conversion, -1 for none; None when it overflows. */
  function InputWidth(fmt: string, i: nat): (r: Option<(int, nat)>)
    requires i <= |fmt|
    ensures r.Some? ==> -1 <= r.value.0 <= INT_MAX && i <= r.value.1 <= |fmt|
  {
    if IsDigit(At(fmt, i)) then ScanInt(fmt, i) else Some((-1, i))
  }

  /** The scan of `s` from place `j` under the format from place `i`, after outcome `o`. */
  function Scan(fmt: string, i: nat, s: string, j: nat, o: Outcome): (r: Option<Outcome>)
    requires i <= |fmt| && j <= |s|
    decreases |fmt| - i
  {
    if At(fmt, i) == '\0' || At(s, j) == '\0' then Some(o)
    else
      var i1 := if IsSpace(At(fmt, i)) then SkipSpace(fmt, i) else i;
      var j1 := if IsSpace(At(fmt, i)) then SkipSpace(s, j) else j;
      var c := At(fmt, i1);
      if c == '\0' then Some(o)
      else if c != '%' then
        if c == At(s, j1) then Scan(fmt, i1 + 1, s, j1 + 1, o) else Some(o)
      else if At(fmt, i1 + 1) == '*' then
        Scan(fmt, SkipWord(fmt, i1 + 1), s, SkipWord(s, j1), o)
      else
        match InputWidth(fmt, i1 + 1)
        case None => None
        case Some((width, i2)) =>
          var (qualifier, i3) := InputQualifier(fmt, i2);
          if At(fmt, i3) == '\0' || At(s, j1) == '\0' then Some(o)
          else
            match Apply(s, j1, At(fmt, i3), width, qualifier, o)
            case Stop(r) => Some(r)
            case Go(next, r) => Scan(fmt, i3 + 1, s, next, r)
  }
}
