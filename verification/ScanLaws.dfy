/** What the conversions of vsscanf (lib/vsprintf.c) read: how far a field width reaches, what a qualifier keeps
    of a number, and where suppression and widths part from section 7.19.6.2 of ISO/IEC 9899:1999. */
module ScanLaws {
  import opened Words
  import opened Ctype
  import opened Numerals
  import opened Output
  import opened FormatSpec
  import opened Wrappers
  import opened Strto
  import opened ScanSpec
  import opened RoundTrip
  import FieldMeaning

  // ---------- Words and blocks ----------

  /** The place `e` is where a word of at most `limit` characters ends. */
  predicate EndsWord(s: string, i: nat, limit: nat, e: nat) {
    && i <= e <= |s| && e - i <= limit && (e - i == limit || Ends(At(s, e)))
    && forall k | i <= k < e :: Inked(s[k])
  }

  /** `%5s` reads characters up to white space, the end, or the width, whichever comes first. */
  lemma {:induction false} WordEndIff(s: string, i: nat, limit: nat, e: nat)
    requires i <= |s|
    ensures e == WordEnd(s, i, limit) <==> EndsWord(s, i, limit, e)
    decreases |s| - i
  {
    if !Ends(At(s, i)) && limit > 0 {
      WordEndIff(s, i + 1, limit - 1, e);
    }
  }

  /** The next white space or end, as `*` looks for it. */
  lemma {:induction false} SkipWordIff(s: string, i: nat, e: nat)
    requires i <= |s|
    ensures e == SkipWord(s, i) <==> i <= e <= |s| && Ends(At(s, e)) && forall k | i <= k < e :: Inked(s[k])
    decreases |s| - i
  {
    if !Ends(At(s, i)) {
      SkipWordIff(s, i + 1, e);
    }
  }

  /** `%5c` reads that many characters, at least one, blanks included, unless the input ends before. */
  lemma {:induction false} BlockEndIff(s: string, i: nat, limit: int, e: nat)
    requires i <= |s| && At(s, i) != '\0'
    ensures var most := if limit > 1 then limit else 1;
      e == BlockEnd(s, i, limit) <==>
        i < e <= |s| && e - i <= most && (e - i == most || At(s, e) == '\0') && forall k | i < k < e :: s[k] != '\0'
    decreases |s| - i
  {
    if limit > 1 && At(s, i + 1) != '\0' {
      BlockEndIff(s, i + 1, limit - 1, e);
    }
  }

  /** The conversion `s` as a whole: one store of the word behind the white space. */
  lemma WordStored(s: string, j: nat, width: int, q: char, o: Outcome) returns (k: nat, e: nat)
    requires j <= |s| && At(s, j) != '\0' && -1 <= width <= INT_MAX
    ensures j <= k <= |s| && (forall p | j <= p < k :: IsSpace(s[p])) && !IsSpace(At(s, k))
    ensures EndsWord(s, k, if width == -1 then INT_MAX else width, e)
    ensures Apply(s, j, 's', width, q, o) == Go(e, Outcome(o.count + 1, o.stores + [Chars(s[k..e] + ['\0'])]))
  {
    k := SkipSpace(s, j);
    SpacePassed(s, j);
    var limit := if width == -1 then INT_MAX else width;
    e := WordEnd(s, k, limit);
    WordEndIff(s, k, limit, e);
  }

  lemma {:induction false} SpacePassed(s: string, i: nat)
    requires i <= |s|
    ensures var k := SkipSpace(s, i); (forall p | i <= p < k :: IsSpace(s[p])) && !IsSpace(At(s, k))
    decreases |s| - i
  {
    if IsSpace(At(s, i)) {
      SpacePassed(s, i + 1);
    }
  }

  // ---------- What a qualifier keeps ----------

  function StoreWidth(q: char): nat {
    if q == 'H' then 8 else if q == 'h' then 16 else if q == 'L' then 64 else 32
  }

  function Negated(minus: bool, n: int): int {
    if minus then -n else n
  }

  /** A number however long, under any qualifier and conversion: what is stored is the number, or its negative
      behind a minus sign, modulo two to the width of the object. */
  lemma NarrowStore(s: string, j: nat, base: nat, signed: bool, q: char, n: nat)
    requires base in {0, 8, 10, 16} && j <= |s|
    requires var k := if signed && At(s, j) == '-' then j + 1 else j;
      var t := Numeral(n, if base == 0 then 10 else base, false);
      Stands(s, k, t) && Stops(At(s, k + |t|))
    requires q == 'Z' || q == 'z' ==> At(s, j) != '-'
    ensures var minus := signed && At(s, j) == '-';
      var e := (if minus then j + 1 else j) + |Numeral(n, if base == 0 then 10 else base, false)|;
      StoreNumber(s, j, base, signed, q) == (Bits(StoreWidth(q), Negated(minus, n) % Pow2(StoreWidth(q))), e)
  {
    hide NumberValue, NumberEnd, Numeral, Pow2, Stands, Stops;
    var k := if signed && At(s, j) == '-' then j + 1 else j;
    var t := Numeral(n, if base == 0 then 10 else base, false);
    UnsignedBack(s, k, base, n, t);
    if k == j && signed {
      DigitIsNoSpace(At(s, j), if base == 0 then 10 else base);
    }
    LowOfLow(n, q);
    LowOfLow(0 - n, q);
  }

  lemma StoreOfValue(s: string, j: nat, base: nat, signed: bool, q: char, n: nat, e: nat)
    requires j <= |s| && e <= |s|
    requires var k := if signed && At(s, j) == '-' then j + 1 else j;
      k <= |s| && NumberValue(s, k, base) == n && NumberEnd(s, k, base) == e
    requires q == 'Z' || q == 'z' ==> At(s, j) != '-'
    ensures var minus := signed && At(s, j) == '-';
      StoreNumber(s, j, base, signed, q) == (Bits(StoreWidth(q), Negated(minus, n) % Pow2(StoreWidth(q))), e)
  {
    hide NumberValue, NumberEnd, Pow2;
    LowOfLow(n, q);
    LowOfLow(0 - n, q);
  }

  /** Reducing modulo 2^32 or 2^64 first does not matter. */
  lemma LowOfLow(x: int, q: char)
    ensures var m := if q == 'L' then TWO_64 else TWO_32; x % m % Pow2(StoreWidth(q)) == x % Pow2(StoreWidth(q))
  {
    hide Pow2;
    Widths();
    SmallWidths();
    var m: nat := if q == 'L' then TWO_64 else TWO_32;
    var p := Pow2(StoreWidth(q));
    var c := if q == 'H' then 0x100_0000 else if q == 'h' then 0x1_0000 else 1;
    assert m == p * c;
    ModOfMod(x, p, c);
  }

  lemma ModOfMod(x: int, p: nat, c: nat)
    requires p > 0 && c > 0
    ensures p * c > 0 && x % (p * c) % p == x % p
  {
    var m := p * c;
    var u, y := x / m, x % m;
    assert x == m * u + y;
    Moved(x, p, c, u, y);
    EuclidUnique(x, p, c * u + y / p, y % p);
  }

  lemma Moved(x: int, p: nat, c: nat, u: int, y: nat)
    requires p > 0 && x == p * c * u + y
    ensures x == p * (c * u + y / p) + y % p
  {
    assert y == p * (y / p) + y % p;
    assert p * c * u == p * (c * u);
  }

  // ---------- Integer conversions as a whole ----------

  /** An integer constant as C reads it: 0x or 0X announces base 16, another leading 0 base 8. */
  predicate Constant(t: string, n: nat) {
    if |t| >= 3 && t[0] == '0' && (t[1] == 'x' || t[1] == 'X') then AllDigits(t[2..], 16) && n == Value(t[2..], 16)
    else if t != "" && t[0] == '0' then AllDigits(t[1..], 8) && n == Value(t[1..], 8)
    else t != "" && AllDigits(t, 10) && n == Value(t, 10)
  }

  predicate Digits(t: string, base: nat, n: nat) {
    t != "" && AllDigits(t, base) && n == Value(t, base)
  }

  /** The texts of the number `n` that a conversion reads: `d` and `u` in decimal, `o` in octal, `x` and `X` in
      hexadecimal with or without 0x, and `i` in the base that the text announces. */
  predicate TextFor(conv: char, t: string, n: nat) {
    match conv
    case 'd' => Digits(t, 10, n)
    case 'u' => Digits(t, 10, n)
    case 'o' => Digits(t, 8, n)
    case 'i' => Constant(t, n)
    case _ =>
      (conv == 'x' || conv == 'X')
      && (Digits(t, 16, n) || (|t| >= 3 && t[0] == '0' && (t[1] == 'x' || t[1] == 'X') && Digits(t[2..], 16, n)))
  }

  /** The bits of the object that a qualifier names: char, short, int and long, long long, size_t. */
  function ObjectBits(q: string): nat {
    if q == "hh" then 8 else if q == "h" then 16 else if q == "ll" || q == "L" then 64 else 32
  }

  predicate IsQualifier(q: string) {
    q in {"", "hh", "h", "l", "ll", "L", "z", "Z"}
  }

  lemma ToUpperX(c: char)
    ensures ToUpper(c) == 'X' <==> c == 'x' || c == 'X'
  {
  }

  /** Digits that end where the text ends, behind the place where they begin. */
  lemma DigitsRead(s: string, i: nat, t: string, base: nat, n: nat)
    requires Stands(s, i, t) && Digits(t, base, n) && Stops(At(s, i + |t|))
    ensures RunEnd(s, i, base) == i + |t| && Value(s[i..RunEnd(s, i, base)], base) == n && IsDigitOf(At(s, i), base)
  {
    FieldMeaning.RunIs(s, i, t, base);
    StandsAt(s, i, t, 0);
  }

  lemma NoDigitsRead(s: string, i: nat, base: nat)
    requires i <= |s| && Stops(At(s, i))
    ensures RunEnd(s, i, base) == i && Value(s[i..RunEnd(s, i, base)], base) == 0
  {
    RunOver(s, i, base);
    assert s[i..i] == "";
  }

  lemma NextIsNoX(s: string, i: nat, t: string, base: nat)
    requires Stands(s, i, t) && t != "" && AllDigits(t, base) && base <= 16 && Stops(At(s, i + |t|))
    ensures ToUpper(At(s, i + 1)) != 'X'
  {
    if |t| > 1 {
      StandsAt(s, i, t, 1);
    }
  }

  /** Base detection reads constants as C does. */
  lemma ConstantRead(s: string, i: nat, t: string, n: nat)
    requires Stands(s, i, t) && Constant(t, n) && Stops(At(s, i + |t|))
    ensures i <= |s| && NumberValue(s, i, 0) == n && NumberEnd(s, i, 0) == i + |t| && IsDigit(At(s, i))
  {
    hide Value, RunEnd, Stands, ToUpper;
    InsideOf(s, i, t);
    StandsAt(s, i, t, 0);
    ToUpperX(At(s, i + 1));
    if |t| >= 3 && t[0] == '0' && (t[1] == 'x' || t[1] == 'X') {
      StandsAt(s, i, t, 1);
      assert t == t[..2] + t[2..];
      StandsApart(s, i, t[..2], t[2..]);
      DigitsRead(s, i + 2, t[2..], 16, n);
    } else if t[0] == '0' {
      assert t == t[..1] + t[1..];
      StandsApart(s, i, t[..1], t[1..]);
      ZeroDigits(t);
      NextIsNoX(s, i, t, 8);
      if |t| > 1 {
        DigitsRead(s, i + 1, t[1..], 8, n);
      } else {
        NoDigitsRead(s, i + 1, 8);
        NoValue(8);
      }
    } else {
      DigitsRead(s, i, t, 10, n);
    }
  }

  lemma NoValue(base: nat)
    ensures Value("", base) == 0
  {
  }

  lemma InsideOf(s: string, i: nat, t: string)
    requires Stands(s, i, t)
    ensures i + |t| <= |s|
  {
  }

  lemma ZeroDigits(t: string)
    requires t != "" && t[0] == '0' && AllDigits(t[1..], 8)
    ensures AllDigits(t, 8)
  {
    assert forall k | 1 <= k < |t| :: t[k] == t[1..][k - 1];
  }

  /** Each conversion reads its texts. */
  lemma TextRead(s: string, i: nat, conv: char, t: string, n: nat)
    requires IsInteger(conv) && Stands(s, i, t) && TextFor(conv, t, n) && Stops(At(s, i + |t|))
    ensures i <= |s| && NumberValue(s, i, InputBase(conv)) == n && NumberEnd(s, i, InputBase(conv)) == i + |t|
    ensures var b := if InputBase(conv) == 0 then 10 else InputBase(conv); IsDigitOf(At(s, i), b)
  {
    hide Value, RunEnd, Stands, ToUpper;
    InsideOf(s, i, t);
    if conv == 'i' {
      ConstantRead(s, i, t, n);
    } else {
      var b := InputBase(conv);
      ToUpperX(At(s, i + 1));
      if (conv == 'x' || conv == 'X') && !Digits(t, 16, n) {
        StandsAt(s, i, t, 0);
        StandsAt(s, i, t, 1);
        assert t == t[..2] + t[2..];
        StandsApart(s, i, t[..2], t[2..]);
        DigitsRead(s, i + 2, t[2..], 16, n);
      } else {
        DigitsRead(s, i, t, b, n);
        NextIsNoX(s, i, t, b);
      }
    }
  }

  /** The code by which the scan knows a qualifier. */
  function CodeFor(q: string): char {
    if q == "" then '\0' else if q == "hh" then 'H' else if q == "ll" then 'L' else q[0]
  }

  lemma QualifierRead(fmt: string, i: nat, q: string, conv: char)
    requires IsQualifier(q) && IsInteger(conv) && Stands(fmt, i, "%" + q + [conv])
    ensures At(fmt, i) == '%' && At(fmt, i + 1 + |q|) == conv && i + |q| + 2 <= |fmt| && !IsDigit(At(fmt, i + 1))
    ensures At(fmt, i + 1) != '*' && InputQualifier(fmt, i + 1) == (CodeFor(q), i + 1 + |q|)
    ensures StoreWidth(CodeFor(q)) == ObjectBits(q)
  {
    hide Stands;
    var d := "%" + q + [conv];
    InsideOf(fmt, i, d);
    StandsAt(fmt, i, d, 0);
    StandsAt(fmt, i, d, 1);
    StandsAt(fmt, i, d, |d| - 1);
    if |q| >= 1 {
      StandsAt(fmt, i, d, 2);
    }
  }

  /** Every integer conversion under every qualifier, on every text that it reads and with a minus sign where it is
      signed: what is stored is the number, or its negative, modulo two to the width of the object, and the scan
      goes on behind both. */
  lemma IntegerScanned(fmt: string, i: nat, q: string, conv: char, s: string, j: nat, minus: bool, t: string, n: nat,
                       o: Outcome)
    requires IsQualifier(q) && IsInteger(conv) && Stands(fmt, i, "%" + q + [conv])
    requires minus ==> (conv == 'd' || conv == 'i') && q != "z" && q != "Z"
    requires TextFor(conv, t, n) && Stands(s, j, if minus then "-" + t else t)
    requires Stops(At(s, j + (if minus then 1 else 0) + |t|))
    ensures i + |q| + 2 <= |fmt| && j + (if minus then 1 else 0) + |t| <= |s|
    ensures Scan(fmt, i, s, j, o)
         == Scan(fmt, i + |q| + 2, s, j + (if minus then 1 else 0) + |t|,
                 Outcome(o.count + 1, o.stores + [Bits(ObjectBits(q), Negated(minus, n) % Pow2(ObjectBits(q)))]))
  {
    hide Stands, Stops, NumberValue, NumberEnd, Pow2, TextFor, StoreNumber, StartsNumber, Scan, Apply,
         InputQualifier, StoreWidth,
         ObjectBits;
    QualifierRead(fmt, i, q, conv);
    var k := if minus then j + 1 else j;
    if minus {
      StandsApart(s, j, "-", t);
      StandsAt(s, j, "-", 0);
    }
    InsideOf(s, k, t);
    TextRead(s, k, conv, t, n);
    var b := if InputBase(conv) == 0 then 10 else InputBase(conv);
    DigitIsNoSpace(At(s, k), b);
    StoreOfValue(s, j, InputBase(conv), IsSigned(conv), CodeFor(q), n, k + |t|);
    DigitStarts(s, j, k, conv);
    ApplyNumber(s, j, conv, -1, CodeFor(q), o);
    OneConversion(fmt, i, s, j, |q|, conv, CodeFor(q), o);
  }

  lemma DigitStarts(s: string, j: nat, k: nat, conv: char)
    requires IsInteger(conv) && k == (if At(s, j) == '-' then j + 1 else j) && (k != j ==> conv == 'd' || conv == 'i')
    requires IsDigitOf(At(s, k), if InputBase(conv) == 0 then 10 else InputBase(conv))
    ensures StartsNumber(s, j, InputBase(conv), IsSigned(conv)) && !IsSpace(At(s, j)) && At(s, j) != '\0'
  {
    DigitIsNoSpace(At(s, k), if InputBase(conv) == 0 then 10 else InputBase(conv));
  }

  /** One conversion without a width, at a place of the input that is not white space. */
  lemma OneConversion(fmt: string, i: nat, s: string, j: nat, n: nat, conv: char, q: char, o: Outcome)
    requires At(fmt, i) == '%' && !IsDigit(At(fmt, i + 1)) && At(fmt, i + 1) != '*' && i + n + 2 <= |fmt|
    requires InputQualifier(fmt, i + 1) == (q, i + 1 + n) && At(fmt, i + 1 + n) == conv && conv != '\0'
    requires j < |s| && At(s, j) != '\0'
    ensures Scan(fmt, i, s, j, o) ==
      match Apply(s, j, conv, -1, q, o)
      case Stop(r) => Some(r)
      case Go(next, r) => Scan(fmt, i + n + 2, s, next, r)
  {
    hide Apply, InputQualifier;
  }

  /** The digits that a number may begin with. */
  function FirstBase(conv: char): nat {
    match conv
    case 'o' => 8
    case 'x' => 16
    case 'X' => 16
    case _ => 10
  }

  /** An integer conversion ends the scan exactly when, behind white space and behind a minus sign where it is
      signed, no digit stands that it can begin with. */
  lemma NumberMissingIff(s: string, j: nat, conv: char, width: int, q: char, o: Outcome)
    requires IsInteger(conv) && j <= |s| && At(s, j) != '\0'
    ensures var k := SkipSpace(s, j);
      var m := if (conv == 'd' || conv == 'i') && At(s, k) == '-' then k + 1 else k;
      Apply(s, j, conv, width, q, o) == Stop(o) <==> !IsDigitOf(At(s, m), FirstBase(conv))
  {
    hide StoreNumber;
  }

  // ---------- Ordinary characters and white space ----------

  predicate Ordinary(w: string) {
    forall k | 0 <= k < |w| :: Inked(w[k]) && w[k] != '%'
  }

  /** Ordinary characters match themselves: the scan goes on behind them exactly when they stand in the input, and
      ends there otherwise. */
  lemma {:induction false} LiteralScanned(fmt: string, i: nat, s: string, j: nat, w: string, o: Outcome)
    requires Stands(fmt, i, w) && Ordinary(w) && j <= |s|
    ensures i + |w| <= |fmt|
    ensures Stands(s, j, w) ==> Scan(fmt, i, s, j, o) == Scan(fmt, i + |w|, s, j + |w|, o)
    ensures !Stands(s, j, w) ==> Scan(fmt, i, s, j, o) == Some(o)
    decreases |w|
  {
    hide Scan;
    if w != "" {
      assert w == [w[0]] + w[1..];
      StandsApart(fmt, i, [w[0]], w[1..]);
      StandsAt(fmt, i, w, 0);
      OneCharacter(fmt, i, s, j, o);
      if At(s, j) == w[0] {
        LiteralScanned(fmt, i + 1, s, j + 1, w[1..], o);
        if Stands(s, j + 1, w[1..]) {
          assert s[j..j + |w|] == [s[j]] + s[j + 1..j + |w|];
        }
      }
      if Stands(s, j, w) {
        StandsAt(s, j, w, 0);
        StandsApart(s, j, [w[0]], w[1..]);
      }
    }
  }

  lemma OneCharacter(fmt: string, i: nat, s: string, j: nat, o: Outcome)
    requires i < |fmt| && Inked(fmt[i]) && fmt[i] != '%' && j <= |s|
    ensures Scan(fmt, i, s, j, o) == if At(s, j) == fmt[i] then Scan(fmt, i + 1, s, j + 1, o) else Some(o)
  {
  }

  /** White space in the format matches white space of any kind and length, none included. */
  lemma SpaceScanned(fmt: string, i: nat, sep: string, s: string, j: nat, b: string, o: Outcome)
    requires sep != "" && Blank(sep) && Stands(fmt, i, sep) && !IsSpace(At(fmt, i + |sep|))
    requires Blank(b) && Stands(s, j, b) && Inked(At(s, j + |b|))
    ensures i + |sep| <= |fmt| && j + |b| <= |s|
    ensures Scan(fmt, i, s, j, o) == Scan(fmt, i + |sep|, s, j + |b|, o)
  {
    hide Stands, Blank, Apply, InputWidth, InputQualifier, SkipWord;
    InsideOf(fmt, i, sep);
    InsideOf(s, j, b);
    StandsAt(fmt, i, sep, 0);
    BlankAt(sep);
    SkipBlank(fmt, i, sep);
    SkipBlank(s, j, b);
    SkipBlank(s, j + |b|, "") by {
      Nothing(s, j + |b|);
    }
    if b != "" {
      StandsAt(s, j, b, 0);
      BlankAt(b);
    }
  }

  /** A percent sign matches itself, and any other character ends the scan; so does a conversion that does not
      exist. */
  lemma PercentScanned(fmt: string, i: nat, s: string, j: nat, o: Outcome)
    requires i + 1 < |fmt| && fmt[i] == '%' && j < |s| && s[j] != '\0'
    ensures fmt[i + 1] == '%' ==>
      Scan(fmt, i, s, j, o) == if s[j] == '%' then Scan(fmt, i + 2, s, j + 1, o) else Some(o)
    ensures
      fmt[i + 1] !in {'%', '*', 'c', 's', 'n', 'd', 'i', 'u', 'o', 'x', 'X', 'h', 'l', 'L', 'z', 'Z'} && !IsDigit(fmt[i + 1])
      ==> Scan(fmt, i, s, j, o) == Some(o)
  {
  }

  // ---------- Widths of numbers ----------

  /** The conversion when its width bounds the input item: no more than that many characters are looked at. */
  function WithinWidth(s: string, j: nat, c: char, width: nat, q: char, o: Outcome): Step
    requires j <= |s| && At(s, j) != '\0' && width > 0
  {
    var m := if j + width < |s| then j + width else |s|;
    Apply(s[..m], j, c, -1, q, o)
  }

  lemma {:induction false} RunWithin(s: string, i: nat, m: nat, base: nat)
    requires i <= m <= |s|
    ensures RunEnd(s, i, base) <= m ==> RunEnd(s[..m], i, base) == RunEnd(s, i, base)
    decreases m - i
  {
    if i < m && IsDigitOf(s[i], base) {
      RunWithin(s, i + 1, m, base);
    }
  }

  lemma NumberWithin(s: string, i: nat, m: nat, base: nat)
    requires i <= m <= |s| && NumberEnd(s, i, base) <= m
    ensures NumberEnd(s[..m], i, base) == NumberEnd(s, i, base) && NumberValue(s[..m], i, base) == NumberValue(s, i, base)
  {
    var t := s[..m];
    var (b, k) := SkipPrefix(s, i, base);
    assert k <= m;
    assert forall p: nat | p < m :: At(t, p) == At(s, p);
    assert SkipPrefix(t, i, base) == (b, k) by {
      PrefixWithin(s, i, m, base);
    }
    RunWithin(s, k, m, b);
    assert t[k..RunEnd(s, k, b)] == s[k..RunEnd(s, k, b)];
  }

  lemma PrefixWithin(s: string, i: nat, m: nat, base: nat)
    requires i <= m <= |s| && NumberEnd(s, i, base) <= m
    ensures SkipPrefix(s[..m], i, base) == SkipPrefix(s, i, base)
  {
    assert forall p: nat | p < m :: At(s[..m], p) == At(s, p);
  }

  /** How far a number reaches: to its end, and at least over the character behind a minus sign. */
  function Reach(s: string, j: nat, base: nat, signed: bool, q: char): nat
    requires j <= |s|
  {
    var e := StoreNumber(s, j, base, signed, q).1;
    if signed && At(s, j) == '-' && e < j + 2 then j + 2 else e
  }

  lemma StoreWithin(s: string, j: nat, m: nat, base: nat, signed: bool, q: char)
    requires j < m <= |s| && StartsNumber(s, j, base, signed) && Reach(s, j, base, signed, q) <= m
    ensures StartsNumber(s[..m], j, base, signed)
    ensures StoreNumber(s[..m], j, base, signed, q) == StoreNumber(s, j, base, signed, q)
  {
    hide NumberValue, NumberEnd, Pow2;
    assert forall p: nat | p < m :: At(s[..m], p) == At(s, p);
    if signed && q != 'Z' && q != 'z' && At(s, j) == '-' {
      MinusTaken(s, j + 1, base);
      NumberWithin(s, j + 1, m, base);
    } else {
      NumberWithin(s, j, m, base);
    }
  }

  lemma MinusTaken(s: string, i: nat, base: nat)
    requires i <= |s|
    ensures i <= NumberEnd(s, i, base)
  {
  }

  lemma StartIsNoSpace(s: string, j: nat, base: nat, signed: bool)
    requires base in {0, 8, 10, 16} && StartsNumber(s, j, base, signed)
    ensures j < |s| && !IsSpace(At(s, j)) && At(s, j) != '\0' && SkipSpace(s, j) == j
  {
  }

  /** What the integer conversions do at the start of a number. */
  lemma ApplyNumber(s: string, j: nat, c: char, width: int, q: char, o: Outcome)
    requires IsInteger(c) && StartsNumber(s, j, InputBase(c), IsSigned(c))
    ensures j < |s|
    ensures var (store, e) := StoreNumber(s, j, InputBase(c), IsSigned(c), q);
      Apply(s, j, c, width, q, o) == Go(e, Outcome(o.count + 1, o.stores + [store]))
  {
    hide StoreNumber;
    StartIsNoSpace(s, j, InputBase(c), IsSigned(c));
  }

  /** The field width of a number is parsed and not used.  The conversion does what one that honours the width
      would do exactly when the number reaches no further than the width. */
  lemma WidthIgnoredIff(s: string, j: nat, c: char, width: nat, q: char, o: Outcome)
    requires IsInteger(c) && StartsNumber(s, j, InputBase(c), IsSigned(c)) && width > 0
    ensures j < |s|
    ensures Apply(s, j, c, width, q, o) == WithinWidth(s, j, c, width, q, o) <==>
      Reach(s, j, InputBase(c), IsSigned(c), q) <= j + width
  {
    hide StoreNumber, StartsNumber, Apply;
    StartIsNoSpace(s, j, InputBase(c), IsSigned(c));
    ApplyNumber(s, j, c, width, q, o);
    var m := if j + width < |s| then j + width else |s|;
    var e := StoreNumber(s, j, InputBase(c), IsSigned(c), q).1;
    ReachInside(s, j, InputBase(c), IsSigned(c), q);
    if Reach(s, j, InputBase(c), IsSigned(c), q) <= j + width {
      StoreWithin(s, j, m, InputBase(c), IsSigned(c), q);
      ApplyNumber(s[..m], j, c, -1, q, o);
    } else {
      CutApplied(s[..m], j, c, q, o);
      if e <= j + 1 {
        assert m == j + 1;
        LoneMinus(s[..m], j, c, q, o);
      }
    }
  }

  lemma ReachInside(s: string, j: nat, base: nat, signed: bool, q: char)
    requires base in {0, 8, 10, 16} && StartsNumber(s, j, base, signed)
    ensures j < |s| && Reach(s, j, base, signed, q) <= |s|
  {
  }

  /** Whatever a conversion does, it stays inside its input. */
  lemma CutApplied(t: string, j: nat, c: char, q: char, o: Outcome)
    requires j < |t| && At(t, j) != '\0'
    ensures var r := Apply(t, j, c, -1, q, o); r.Go? ==> r.next <= |t|
  {
  }

  lemma LoneMinus(t: string, j: nat, c: char, q: char, o: Outcome)
    requires |t| == j + 1 && At(t, j) == '-' && IsInteger(c) && IsSigned(c)
    ensures Apply(t, j, c, -1, q, o) == Stop(o)
  {
  }

  /** A size_t conversion does not get past a minus sign, although it accepts the number behind it: it stores 0
      and stays where it is. */
  lemma SizeTMinus(s: string, j: nat, c: char, width: int, q: char, o: Outcome)
    requires (c == 'd' || c == 'i') && (q == 'z' || q == 'Z')
    requires At(s, j) == '-' && IsDigit(At(s, j + 1))
    ensures j < |s| && Apply(s, j, c, width, q, o) == Go(j, Outcome(o.count + 1, o.stores + [Bits(32, 0)]))
  {
    hide Apply, NumberValue, NumberEnd, Pow2, StartsNumber;
    StartsAtMinus(s, j, c);
    ApplyNumber(s, j, c, width, q, o);
    NothingAtMinus(s, j, InputBase(c));
    LowOfLow(0, q);
  }

  lemma NothingAtMinus(s: string, j: nat, base: nat)
    requires j < |s| && s[j] == '-' && base in {0, 10}
    ensures NumberValue(s, j, base) == 0 && NumberEnd(s, j, base) == j
  {
    RunOver(s, j, 10);
    assert s[j..j] == "";
  }

  lemma StartsAtMinus(s: string, j: nat, c: char)
    requires (c == 'd' || c == 'i') && At(s, j) == '-' && IsDigit(At(s, j + 1))
    ensures IsInteger(c) && IsSigned(c) && StartsNumber(s, j, InputBase(c), IsSigned(c))
  {
  }

  // ---------- Suppression ----------

  /** `*` jumps over the rest of the word in the format and over a word of the input, and stores nothing. */
  lemma StarSkips(fmt: string, i: nat, s: string, j: nat, o: Outcome)
    requires i < |fmt| && fmt[i] == '%' && At(fmt, i + 1) == '*' && j <= |s| && At(s, j) != '\0'
    ensures Scan(fmt, i, s, j, o) == Scan(fmt, SkipWord(fmt, i + 1), s, SkipWord(s, j), o)
  {
  }

  /** A suppressed integer conversion, ending before place `d` of the format, goes on behind itself and behind the
      number it would have read exactly when white space or an end follows both the conversion and the number,
      and no white space stands before the number. */
  lemma StarPassesNumberIff(fmt: string, i: nat, d: nat, s: string, j: nat, o: Outcome)
    requires i + 2 < d <= |fmt| && fmt[i] == '%' && fmt[i + 1] == '*' && IsInteger(fmt[d - 1])
    requires InputQualifier(fmt, i + 2).1 == d - 1
    requires j <= |s| && At(s, j) != '\0'
    requires StartsNumber(s, SkipSpace(s, j), InputBase(fmt[d - 1]), IsSigned(fmt[d - 1]))
    ensures var c := fmt[d - 1];
      var e := StoreNumber(s, SkipSpace(s, j), InputBase(c), IsSigned(c), '\0').1;
      var f, k := SkipWord(fmt, i + 1), SkipWord(s, j);
      && Scan(fmt, i, s, j, o) == Scan(fmt, f, s, k, o)
      && ((f, k) == (d, e) <==> Ends(At(fmt, d)) && Ends(At(s, e)) && !IsSpace(At(s, j)))
  {
    hide StoreNumber, StartsNumber, Scan;
    var c, n := fmt[d - 1], SkipSpace(s, j);
    var e := StoreNumber(s, n, InputBase(c), IsSigned(c), '\0').1;
    StarSkips(fmt, i, s, j, o);
    DirectiveInked(fmt, i, d);
    NumberIsInked(s, n, InputBase(c), IsSigned(c), '\0');
    NumberTakes(s, n, InputBase(c), IsSigned(c));
    WordsPassedIff(fmt, i + 1, d, s, j, e);
  }

  lemma DirectiveInked(fmt: string, i: nat, d: nat)
    requires i + 2 < d <= |fmt| && fmt[i + 1] == '*' && IsInteger(fmt[d - 1]) && InputQualifier(fmt, i + 2).1 == d - 1
    ensures forall k | i + 1 <= k < d :: Inked(fmt[k])
  {
  }

  lemma NumberTakes(s: string, j: nat, base: nat, signed: bool)
    requires base in {0, 8, 10, 16} && StartsNumber(s, j, base, signed)
    ensures j < |s| && StoreNumber(s, j, base, signed, '\0').1 > j
  {
    hide Value, Pow2;
    if signed && At(s, j) == '-' {
      MinusTaken(s, j + 1, base);
    }
  }

  lemma WordsPassedIff(fmt: string, i: nat, d: nat, s: string, j: nat, e: nat)
    requires i <= d <= |fmt| && forall k | i <= k < d :: Inked(fmt[k])
    requires j <= |s| && SkipSpace(s, j) < e <= |s| && forall k | SkipSpace(s, j) <= k < e :: Inked(s[k])
    ensures (SkipWord(fmt, i), SkipWord(s, j)) == (d, e) <==>
      Ends(At(fmt, d)) && Ends(At(s, e)) && !IsSpace(At(s, j))
  {
    SkipWordIff(fmt, i, d);
    SkipWordIff(s, j, e);
    if IsSpace(At(s, j)) {
      SkipWordIff(s, j, j);
    }
  }

  lemma NumberIsInked(s: string, j: nat, base: nat, signed: bool, q: char)
    requires base in {0, 8, 10, 16} && StartsNumber(s, j, base, signed)
    ensures j < |s|
    ensures var e := StoreNumber(s, j, base, signed, q).1; forall k | j <= k < e :: Inked(s[k])
  {
    hide Value, Pow2;
    assert !IsSpace(At(s, j));
    if signed && q != 'Z' && q != 'z' && At(s, j) == '-' {
      EndInked(s, j + 1, base);
    } else {
      EndInked(s, j, base);
    }
  }

  lemma EndInked(s: string, i: nat, base: nat)
    requires i <= |s|
    ensures forall k | i <= k < NumberEnd(s, i, base) :: Inked(s[k])
  {
    var (b, n) := SkipPrefix(s, i, base);
    var e := RunEnd(s, n, b);
    forall k | n <= k < e
      ensures Inked(s[k])
    {
      assert IsDigitOf(s[n..e][k - n], b);
    }
    assert forall k | i <= k < n :: s[k] == '0' || ToUpper(s[k]) == 'X';
  }

  // ---------- The count of characters ----------

  /** `%n` stores how many characters have been read, without counting as a conversion, exactly when the input
      has not ended; at its end nothing more of the format is looked at. */
  lemma CountStoredIff(fmt: string, i: nat, s: string, j: nat, o: Outcome)
    requires i < |fmt| && fmt[i] == '%' && At(fmt, i + 1) == 'n' && j <= |s|
    ensures i + 2 <= |fmt|
    ensures At(s, j) == '\0' ==> Scan(fmt, i, s, j, o) == Some(o)
    ensures At(s, j) != '\0' ==>
      Scan(fmt, i, s, j, o) == Scan(fmt, i + 2, s, j, Outcome(o.count, o.stores + [Bits(32, j)]))
  {
  }

  // ---------- Conversions that depart from the standard ----------

  /** A format of one word that begins with a suppressed conversion reads nothing at all. */
  lemma StarTakesTheRest()
    ensures Scan("%*d%d", 0, "1 2", 0, Outcome(0, [])) == Some(Outcome(0, []))
  {
    var fmt, s := "%*d%d", "1 2";
    StarSkips(fmt, 0, s, 0, Outcome(0, []));
    SkipWordIff(fmt, 1, 5);
    SkipWordIff(s, 0, 1);
  }

  /** %2d of 1234 reads 1234, not 12. */
  lemma WidthIsIgnored(o: Outcome)
    ensures Apply("1234", 0, 'd', 2, '\0', o) == Go(4, Outcome(o.count + 1, o.stores + [Bits(32, 1234)]))
    ensures WithinWidth("1234", 0, 'd', 2, '\0', o) == Go(2, Outcome(o.count + 1, o.stores + [Bits(32, 12)]))
  {
    hide StoreNumber, Apply, Numeral, Pow2;
    var s := "1234";
    Widths();
    SmallNumerals();
    NarrowStore(s, 0, 10, true, '\0', 1234);
    ApplyNumber(s, 0, 'd', 2, '\0', o);
    assert s[..2] == "12";
    NarrowStore("12", 0, 10, true, '\0', 12);
    ApplyNumber("12", 0, 'd', -1, '\0', o);
  }

  lemma SmallNumerals()
    ensures Numeral(1234, 10, false) == "1234" && Numeral(12, 10, false) == "12"
  {
    assert Numeral(12, 10, false) == "12";
    assert Numeral(123, 10, false) == "123";
  }
}
