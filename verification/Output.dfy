/** The output cursor of the formatter (lib/vsprintf.c): a buffer of `size` characters into which a text
    of any length is written, position by position; what does not fit is counted but not stored. */
module Output {

  const INT_MAX: int := 0x7fff_ffff

  type i32 = x: int | -0x8000_0000 <= x < 0x8000_0000

  /** `cur` is the buffer after `text` was written over `before`: the first `size - 1` characters hold the
      text, nothing beyond the text and nothing from `size` on has changed. */
  predicate Shows(cur: string, before: string, size: nat, text: string) {
    && |cur| == |before|
    && (forall i | 0 <= i < |text| && i + 1 < size && i < |cur| :: cur[i] == text[i])
    && (forall i | 0 <= i < |cur| && (|text| <= i || size <= i) :: cur[i] == before[i])
  }

  /** The buffer is at least as long as what may be written: the text with its end mark, cut at `size`. */
  predicate Room(length: nat, size: nat, text: string) {
    size <= length || |text| < length
  }

  lemma ShowsNothing(before: string, size: nat)
    ensures Shows(before, before, size, "")
  {
  }

  lemma ShowsMore(cur: string, before: string, size: nat, text: string, ch: char)
    requires Shows(cur, before, size, text) && Room(|cur|, size, text)
    ensures |text| < size ==> |text| < |cur| && Shows(cur[|text| := ch], before, size, text + [ch])
    ensures |text| + 1 >= size ==> Shows(cur, before, size, text + [ch])
  {
  }

  /** ADDCH: stores only below `end`. */
  method AddCh(buf: array<char>, str: nat, size: nat, ch: char, ghost before: string, ghost text: string)
    returns (str': nat)
    requires Shows(buf[..], before, size, text) && str == |text| && Room(buf.Length, size, text)
    modifies buf
    ensures str' == |text + [ch]| && Shows(buf[..], before, size, text + [ch])
    ensures |text| + 1 < size ==> |text| < buf.Length && buf[..] == old(buf[..])[|text| := ch]
    ensures |text| + 1 >= size ==> buf[..] == old(buf[..])
  {
    ShowsMore(buf[..], before, size, text, ch);
    if str + 1 < size {
      buf[str] := ch;
    }
    str' := str + 1;
  }

  /** The direct stores of vsnprintf: also at `end`, where the end mark will go. */
  method PutCh(buf: array<char>, str: nat, size: nat, ch: char, ghost before: string, ghost text: string)
    returns (str': nat)
    requires Shows(buf[..], before, size, text) && str == |text| && Room(buf.Length, size, text)
    modifies buf
    ensures str' == |text + [ch]| && Shows(buf[..], before, size, text + [ch])
    ensures |text| < size ==> |text| < buf.Length && buf[..] == old(buf[..])[|text| := ch]
    ensures |text| >= size ==> buf[..] == old(buf[..])
  {
    ShowsMore(buf[..], before, size, text, ch);
    if str < size {
      buf[str] := ch;
    }
    str' := str + 1;
  }

  /** `n` times the character `c`; nothing when `n` is not positive. */
  function Fill(c: char, n: int): (s: string)
    ensures |s| == (if n < 0 then 0 else n)
    ensures forall k | 0 <= k < |s| :: s[k] == c
  {
    if n <= 0 then "" else [c] + Fill(c, n - 1)
  }

  lemma FillOneMore(c: char, n: nat, m: nat)
    ensures Fill(c, n) + Fill(c, m) == Fill(c, n + m)
  {
  }

  /** Writes `c` until the count, lowered before each test, is negative. */
  method AddRun(buf: array<char>, str0: nat, size: nat, c: char, n0: i32, ghost before: string, ghost text: string)
    returns (str: nat, n: i32)
    requires Shows(buf[..], before, size, text) && str0 == |text| && n0 > -0x8000_0000
    requires Room(buf.Length, size, text + Fill(c, n0))
    modifies buf
    ensures str == |text + Fill(c, n0)| && Shows(buf[..], before, size, text + Fill(c, n0))
    ensures n == if n0 > 0 then -1 else n0 - 1
  {
    str, n := str0, n0 - 1;
    ghost var done: nat := 0;
    assert text + Fill(c, 0) == text;
    while n >= 0
      invariant done == if n0 > 0 then n0 - 1 - n else 0
      invariant if n0 > 0 then -1 <= n < n0 else n == n0 - 1
      invariant str == |text| + done && Shows(buf[..], before, size, text + Fill(c, done))
      decreases n
    {
      FillOneMore(c, done, n + 1);
      FillOneMore(c, done, 1);
      assert text + Fill(c, done) + [c] == text + Fill(c, done + 1);
      str := AddCh(buf, str, size, c, before, text + Fill(c, done));
      done := done + 1;
      n := n - 1;
    }
  }
}
