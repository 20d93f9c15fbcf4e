/** Character classes of lib/ctype.c, and C strings as sequences with an end mark. */
module Ctype {

  /** The characters of `s` as a C program reads them: NUL at the end. */
  function At(s: string, i: nat): char {
    if i < |s| then s[i] else '\0'
  }

  predicate IsSpace(c: char) {
    '\t' <= c <= '\r' || c == ' ' || c as int == 160
  }

  predicate IsDigit(c: char) {
    '0' <= c <= '9'
  }

  predicate IsXDigit(c: char) {
    IsDigit(c) || 'A' <= c <= 'F' || 'a' <= c <= 'f'
  }

  predicate IsLower(c: char) {
    'a' <= c <= 'z' || (223 <= c as int <= 255 && c as int != 247)
  }

  function ToUpper(c: char): char {
    if IsLower(c) then (c as int - 32) as char else c
  }
}
