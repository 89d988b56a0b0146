/**
  How the C code sees its character buffers.

  A line is the sequence of characters `fgets` stored in the buffer; the buffer
  always carries a NUL terminator right after them. Fields copied out of a line
  are C strings too: every C library call and every `field[0] != '\0'` test
  sees only the characters before the first NUL.
 */
module CText {

  const NUL: char := '\0'

  /** The character a C reader finds at index `k` of the NUL-terminated buffer holding `s`.
      Past the terminator the model keeps reading NUL. */
  function CharAt(s: string, k: nat): (c: char)
    ensures k <= |s| ==> c == (s + [NUL])[k]
    ensures c != NUL ==> k < |s| && c in s
  {
    if k < |s| then s[k] else NUL
  }

  /** The C-string view of a buffer: the characters before its first NUL. */
  function CStr(s: string): (r: string)
    ensures r <= s
    ensures NUL !in r
    ensures |r| < |s| ==> s[|r|] == NUL
  {
    if |s| == 0 || s[0] == NUL then "" else [s[0]] + CStr(s[1..])
  }

  /** A buffer with no NUL in it is its own C-string view. */
  lemma CStrOfNulFree(s: string)
    ensures NUL !in s ==> CStr(s) == s
  {
  }

  /** `isspace` in the "C" locale: space, tab, newline, vertical tab, form feed, carriage return. */
  predicate IsSpace(c: char)
  {
    c == ' ' || ('\t' <= c <= '\r')
  }

  predicate IsHexDigit(c: char)
  {
    ('0' <= c <= '9') || ('a' <= c <= 'f') || ('A' <= c <= 'F')
  }

  function DigitValue(c: char): (d: nat)
    requires IsHexDigit(c)
    ensures d < 16
  {
    if '0' <= c <= '9' then c as int - '0' as int
    else if 'a' <= c <= 'f' then c as int - 'a' as int + 10
    else c as int - 'A' as int + 10
  }

  /** The upper-case hexadecimal digit for `d`. */
  function HexChar(d: nat): (c: char)
    requires d < 16
    ensures IsHexDigit(c) && DigitValue(c) == d
    ensures !IsSpace(c) && c != 'x' && c != 'X' && c != NUL
  {
    if d < 10 then ('0' as int + d) as char else ('A' as int + d - 10) as char
  }
}
