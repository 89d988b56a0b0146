/**
  The conversion `(OwInt16)strtol(field, NULL, 16)` that turns an equipment
  identifier field into a number.

  `strtol` skips leading white space, accepts one optional sign and, in base
  16, an optional `0x`/`0X` prefix, then reads the longest run of hexadecimal
  digits; characters after the run are ignored and no digits at all give 0.
  A magnitude outside `long` saturates at LONG_MAX or LONG_MIN. `long` is 32
  bits wide on the platform the code is written for (it calls `fopen_s`).
  The cast to the 16-bit `OwInt16` then keeps the low 16 bits as a two's
  complement value.
 */
module HexParse {
  import opened CText

  const LONG_MAX: int := 0x7FFF_FFFF
  const LONG_MIN: int := -0x8000_0000

  type Int16 = x: int | -0x8000 <= x < 0x8000

  function Pow16(n: nat): (p: nat)
    ensures p >= 1
  {
    if n == 0 then 1 else 16 * Pow16(n - 1)
  }

  ghost predicate AllHexDigits(s: string)
  {
    forall i :: 0 <= i < |s| ==> IsHexDigit(s[i])
  }

  /** The length of the run of hexadecimal digits that starts `s`. */
  function HexRunLength(s: string): (n: nat)
    ensures n <= |s|
    ensures AllHexDigits(s[..n])
    ensures n < |s| ==> !IsHexDigit(s[n])
  {
    if |s| == 0 || !IsHexDigit(s[0]) then 0 else 1 + HexRunLength(s[1..])
  }

  /** The value of a string of hexadecimal digits, most significant first. */
  function HexValue(digits: string): (v: nat)
    requires AllHexDigits(digits)
    ensures v < Pow16(|digits|)
  {
    if |digits| == 0 then 0
    else
      var init := digits[..|digits| - 1];
      assert AllHexDigits(init);
      16 * HexValue(init) + DigitValue(digits[|digits| - 1])
  }

  /** `n` written as exactly `width` upper-case hexadecimal digits (its low `width` digits). */
  function HexEncode(n: nat, width: nat): (r: string)
    ensures |r| == width
    ensures AllHexDigits(r)
    ensures forall i :: 0 <= i < |r| ==> !IsSpace(r[i]) && r[i] != 'x' && r[i] != 'X' && r[i] != NUL
  {
    if width == 0 then "" else HexEncode(n / 16, width - 1) + [HexChar(n % 16)]
  }

  /** Reading back `width` digits recovers every number that fits in them. */
  lemma {:induction false} HexRoundTrip(n: nat, width: nat)
    requires n < Pow16(width)
    ensures HexValue(HexEncode(n, width)) == n
  {
    if width > 0 {
      var s := HexEncode(n, width);
      assert s[..|s| - 1] == HexEncode(n / 16, width - 1);
      HexRoundTrip(n / 16, width - 1);
    }
  }

  /** `s` with its leading white space removed. */
  function SkipSpace(s: string): (t: string)
    ensures |t| <= |s| && t == s[|s| - |t|..]
    ensures forall i :: 0 <= i < |s| - |t| ==> IsSpace(s[i])
    ensures |t| > 0 ==> !IsSpace(t[0])
  {
    if |s| > 0 && IsSpace(s[0]) then SkipSpace(s[1..]) else s
  }

  /** What `strtol` reads after the white space: the sign, and the text after the
      sign and after any `0x`/`0X` prefix. */
  datatype Subject = Subject(negative: bool, digits: string)

  /** The text after an optional `0x`/`0X` prefix. When no digit follows the
      prefix the leading `0` is the whole number, which has the same value as
      the empty digit run. */
  function DropHexPrefix(s: string): string
  {
    if |s| >= 2 && s[0] == '0' && (s[1] == 'x' || s[1] == 'X') then s[2..] else s
  }

  function SubjectOf(s: string): Subject
  {
    SignedSubject(SkipSpace(s))
  }

  /** The subject of text that does not start with white space: an optional sign, then the digits. */
  function SignedSubject(t: string): Subject
  {
    if |t| > 0 && t[0] == '-' then Subject(true, DropHexPrefix(t[1..]))
    else if |t| > 0 && t[0] == '+' then Subject(false, DropHexPrefix(t[1..]))
    else Subject(false, DropHexPrefix(t))
  }

  /** The value of the leading run of hexadecimal digits. */
  function Magnitude(digits: string): nat
  {
    HexValue(digits[..HexRunLength(digits)])
  }

  /** `strtol(s, NULL, 16)` with a 32-bit `long`. */
  function StrToLong(s: string): (r: int)
    ensures LONG_MIN <= r <= LONG_MAX
  {
    SubjectValue(SubjectOf(s))
  }

  /** The signed value of a subject, saturated to the range of `long`. */
  function SubjectValue(subject: Subject): int
  {
    var magnitude: int := Magnitude(subject.digits);
    if subject.negative then (if magnitude > -LONG_MIN then LONG_MIN else -magnitude)
    else (if magnitude > LONG_MAX then LONG_MAX else magnitude)
  }

  /** The conversion of an integer to `OwInt16`: the two's complement value of its low 16 bits. */
  function ToInt16(v: int): (r: Int16)
    ensures (r - v) % 0x1_0000 == 0
    ensures -0x8000 <= v < 0x8000 ==> r == v
  {
    (v + 0x8000) % 0x1_0000 - 0x8000
  }

  /** `(OwInt16)strtol(field, NULL, 16)`. A field of at most three hexadecimal
      digits, the width of a 12-bit identifier, converts to its plain value. */
  function HexFieldToInt16(field: string): (r: Int16)
    ensures AllHexDigits(field) && |field| <= 3 ==> r == HexValue(field)
  {
    ShortDigitsConvert(field);
    ToInt16(StrToLong(field))
  }

  /** Up to three hexadecimal digits neither saturate nor wrap. */
  lemma ShortDigitsConvert(field: string)
    ensures AllHexDigits(field) && |field| <= 3 ==> ToInt16(StrToLong(field)) == HexValue(field)
  {
    if AllHexDigits(field) && |field| <= 3 {
      assert Pow16(|field|) <= 0x1000 by {
        assert Pow16(3) == 0x1000;
      }
      DigitsConvert(field);
    }
  }

  /** A field that starts with a hexadecimal digit and has no `0x`/`0X` prefix converts to the value
      of its leading digit run, saturated at LONG_MAX. */
  lemma PlainFieldConverts(s: string)
    requires |s| > 0 && IsHexDigit(s[0])
    requires !(|s| >= 2 && s[0] == '0' && (s[1] == 'x' || s[1] == 'X'))
    ensures StrToLong(s) == if Magnitude(s) > LONG_MAX then LONG_MAX else Magnitude(s)
  {
    assert SkipSpace(s) == s;
    assert SignedSubject(s) == Subject(false, s) by {
      assert DropHexPrefix(s) == s;
    }
  }

  /** A field made only of hexadecimal digits converts to its value, saturated at LONG_MAX. */
  lemma DigitsConvert(d: string)
    requires AllHexDigits(d)
    ensures StrToLong(d) == if HexValue(d) > LONG_MAX then LONG_MAX else HexValue(d)
  {
    DigitsMagnitude(d);
    if |d| > 0 {
      assert IsHexDigit(d[0]);
      assert !IsSpace(d[0]) && d[0] != '-' && d[0] != '+';
    }
    assert SkipSpace(d) == d;
    UnsignedSubject(d);
  }

  /** Text that starts with no sign gives a positive subject. */
  lemma UnsignedSubject(t: string)
    requires |t| == 0 || (t[0] != '-' && t[0] != '+')
    ensures SignedSubject(t) == Subject(false, DropHexPrefix(t))
  {
  }

  /** A digit string carries no `0x` prefix, and its whole length is the digit run. */
  lemma DigitsMagnitude(d: string)
    requires AllHexDigits(d)
    ensures DropHexPrefix(d) == d
    ensures Magnitude(d) == HexValue(d)
  {
    if |d| >= 2 {
      assert IsHexDigit(d[1]);
    }
    assert HexRunLength(d) == |d|;
    assert d[..|d|] == d;
  }

  /** Conversion stops at the first character that is not a hexadecimal digit
      (an `x` right after a lone `0` would instead make `0x` a prefix). */
  lemma TrailingTextIgnored(d: string, rest: string)
    requires AllHexDigits(d)
    requires |d| > 0
    requires |rest| == 0 || (!IsHexDigit(rest[0]) && rest[0] != 'x' && rest[0] != 'X')
    ensures StrToLong(d + rest) == StrToLong(d)
  {
    var s := d + rest;
    assert forall i :: 0 <= i < |d| ==> s[i] == d[i];
    assert |rest| > 0 ==> s[|d|] == rest[0];
    assert HexRunLength(s) == |d|;
    assert s[..|d|] == d;
    assert Magnitude(s) == HexValue(d);
    PlainFieldConverts(s);
    DigitsConvert(d);
  }

  /** A 12-bit equipment identifier written as three hexadecimal digits converts back to itself. */
  lemma TwelveBitIdRoundTrip(n: nat)
    requires n < 0x1000
    ensures HexFieldToInt16(HexEncode(n, 3)) == n
  {
    assert Pow16(3) == 0x1000;
    HexRoundTrip(n, 3);
    DigitsConvert(HexEncode(n, 3));
  }

  /** Worked value: the identifier `1A2` converts to 0x1A2. */
  lemma PlainIdExample()
    ensures HexFieldToInt16("1A2") == 0x1A2
  {
    assert HexEncode(0x1A, 2) == "1A";
    assert HexEncode(0x1A2, 3) == "1A2";
    TwelveBitIdRoundTrip(0x1A2);
  }

  /** Worked value: `8000` fits a 32-bit `long` but wraps to the most negative 16-bit value. */
  lemma WrapExample()
    ensures HexFieldToInt16("8000") == -0x8000
  {
    assert Pow16(4) == 0x1_0000;
    assert HexEncode(0x80, 2) == "80";
    assert HexEncode(0x8000, 4) == "8000";
    HexRoundTrip(0x8000, 4);
    DigitsConvert("8000");
  }

  /** Worked value: `FFFF` wraps to -1, the same identifier an empty field gets. */
  lemma AllOnesExample()
    ensures HexFieldToInt16("FFFF") == -1
  {
    assert Pow16(4) == 0x1_0000;
    assert HexEncode(0xFF, 2) == "FF";
    assert HexEncode(0xFFFF, 4) == "FFFF";
    HexRoundTrip(0xFFFF, 4);
    DigitsConvert("FFFF");
  }

  /** Worked value: a magnitude beyond a 32-bit `long` saturates at LONG_MAX, whose low 16 bits read as -1. */
  lemma SaturateExample()
    ensures HexFieldToInt16("FFFFFFFFF") == -1
  {
    NineDigitsValue();
    SaturatedField("FFFFFFFFF");
  }

  /** Every digit string whose value exceeds LONG_MAX gives the low 16 bits of LONG_MAX, -1. */
  lemma SaturatedField(d: string)
    requires AllHexDigits(d) && HexValue(d) > LONG_MAX
    ensures HexFieldToInt16(d) == -1
  {
    DigitsConvert(d);
    assert StrToLong(d) == LONG_MAX;
    LongMaxLow16();
  }

  /** The low 16 bits of LONG_MAX read as -1. */
  lemma LongMaxLow16()
    ensures ToInt16(LONG_MAX) == -1
  {
    assert (LONG_MAX + 0x8000) % 0x1_0000 == 0x7FFF;
  }

  /** The nine-digit field of the saturation example and its value. */
  lemma NineDigitsValue()
    ensures AllHexDigits("FFFFFFFFF") && HexValue("FFFFFFFFF") == 0xF_FFFF_FFFF
  {
    assert HexEncode(0xF, 1) == "F";
    assert HexEncode(0xFF, 2) == "FF";
    assert HexEncode(0xFFF, 3) == "FFF";
    assert HexEncode(0xFFFF, 4) == "FFFF";
    assert HexEncode(0xF_FFFF, 5) == "FFFFF";
    assert HexEncode(0xFF_FFFF, 6) == "FFFFFF";
    assert HexEncode(0xFFF_FFFF, 7) == "FFFFFFF";
    assert HexEncode(0xFFFF_FFFF, 8) == "FFFFFFFF";
    assert HexEncode(0xF_FFFF_FFFF, 9) == "FFFFFFFFF";
    assert Pow16(9) == 0x10_0000_0000;
    HexRoundTrip(0xF_FFFF_FFFF, 9);
  }

  /** Leading white space never changes the value, whatever follows it. */
  lemma LeadingSpaceSkipped(space: string, t: string)
    requires forall i :: 0 <= i < |space| ==> IsSpace(space[i])
    ensures StrToLong(space + t) == StrToLong(t)
  {
    SkipSpaceDropsSpaces(space, t);
    SubjectAfterSpace(space + t, t);
  }

  /** Texts that agree once their leading white space is skipped convert alike. */
  lemma SubjectAfterSpace(s: string, t: string)
    requires SkipSpace(s) == SkipSpace(t)
    ensures StrToLong(s) == StrToLong(t)
  {
    assert SubjectOf(s) == SubjectOf(t);
  }

  /** Skipping white space in front of more text gives what skipping the text alone gives. */
  lemma {:induction false} SkipSpaceDropsSpaces(space: string, t: string)
    requires forall i :: 0 <= i < |space| ==> IsSpace(space[i])
    ensures SkipSpace(space + t) == SkipSpace(t)
  {
    if |space| > 0 {
      assert (space + t)[1..] == space[1..] + t;
      SkipSpaceDropsSpaces(space[1..], t);
    } else {
      assert space + t == t;
    }
  }

  /** White space and a `0x`/`0X` prefix in front of a digit string leave its value unchanged. */
  lemma SpaceAndPrefixSkipped(space: string, x: char, d: string)
    requires forall i :: 0 <= i < |space| ==> IsSpace(space[i])
    requires x == 'x' || x == 'X'
    requires AllHexDigits(d)
    ensures StrToLong(space + ['0', x] + d) == StrToLong(d)
  {
    PrefixedSubject(space, x, d);
    DigitsConvert(d);
    DigitsMagnitude(d);
  }

  /** What `strtol` reads from white space, `0x` and digits: a positive subject made of the digits. */
  lemma PrefixedSubject(space: string, x: char, d: string)
    requires forall i :: 0 <= i < |space| ==> IsSpace(space[i])
    requires x == 'x' || x == 'X'
    ensures SubjectOf(space + ['0', x] + d) == Subject(false, d)
  {
    var t := ['0', x] + d;
    assert space + ['0', x] + d == space + t;
    SkipSpaceOfSpaces(space, t);
    assert t[2..] == d;
  }

  /** White space in front of text that does not start with white space is dropped. */
  lemma {:induction false} SkipSpaceOfSpaces(space: string, t: string)
    requires forall i :: 0 <= i < |space| ==> IsSpace(space[i])
    requires |t| > 0 && !IsSpace(t[0])
    ensures SkipSpace(space + t) == t
  {
    if |space| > 0 {
      assert (space + t)[1..] == space[1..] + t;
      SkipSpaceOfSpaces(space[1..], t);
    } else {
      assert space + t == t;
    }
  }

  /** A minus sign negates the value of the digits after it; a magnitude beyond
      -LONG_MIN saturates at LONG_MIN. */
  lemma NegatedDigits(d: string)
    requires AllHexDigits(d)
    ensures StrToLong(['-'] + d) == if HexValue(d) > -LONG_MIN then LONG_MIN else -(HexValue(d) as int)
  {
    var s := ['-'] + d;
    assert SkipSpace(s) == s;
    assert s[1..] == d;
    DigitsMagnitude(d);
    assert SignedSubject(s) == Subject(true, d);
  }

  /** Worked value: a minus sign negates. */
  lemma SignExample()
    ensures HexFieldToInt16("-1") == -1
  {
    assert SkipSpace("-1") == "-1";
    assert SubjectOf("-1") == Subject(true, "1");
    assert HexRunLength("1") == 1;
    assert Magnitude("1") == 1;
  }

  /** A field whose first character is neither white space, a sign nor a
      hexadecimal digit holds no number, and converts to 0. */
  lemma NoDigitsGiveZero(s: string)
    requires |s| == 0 || (!IsHexDigit(s[0]) && !IsSpace(s[0]) && s[0] != '+' && s[0] != '-')
    ensures StrToLong(s) == 0
  {
    assert SkipSpace(s) == s;
    assert SignedSubject(s) == Subject(false, s) by {
      assert DropHexPrefix(s) == s;
    }
    assert Magnitude(s) == 0 by {
      assert HexRunLength(s) == 0;
      assert s[..0] == "";
    }
  }

  /** Worked value: a field that does not start with a digit gives 0. */
  lemma NoDigitExample()
    ensures HexFieldToInt16("G1") == 0
  {
    assert SkipSpace("G1") == "G1";
    assert SubjectOf("G1") == Subject(false, "G1");
    assert HexRunLength("G1") == 0;
  }
}
