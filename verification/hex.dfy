/**
  Character classes and the hexadecimal conversions the address type relies on:
  the `[^a-zA-Z0-9]` class of the cleaning regex, Ruby's `String#hex`, and the
  `"%02x"` and `"%x"` format directives.
 */
module Hex {

  /** An octet. Every value the address type stores is one of these. */
  type Byte = b: int | 0 <= b < 256

  /** The characters the cleaning regex keeps: ASCII letters and digits. */
  predicate IsAlnum(c: char) {
    '0' <= c <= '9' || 'a' <= c <= 'z' || 'A' <= c <= 'Z'
  }

  /** A hexadecimal digit in either case. */
  predicate IsHexDigit(c: char) {
    '0' <= c <= '9' || 'a' <= c <= 'f' || 'A' <= c <= 'F'
  }

  /** A hexadecimal digit as the `x` directive writes it. */
  predicate IsLowerHexDigit(c: char) {
    '0' <= c <= '9' || 'a' <= c <= 'f'
  }

  predicate AllLowerHexDigits(s: string) {
    forall i :: 0 <= i < |s| ==> IsLowerHexDigit(s[i])
  }

  function DigitValue(c: char): (v: nat)
    requires IsHexDigit(c)
    ensures v < 16
  {
    if '0' <= c <= '9' then c as int - '0' as int
    else if 'a' <= c <= 'f' then c as int - 'a' as int + 10
    else c as int - 'A' as int + 10
  }

  /** The lower-case digit for `d`; `DigitValue` reads it back. */
  function DigitChar(d: nat): (c: char)
    requires d < 16
    ensures IsLowerHexDigit(c) && IsHexDigit(c)
    ensures DigitValue(c) == d
  {
    if d < 10 then ('0' as int + d) as char else ('a' as int + d - 10) as char
  }

  /** Writing a lower-case digit's value gives the digit back. */
  lemma DigitCharOfValue(c: char)
    requires IsLowerHexDigit(c)
    ensures DigitChar(DigitValue(c)) == c
  {
  }

  /** ASCII down-casing, as the letters `A`-`Z` and nothing else. */
  function ToLower(c: char): char {
    if 'A' <= c <= 'Z' then (c as int - 'A' as int + 'a' as int) as char else c
  }

  /** Down-casing keeps a character's class and its digit value. */
  lemma ToLowerPreservesClass(c: char)
    ensures IsAlnum(ToLower(c)) <==> IsAlnum(c)
    ensures IsHexDigit(ToLower(c)) <==> IsHexDigit(c)
    ensures IsHexDigit(c) ==> DigitValue(ToLower(c)) == DigitValue(c)
  {
  }

  // ---------------------------------------------------------------------------
  // `String#hex`: the value of the leading run of hexadecimal digits, 0 if none.
  // ---------------------------------------------------------------------------

  /** Number of hexadecimal digits at the front of `s`. */
  function HexPrefixLength(s: string): (n: nat)
    ensures n <= |s|
    ensures forall i :: 0 <= i < n ==> IsHexDigit(s[i])
    ensures n < |s| ==> !IsHexDigit(s[n])
  {
    if |s| == 0 || !IsHexDigit(s[0]) then 0 else 1 + HexPrefixLength(s[1..])
  }

  function Pow16(k: nat): (p: nat)
    ensures p >= 1
  {
    if k == 0 then 1 else 16 * Pow16(k - 1)
  }

  /** Positional base-16 value of a string of digits, most significant first. */
  function DigitsValue(s: string): (v: nat)
    requires forall i :: 0 <= i < |s| ==> IsHexDigit(s[i])
    ensures v < Pow16(|s|)
  {
    if |s| == 0 then 0
    else DigitsValue(s[..|s| - 1]) * 16 + DigitValue(s[|s| - 1])
  }

  /** Ruby's `String#hex` on text without sign, blanks, underscores or `0x` prefix. */
  function LeadingHexValue(s: string): (v: nat)
    ensures v < Pow16(HexPrefixLength(s))
    ensures HexPrefixLength(s) == 0 ==> v == 0
  {
    DigitsValue(s[..HexPrefixLength(s)])
  }

  /** `String#hex` on two characters: both digits, only the first, or none. */
  lemma LeadingHexValueOfPair(c0: char, c1: char)
    ensures IsHexDigit(c0) && IsHexDigit(c1) ==> LeadingHexValue([c0, c1]) == 16 * DigitValue(c0) + DigitValue(c1)
    ensures IsHexDigit(c0) && !IsHexDigit(c1) ==> LeadingHexValue([c0, c1]) == DigitValue(c0)
    ensures !IsHexDigit(c0) ==> LeadingHexValue([c0, c1]) == 0
  {
    var s := [c0, c1];
    assert s[1..] == [c1];
    assert s[..2] == s && s[..1] == [c0] && [c0][..0] == [];
    if IsHexDigit(c0) && IsHexDigit(c1) {
      assert DigitsValue([c0]) == DigitValue(c0);
      assert HexPrefixLength(s) == 2;
      assert DigitsValue(s) == DigitsValue(s[..1]) * 16 + DigitValue(c1);
    } else if IsHexDigit(c0) {
      assert DigitsValue([c0]) == DigitValue(c0);
      assert HexPrefixLength(s) == 1;
    }
  }

  // ---------------------------------------------------------------------------
  // Formatting directives.
  // ---------------------------------------------------------------------------

  /** `"%02x" % b`: exactly two lower-case digits, high nibble first. */
  function Hex2(b: Byte): (r: string)
    ensures |r| == 2 && IsLowerHexDigit(r[0]) && IsLowerHexDigit(r[1])
    ensures 16 * DigitValue(r[0]) + DigitValue(r[1]) == b
  {
    [DigitChar(b / 16), DigitChar(b % 16)]
  }

  /** `"%x" % n`: lower-case digits with no zero padding. */
  function HexString(n: nat): (r: string)
    ensures |r| >= 1 && AllLowerHexDigits(r)
    ensures r[0] == '0' ==> n == 0
    ensures |r| == 1 <==> n < 16
  {
    if n < 16 then [DigitChar(n)] else HexString(n / 16) + [DigitChar(n % 16)]
  }

  /** A byte takes at most two digits under `"%x"`. */
  lemma HexStringOfByte(b: Byte)
    ensures |HexString(b)| <= 2
  {
    if b >= 16 {
      assert b / 16 < 16;
    }
  }

  /** `String#hex` reads back what `"%x"` writes. */
  lemma {:induction false} HexStringReadsBack(n: nat)
    ensures LeadingHexValue(HexString(n)) == n
  {
    var r := HexString(n);
    assert HexPrefixLength(r) == |r| by { AllDigitsPrefix(r); }
    assert r[..|r|] == r;
    DigitsValueOfHexString(n);
  }

  lemma {:induction false} AllDigitsPrefix(s: string)
    requires forall i :: 0 <= i < |s| ==> IsHexDigit(s[i])
    ensures HexPrefixLength(s) == |s|
    decreases |s|
  {
    if |s| > 0 {
      AllDigitsPrefix(s[1..]);
    }
  }

  lemma {:induction false} DigitsValueOfHexString(n: nat)
    ensures DigitsValue(HexString(n)) == n
    decreases n
  {
    if n >= 16 {
      var r := HexString(n);
      DigitsValueOfHexString(n / 16);
      assert r[..|r| - 1] == HexString(n / 16);
    }
  }

  /** Distinct numbers print differently under `"%x"`. */
  lemma HexStringInjective(n: nat, m: nat)
    requires HexString(n) == HexString(m)
    ensures n == m
  {
    HexStringReadsBack(n);
    HexStringReadsBack(m);
  }
}
