/**
 * The text conversions the two programs rely on: `printf`'s `%0Nx` and `%d`
 * on the emitting side, `strtol(s, NULL, 16)` on the reading side.
 */
module HexText {

  /** The lower-case digit `printf("%x")` writes for a value below 16. */
  function HexChar(d: int): char
    requires 0 <= d < 16
  {
    "0123456789abcdef"[d]
  }

  /** A character `strtol` accepts as a digit in base 16 (either case). */
  predicate IsHexDigit(c: char) {
    '0' <= c <= '9' || 'a' <= c <= 'f' || 'A' <= c <= 'F'
  }

  predicate AllHexDigits(s: string) {
    forall i :: 0 <= i < |s| ==> IsHexDigit(s[i])
  }

  function DigitValue(c: char): (v: int)
    requires IsHexDigit(c)
    ensures 0 <= v < 16
  {
    if '0' <= c <= '9' then c as int - '0' as int
    else if 'a' <= c <= 'f' then c as int - 'a' as int + 10
    else c as int - 'A' as int + 10
  }

  /** Reading back a digit `printf` wrote gives the digit's value. */
  lemma DigitValueOfHexChar(d: int)
    requires 0 <= d < 16
    ensures IsHexDigit(HexChar(d)) && DigitValue(HexChar(d)) == d
  {
  }

  function Pow16(n: nat): (r: nat)
    ensures r >= 1
  {
    if n == 0 then 1 else 16 * Pow16(n - 1)
  }

  lemma {:induction false} Pow16Monotone(m: nat, n: nat)
    requires m <= n
    ensures Pow16(m) <= Pow16(n)
  {
    if m < n {
      Pow16Monotone(m, n - 1);
    }
  }

  /** The n lowest hex digits of v, most significant first, in lower case. */
  function FixedHex(v: nat, n: nat): (s: string)
    ensures |s| == n && AllHexDigits(s)
  {
    if n == 0 then [] else FixedHex(v / 16, n - 1) + [HexChar(v % 16)]
  }

  /** How many hex digits `printf("%x")` writes for v (at least one, for 0). */
  function NumDigits(v: nat): (n: nat)
    ensures 1 <= n && v < Pow16(n)
  {
    if v < 16 then 1 else 1 + NumDigits(v / 16)
  }

  /** No value needs more digits than a power of 16 above it allows. */
  lemma {:induction false} NumDigitsAtMost(v: nat, n: nat)
    requires 1 <= n && v < Pow16(n)
    ensures NumDigits(v) <= n
  {
    if v >= 16 {
      NumDigitsAtMost(v / 16, n - 1);
    }
  }

  /**
   * `printf("%0<width>x", v)`: the digits of v, padded with zeros on the
   * left to at least `width` characters; never truncated.
   */
  function FormatHex(v: nat, width: nat): (s: string)
  {
    FixedHex(v, if width < NumDigits(v) then NumDigits(v) else width)
  }

  /** A value that fits in `width` digits is printed in exactly `width` digits. */
  lemma FormatHexFits(v: nat, width: nat)
    requires 1 <= width && v < Pow16(width)
    ensures FormatHex(v, width) == FixedHex(v, width)
  {
    NumDigitsAtMost(v, width);
  }

  /** The value of a string of hex digits, most significant first. */
  function DigitsValue(s: string): (v: nat)
    requires AllHexDigits(s)
    ensures v < Pow16(|s|)
  {
    if s == [] then 0 else DigitsValue(s[..|s| - 1]) * 16 + DigitValue(s[|s| - 1])
  }

  /** Reading back the digits of FixedHex gives v whenever v fits in n digits. */
  lemma {:induction false} FixedHexValue(v: nat, n: nat)
    requires v < Pow16(n)
    ensures DigitsValue(FixedHex(v, n)) == v
  {
    if n > 0 {
      var s := FixedHex(v, n);
      assert s[..n - 1] == FixedHex(v / 16, n - 1);
      FixedHexValue(v / 16, n - 1);
      DigitValueOfHexChar(v % 16);
    }
  }

  /** The length of the longest run of hex digits at the start of s. */
  function HexRunLength(s: string): (n: nat)
    ensures n <= |s| && AllHexDigits(s[..n])
    ensures n < |s| ==> !IsHexDigit(s[n])
  {
    if s == [] || !IsHexDigit(s[0]) then 0 else 1 + HexRunLength(s[1..])
  }

  /**
   * `strtol(s, NULL, 16)` on a string without white space: an optional sign,
   * an optional `0x` or `0X`, then the longest run of hex digits; 0 when
   * there is none.
   */
  function StrToL(s: string): (r: int)
    ensures -(Pow16(|s|) as int) < r < Pow16(|s|)
  {
    var negative := |s| > 0 && s[0] == '-';
    var unsigned := if |s| > 0 && (s[0] == '-' || s[0] == '+') then s[1..] else s;
    var digits :=
      if |unsigned| >= 2 && unsigned[0] == '0' && (unsigned[1] == 'x' || unsigned[1] == 'X')
      then unsigned[2..] else unsigned;
    var run := HexRunLength(digits);
    var magnitude := DigitsValue(digits[..run]);
    Pow16Monotone(run, |s|);
    if negative then -(magnitude as int) else magnitude
  }

  /** A string made only of hex digits is read as exactly its value. */
  lemma StrToLOfDigits(s: string)
    requires AllHexDigits(s)
    ensures StrToL(s) == DigitsValue(s)
  {
    assert s[..HexRunLength(s)] == s;
  }

  /** `strtol(…, 16)` reads back whatever `printf("%0<width>x")` wrote. */
  lemma StrToLFormatHex(v: nat, width: nat)
    ensures StrToL(FormatHex(v, width)) == v
  {
    var n := if width < NumDigits(v) then NumDigits(v) else width;
    Pow16Monotone(NumDigits(v), n);
    FixedHexValue(v, n);
    StrToLOfDigits(FixedHex(v, n));
  }

  /** `printf("%d", n)` for n >= 0. */
  function Decimal(n: nat): (s: string)
    ensures |s| >= 1 && forall i :: 0 <= i < |s| ==> '0' <= s[i] <= '9'
  {
    if n < 10 then ["0123456789"[n]] else Decimal(n / 10) + ["0123456789"[n % 10]]
  }

}
