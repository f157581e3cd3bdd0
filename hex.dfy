/**
 * Hexadecimal digit strings: their value (the digit fold behind Python's
 * `int(s, 16)`) and the upper-case, no-leading-zero rendering that
 * PostgreSQL uses for the two halves of an xlog location (`%X/%X`).
 */
module Hex {

  predicate IsHexDigit(c: char) {
    ('0' <= c <= '9') || ('a' <= c <= 'f') || ('A' <= c <= 'F')
  }

  /** The value of one hexadecimal digit, either case. */
  function DigitValue(c: char): (v: nat)
    requires IsHexDigit(c)
    ensures v < 16
  {
    if '0' <= c <= '9' then c as int - '0' as int
    else if 'a' <= c <= 'f' then c as int - 'a' as int + 10
    else c as int - 'A' as int + 10
  }

  /** The upper-case digit for a value below 16. */
  function HexChar(v: nat): (c: char)
    requires v < 16
    ensures IsHexDigit(c) && DigitValue(c) == v
    ensures !('a' <= c <= 'f')
  {
    if v < 10 then ('0' as int + v) as char else ('A' as int + v - 10) as char
  }

  predicate AllHexDigits(s: string) {
    forall i :: 0 <= i < |s| ==> IsHexDigit(s[i])
  }

  /** A non-empty string of hexadecimal digits and nothing else. */
  predicate IsHex(s: string) {
    |s| > 0 && AllHexDigits(s)
  }

  function Pow16(n: nat): (p: nat)
    ensures p >= 1
  {
    if n == 0 then 1 else 16 * Pow16(n - 1)
  }

  /** The value of a digit string, most significant digit first; 0 for "". */
  function HexValue(s: string): (v: nat)
    requires AllHexDigits(s)
    ensures v < Pow16(|s|)
  {
    if |s| == 0 then 0 else 16 * HexValue(s[..|s| - 1]) + DigitValue(s[|s| - 1])
  }

  /** Appending a digit shifts the value one place and adds the digit. */
  lemma HexValueAppend(s: string, c: char)
    requires AllHexDigits(s) && IsHexDigit(c)
    ensures AllHexDigits(s + [c])
    ensures HexValue(s + [c]) == 16 * HexValue(s) + DigitValue(c)
  {
    assert (s + [c])[..|s|] == s;
  }

  /**
   * PostgreSQL's `%X` rendering of a non-negative number: upper-case digits,
   * no leading zero. Reading it back with HexValue gives the number again.
   */
  function ToHex(n: nat): (s: string)
    ensures IsHex(s) && HexValue(s) == n
    ensures s[0] == '0' ==> s == "0"
    ensures |s| > 1 ==> Pow16(|s| - 1) <= n
    ensures forall i :: 0 <= i < |s| ==> !('a' <= s[i] <= 'f')
  {
    if n < 16 then [HexChar(n)]
    else
      var high := ToHex(n / 16);
      HexValueAppend(high, HexChar(n % 16));
      high + [HexChar(n % 16)]
  }

  /** Powers of 16 grow with the exponent. */
  lemma {:induction false} Pow16Monotone(i: nat, j: nat)
    requires i <= j
    ensures Pow16(i) <= Pow16(j)
    decreases j - i
  {
    if i < j {
      Pow16Monotone(i, j - 1);
    }
  }

  /** No non-empty digit string with the value n is shorter than the `%X` rendering of n. */
  lemma ToHexShortest(s: string)
    requires IsHex(s)
    ensures |ToHex(HexValue(s))| <= |s|
  {
    var t := ToHex(HexValue(s));
    if |s| < |t| {
      Pow16Monotone(|s|, |t| - 1);
    }
  }
}
