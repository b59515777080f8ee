/**
 * Decimal text of integers, as Python's `str(int)` and the `{...}` of an
 * f-string produce it: an optional '-' followed by digits without leading
 * zeros.  ParseInt is the reading side, used to state what the text means.
 */
module IntText {

  predicate IsDigit(c: char) {
    '0' <= c <= '9'
  }

  predicate IsDigits(s: string) {
    forall k :: 0 <= k < |s| ==> IsDigit(s[k])
  }

  /** Text of an integer: "-" only for negatives, never "-0", no leading zeros. */
  predicate IsCanonicalIntText(s: string) {
    if |s| > 0 && s[0] == '-' then
      |s| > 1 && IsDigits(s[1..]) && s[1] != '0'
    else
      |s| > 0 && IsDigits(s) && (s[0] == '0' ==> s == "0")
  }

  function DigitChar(d: nat): (c: char)
    requires d < 10
    ensures IsDigit(c) && c as int - '0' as int == d
  {
    ('0' as int + d) as char
  }

  function DigitValue(c: char): nat
    requires IsDigit(c)
  {
    c as int - '0' as int
  }

  /** Value of a string of decimal digits, most significant first. */
  function ParseNat(s: string): nat
    requires IsDigits(s)
  {
    if s == [] then 0 else 10 * ParseNat(s[..|s| - 1]) + DigitValue(s[|s| - 1])
  }

  function ParseInt(s: string): int
    requires IsCanonicalIntText(s)
  {
    if s[0] == '-' then -(ParseNat(s[1..]) as int) else ParseNat(s)
  }

  /** Decimal digits of n: at least one, no leading zero, and they read back as n. */
  function NatToDigits(n: nat): (s: string)
    ensures |s| >= 1 && IsDigits(s)
    ensures s[0] == '0' ==> s == "0"
    ensures ParseNat(s) == n
  {
    if n < 10 then [DigitChar(n)]
    else
      var prefix := NatToDigits(n / 10);
      var s := prefix + [DigitChar(n % 10)];
      assert s[..|s| - 1] == prefix;
      s
  }

  /** Python's `str(i)` for an int: canonical decimal text that parses back to i. */
  function IntToString(i: int): (s: string)
    ensures IsCanonicalIntText(s)
    ensures ParseInt(s) == i
    ensures s[0] == '-' <==> i < 0
  {
    if i < 0 then
      var digits := NatToDigits(-i);
      var s := "-" + digits;
      assert s[1..] == digits;
      s
    else NatToDigits(i)
  }
}
