/** Decimal text of integers, as Java's `Integer.toString`, `Long.toString`
    and `StringBuilder.append(int)` produce it. */
module Text {

  predicate IsDigit(c: char) {
    '0' <= c <= '9'
  }

  function DigitChar(d: int): (c: char)
    requires 0 <= d <= 9
    ensures IsDigit(c) && c as int - '0' as int == d
  {
    ('0' as int + d) as char
  }

  function DigitValue(c: char): (d: int)
    requires IsDigit(c)
    ensures 0 <= d <= 9 && DigitChar(d) == c
  {
    c as int - '0' as int
  }

  /** Digits of a natural number, most significant first, no leading zero. */
  function NaturalDecimal(n: nat): (s: string)
    ensures 0 < |s| && forall i :: 0 <= i < |s| ==> IsDigit(s[i])
    ensures n < 10 <==> |s| == 1
    ensures s[0] == '0' ==> n == 0
  {
    if n < 10 then [DigitChar(n)] else NaturalDecimal(n / 10) + [DigitChar(n % 10)]
  }

  /** The decimal text of any integer: a minus sign before negative values. */
  function DecimalString(n: int): (s: string)
  {
    if n < 0 then "-" + NaturalDecimal(-n) else NaturalDecimal(n)
  }

  /** Reads back a string of decimal digits. */
  function DecimalValue(s: string): (n: nat)
    requires forall i :: 0 <= i < |s| ==> IsDigit(s[i])
  {
    if |s| == 0 then 0 else 10 * DecimalValue(s[..|s| - 1]) + DigitValue(s[|s| - 1])
  }

  /** The decimal text is read back as the number it was written from. */
  lemma {:induction false} DecimalRoundTrip(n: nat)
    ensures DecimalValue(NaturalDecimal(n)) == n
  {
    if n >= 10 {
      var s := NaturalDecimal(n);
      assert s[..|s| - 1] == NaturalDecimal(n / 10);
      DecimalRoundTrip(n / 10);
    }
  }

  /** A single digit is written as exactly one character. */
  lemma SingleDigitText(d: int)
    requires 0 <= d <= 9
    ensures DecimalString(d) == [DigitChar(d)]
  {
  }
}
