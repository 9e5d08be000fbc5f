/** Decimal text of integers, as Python's f-string formatting writes them
    (`f"{n}"`): the exporter puts integers into the status label and into the
    SVG size attributes. */
module Decimal {

  predicate IsDigit(c: char) {
    '0' <= c <= '9'
  }

  predicate IsDigits(s: string) {
    forall i :: 0 <= i < |s| ==> IsDigit(s[i])
  }

  function DigitChar(d: nat): (c: char)
    requires d < 10
    ensures IsDigit(c) && c as int - '0' as int == d
  {
    ('0' as int + d) as char
  }

  /** The shortest decimal numeral of `n`: at least one digit, no leading zero. */
  function NatToDecimal(n: nat): (s: string)
    ensures |s| > 0 && IsDigits(s)
    ensures s[0] == '0' ==> n == 0 && |s| == 1
    decreases n
  {
    if n < 10 then [DigitChar(n)] else NatToDecimal(n / 10) + [DigitChar(n % 10)]
  }

  /** The value a string of digits denotes. */
  function DecimalValue(s: string): nat
    requires IsDigits(s)
  {
    if s == [] then 0 else 10 * DecimalValue(s[..|s| - 1]) + (s[|s| - 1] as int - '0' as int)
  }

  /** An optional minus sign followed by digits (at least one character). */
  predicate IsNumeral(s: string) {
    && |s| > 0
    && (s[0] == '-' ==> IsDigits(s[1..]))
    && (s[0] != '-' ==> IsDigits(s))
  }

  /** Python's `str(n)` for an int: a minus sign before the magnitude when negative. */
  function IntToDecimal(i: int): (s: string)
    ensures IsNumeral(s)
    ensures s[0] == '-' <==> i < 0
  {
    if i < 0 then "-" + NatToDecimal(-i) else NatToDecimal(i)
  }

  /** The text of an integer is in Python's canonical form: a minus sign is
      followed by a non-zero leading digit, and a leading zero is the whole
      text "0". */
  lemma IntToDecimalCanonical(i: int)
    ensures var s := IntToDecimal(i);
      && (s[0] == '-' ==> |s| > 1 && s[1] != '0')
      && (s[0] == '0' ==> s == "0")
  {
    var s := IntToDecimal(i);
    if i < 0 {
      assert s == "-" + NatToDecimal(-i);
    }
  }

  /** Reading the text back gives the integer it was made from. */
  function ParseInt(s: string): int
    requires IsNumeral(s)
  {
    if s[0] == '-' then -(DecimalValue(s[1..]) as int) else DecimalValue(s)
  }

  lemma {:induction false} DecimalRoundTrip(n: nat)
    ensures DecimalValue(NatToDecimal(n)) == n
    decreases n
  {
    if n >= 10 {
      var s := NatToDecimal(n);
      DecimalRoundTrip(n / 10);
      assert s[..|s| - 1] == NatToDecimal(n / 10);
    }
  }

  lemma IntRoundTrip(i: int)
    ensures ParseInt(IntToDecimal(i)) == i
  {
    var s := IntToDecimal(i);
    if i < 0 {
      var m := NatToDecimal(-i);
      assert s[0] == '-' && s[1..] == m by {
        assert s == "-" + m;
      }
      DecimalRoundTrip(-i);
    } else {
      assert s == NatToDecimal(i);
      DecimalRoundTrip(i);
    }
  }

  /** Distinct integers are written differently. */
  lemma IntToDecimalInjective(i: int, j: int)
    requires i != j
    ensures IntToDecimal(i) != IntToDecimal(j)
  {
    IntRoundTrip(i);
    IntRoundTrip(j);
  }
}
