/**
 * How an integral JavaScript Number of magnitude below 1e21 is turned into text when
 * it is concatenated to a string: an optional minus sign followed by the shortest
 * decimal digits.
 * `ParseInt` reads such text back, and the two are proved inverse.
 */
module Decimal {

  /** The character of decimal digit `d`. */
  function DigitChar(d: int): (c: char)
    requires 0 <= d < 10
    ensures '0' <= c <= '9'
  {
    ('0' as int + d) as char
  }

  /** The value of a digit character. */
  function DigitValue(c: char): (d: int)
    requires '0' <= c <= '9'
    ensures 0 <= d < 10
  {
    c as int - '0' as int
  }

  predicate IsDigits(s: string)
  {
    forall i :: 0 <= i < |s| ==> '0' <= s[i] <= '9'
  }

  /** Text of the form JavaScript prints for an integer: digits, or '-' then digits. */
  predicate IsIntText(s: string)
  {
    if |s| > 0 && s[0] == '-' then IsDigits(s[1..]) else IsDigits(s)
  }

  /** Shortest decimal digits of a natural number. */
  function NatToText(n: nat): (s: string)
    ensures |s| >= 1 && IsDigits(s)
    ensures |s| > 1 ==> s[0] != '0'
    decreases n
  {
    if n < 10 then [DigitChar(n)] else NatToText(n / 10) + [DigitChar(n % 10)]
  }

  /** Value of a string of decimal digits, most significant first. */
  function ParseNat(s: string): nat
    requires IsDigits(s)
  {
    if s == [] then 0 else ParseNat(s[..|s| - 1]) * 10 + DigitValue(s[|s| - 1])
  }

  /** The text JavaScript produces for integer `n` in `'...' + n`, when |n| < 1e21. */
  function IntToText(n: int): (s: string)
    ensures IsIntText(s) && |s| >= 1
    ensures (s[0] == '-') <==> n < 0
    ensures forall i :: 0 <= i < |s| ==> s[i] == '-' || '0' <= s[i] <= '9'
  {
    if n < 0 then
      var d := NatToText(-n);
      assert ("-" + d)[1..] == d;
      "-" + d
    else NatToText(n)
  }

  function ParseInt(s: string): int
    requires IsIntText(s)
  {
    if |s| > 0 && s[0] == '-' then -(ParseNat(s[1..]) as int) else ParseNat(s)
  }

  lemma {:induction false} ParseNatText(n: nat)
    ensures ParseNat(NatToText(n)) == n
    decreases n
  {
    if n >= 10 {
      var s := NatToText(n);
      ParseNatText(n / 10);
      assert s[..|s| - 1] == NatToText(n / 10);
    }
  }

  /** Printing an integer and reading the text back gives the integer again. */
  lemma IntTextRoundTrip(n: int)
    ensures ParseInt(IntToText(n)) == n
  {
    if n < 0 {
      ParseNatText(-n);
      assert IntToText(n)[1..] == NatToText(-n);
    } else {
      ParseNatText(n);
    }
  }
}
