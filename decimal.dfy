/** Decimal text of integers, as Go's strconv.Itoa and the %d verb of fmt.Sprintf
    produce it, together with the parsers that invert it. */
module Decimal {

  predicate IsDigit(c: char) {
    '0' <= c <= '9'
  }

  predicate IsDigits(s: string) {
    forall i :: 0 <= i < |s| ==> IsDigit(s[i])
  }

  /** A character that can occur in the decimal text of a (possibly negative) integer. */
  predicate IsNumeralChar(c: char) {
    IsDigit(c) || c == '-'
  }

  predicate IsNumeralChars(s: string) {
    forall i :: 0 <= i < |s| ==> IsNumeralChar(s[i])
  }

  function DigitValue(c: char): (d: nat)
    requires IsDigit(c)
    ensures d < 10
  {
    c as int - '0' as int
  }

  function DigitChar(d: nat): (c: char)
    requires d < 10
    ensures IsDigit(c) && DigitValue(c) == d
  {
    ('0' as int + d) as char
  }

  /** strconv.Itoa on a non-negative int: most significant digit first, no leading zeros. */
  function NatToDecimal(n: nat): (s: string)
    ensures |s| > 0 && IsDigits(s)
    ensures s[0] == '0' <==> n == 0
    ensures n == 0 ==> s == "0"
    decreases n
  {
    if n < 10 then [DigitChar(n)] else NatToDecimal(n / 10) + [DigitChar(n % 10)]
  }

  /** Reads a string of digits as a number (the empty string reads as 0). */
  function ParseDecimal(s: string): (v: nat)
    requires IsDigits(s)
  {
    if s == [] then 0 else ParseDecimal(s[..|s| - 1]) * 10 + DigitValue(s[|s| - 1])
  }

  lemma {:induction false} ParseNatToDecimal(n: nat)
    ensures ParseDecimal(NatToDecimal(n)) == n
    decreases n
  {
    if n >= 10 {
      var s := NatToDecimal(n);
      assert s[..|s| - 1] == NatToDecimal(n / 10);
      ParseNatToDecimal(n / 10);
    }
  }

  /** Distinct numbers have distinct decimal text. */
  lemma NatToDecimalInjective(m: nat, n: nat)
    requires NatToDecimal(m) == NatToDecimal(n)
    ensures m == n
  {
    ParseNatToDecimal(m);
    ParseNatToDecimal(n);
  }

  /** The %d verb on an int: a minus sign before the digits of the magnitude. */
  function IntToDecimal(n: int): (s: string)
    ensures |s| > 0 && IsNumeralChars(s)
    ensures s[0] == '-' <==> n < 0
  {
    if n < 0 then "-" + NatToDecimal(-n) else NatToDecimal(n)
  }

  /** Reads optional minus sign followed by digits. */
  function ParseInt(s: string): (v: int)
    requires |s| > 0 && (s[0] == '-' || IsDigit(s[0])) && IsDigits(s[1..])
  {
    if s[0] == '-' then -(ParseDecimal(s[1..]) as int) else ParseDecimal(s)
  }

  lemma ParseIntToDecimal(n: int)
    ensures var s := IntToDecimal(n); |s| > 0 && (s[0] == '-' || IsDigit(s[0])) && IsDigits(s[1..])
    ensures ParseInt(IntToDecimal(n)) == n
  {
    var s := IntToDecimal(n);
    if n < 0 {
      assert s[1..] == NatToDecimal(-n);
      ParseNatToDecimal(-n);
    } else {
      ParseNatToDecimal(n);
    }
  }

  /** Distinct integers have distinct %d text. */
  lemma IntToDecimalInjective(m: int, n: int)
    requires IntToDecimal(m) == IntToDecimal(n)
    ensures m == n
  {
    ParseIntToDecimal(m);
    ParseIntToDecimal(n);
  }

  /** Numeral text followed by text that starts with some other character can be
      split in only one place, so the numeral is recovered from the concatenation. */
  lemma NumeralSplit(a: string, x: string, b: string, y: string)
    requires IsNumeralChars(a) && IsNumeralChars(b)
    requires |x| > 0 && !IsNumeralChar(x[0])
    requires |y| > 0 && !IsNumeralChar(y[0])
    requires a + x == b + y
    ensures a == b && x == y
  {
    assert a == (a + x)[..|a|];
    assert b == (b + y)[..|b|];
    assert x == (a + x)[|a|..];
    assert y == (b + y)[|b|..];
  }

  /** Equal texts with a common head have equal tails. */
  lemma CancelHead(head: string, t1: string, t2: string)
    requires head + t1 == head + t2
    ensures t1 == t2
  {
    assert t1 == (head + t1)[|head|..];
    assert t2 == (head + t2)[|head|..];
  }
}
