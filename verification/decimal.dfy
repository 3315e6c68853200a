/**
 * The pieces of Python's string/integer conversion that the adherence kernel
 * relies on: `str(n)`, `int(s)` on digit strings, `str.isdigit()` and
 * `str.lstrip('0')`.  Digits are the ASCII digits '0'..'9'.
 */
module Decimal {

  predicate IsDigit(c: char) {
    '0' <= c <= '9'
  }

  /** Python's `s.isdigit()`: non-empty and every character a digit. */
  predicate IsAllDigits(s: string) {
    |s| > 0 && forall i :: 0 <= i < |s| ==> IsDigit(s[i])
  }

  /** Every character is a digit (the empty string included). */
  predicate DigitsOnly(s: string) {
    forall i :: 0 <= i < |s| ==> IsDigit(s[i])
  }

  /**
   * A non-empty numeral: digits, possibly after one minus sign.  Every
   * `str(i)` is one, but so are strings `str` never prints, such as "007" or "-0".
   */
  predicate IsNumeral(s: string) {
    |s| > 0 && if s[0] == '-' then IsAllDigits(s[1..]) else IsAllDigits(s)
  }

  function DigitChar(d: nat): (c: char)
    requires d < 10
    ensures IsDigit(c)
  {
    ('0' as int + d) as char
  }

  /** Python's `int(c)` on a single digit character. */
  function DigitValue(c: char): (d: nat)
    requires IsDigit(c)
    ensures d < 10 && DigitChar(d) == c
  {
    c as int - '0' as int
  }

  /** Python's `str(n)` for a non-negative integer. */
  function NatToString(n: nat): (s: string)
    ensures IsAllDigits(s)
    ensures s[0] == '0' <==> n == 0
    ensures n == 0 ==> s == "0"
    decreases n
  {
    if n < 10 then [DigitChar(n)] else NatToString(n / 10) + [DigitChar(n % 10)]
  }

  /** Python's `str(i)` for any integer: a minus sign before the magnitude. */
  function IntToString(i: int): (s: string)
    ensures |s| > 0
    ensures s[0] == '-' <==> i < 0
    ensures i >= 0 ==> IsAllDigits(s)
    ensures i < 0 ==> IsAllDigits(s[1..])
    ensures IsNumeral(s)
    ensures s[0] == '0' <==> i == 0
  {
    if i < 0 then "-" + NatToString(-i) else NatToString(i)
  }

  /** Python's `int(s)` on a string of digits (leading zeros allowed). */
  function ParseDigits(s: string): nat
    requires DigitsOnly(s)
    decreases |s|
  {
    if |s| == 0 then 0 else ParseDigits(s[..|s| - 1]) * 10 + DigitValue(s[|s| - 1])
  }

  /** Python's `s.lstrip('0')`: drop every leading '0'. */
  function LStripZeros(s: string): (r: string)
    ensures |r| <= |s| && r == s[|s| - |r|..]
    ensures forall i :: 0 <= i < |s| - |r| ==> s[i] == '0'
    ensures |r| > 0 ==> r[0] != '0'
    decreases |s|
  {
    if |s| > 0 && s[0] == '0' then LStripZeros(s[1..]) else s
  }

  /** Printing a number and reading it back gives the number. */
  lemma {:induction false} ParseNatToString(n: nat)
    ensures DigitsOnly(NatToString(n))
    ensures ParseDigits(NatToString(n)) == n
    decreases n
  {
    var s := NatToString(n);
    if n >= 10 {
      ParseNatToString(n / 10);
      assert s[..|s| - 1] == NatToString(n / 10);
    }
  }

  /** A digit string without a leading zero is how its value prints. */
  lemma {:induction false} NatToStringParse(s: string)
    requires IsAllDigits(s) && s[0] != '0'
    ensures ParseDigits(s) > 0
    ensures NatToString(ParseDigits(s)) == s
    decreases |s|
  {
    if |s| > 1 {
      var p := s[..|s| - 1];
      NatToStringParse(p);
      var n := ParseDigits(s);
      assert n / 10 == ParseDigits(p) && n % 10 == DigitValue(s[|s| - 1]);
      assert s == p + [s[|s| - 1]];
    }
  }

  /** Distinct integers print differently, so `str(i)` keys never collide. */
  lemma IntToStringInjective(i: int, j: int)
    ensures IntToString(i) == IntToString(j) ==> i == j
  {
    if IntToString(i) == IntToString(j) {
      if i < 0 && j < 0 {
        assert NatToString(-i) == IntToString(i)[1..] == NatToString(-j);
        ParseNatToString(-i);
        ParseNatToString(-j);
      } else if i >= 0 && j >= 0 {
        ParseNatToString(i);
        ParseNatToString(j);
      }
    }
  }

  /** Leading zeros do not change the value `int()` reads. */
  lemma {:induction false} ParseIgnoresLeadingZero(t: string)
    requires DigitsOnly(t)
    ensures DigitsOnly("0" + t)
    ensures ParseDigits("0" + t) == ParseDigits(t)
    decreases |t|
  {
    var s := "0" + t;
    if |t| > 0 {
      var q := t[..|t| - 1];
      ParseIgnoresLeadingZero(q);
      assert s[..|s| - 1] == "0" + q;
    }
  }

  /**
   * What `code.lstrip('0')` is for a digit string: empty exactly when the code
   * reads as zero, and otherwise the canonical printing of its value.
   */
  lemma {:induction false} StrippedDigits(s: string)
    requires IsAllDigits(s)
    ensures LStripZeros(s) == "" <==> ParseDigits(s) == 0
    ensures ParseDigits(s) > 0 ==> LStripZeros(s) == NatToString(ParseDigits(s))
    decreases |s|
  {
    if s[0] == '0' {
      if |s| == 1 {
        assert ParseDigits(s) == ParseDigits(s[..0]) * 10 + 0;
      } else {
        var t := s[1..];
        assert s == "0" + t;
        ParseIgnoresLeadingZero(t);
        StrippedDigits(t);
      }
    } else {
      NatToStringParse(s);
    }
  }
}
