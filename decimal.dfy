/** Decimal text of integers: printing as PHP's `(string)` does for an int,
    the integer-literal syntax of section 2.9.1 of the GraphQL specification
    (October 2021), and reading digit strings back. */
module Decimal {

  predicate IsDigit(c: char) { '0' <= c <= '9' }

  predicate AllDigits(s: string) {
    forall i :: 0 <= i < |s| ==> IsDigit(s[i])
  }

  function DigitChar(d: nat): (c: char)
    requires d < 10
    ensures IsDigit(c)
  {
    ('0' as int + d) as char
  }

  function DigitValue(c: char): nat
    requires IsDigit(c)
  {
    c as int - '0' as int
  }

  /** The value of a string of decimal digits, most significant first. */
  function DigitsValue(s: string): nat
    requires AllDigits(s)
  {
    if s == [] then 0 else DigitsValue(s[..|s| - 1]) * 10 + DigitValue(s[|s| - 1])
  }

  /** The digits of `n`, most significant first, without leading zeros. */
  function NatToString(n: nat): (s: string)
    ensures |s| > 0 && AllDigits(s)
    ensures s[0] == '0' <==> n == 0
    ensures |s| == 1 <==> n < 10
  {
    if n < 10 then [DigitChar(n)] else NatToString(n / 10) + [DigitChar(n % 10)]
  }

  /** PHP's `(string)` of an int: a minus sign for negatives, then the digits. */
  function IntToString(n: int): (s: string)
    ensures IntValueSyntax(s) && s != "-0"
  {
    if n < 0 then "-" + NatToString(-n) else NatToString(n)
  }

  /** The magnitude part of an integer literal: one digit, or several
      without a leading zero. */
  predicate UnsignedSyntax(u: string) {
    |u| > 0 && AllDigits(u) && (u[0] == '0' ==> |u| == 1)
  }

  /** IntValue of section 2.9.1: `-`? followed by `0` or a non-zero digit
      and more digits. */
  predicate IntValueSyntax(t: string) {
    if |t| > 0 && t[0] == '-' then UnsignedSyntax(t[1..]) else UnsignedSyntax(t)
  }

  /** The integer an IntValue denotes. */
  function IntValueOf(t: string): int
    requires IntValueSyntax(t)
  {
    if |t| > 0 && t[0] == '-' then 0 - DigitsValue(t[1..]) else DigitsValue(t)
  }

  lemma {:induction false} NatToStringRoundTrip(n: nat)
    ensures DigitsValue(NatToString(n)) == n
  {
    if n >= 10 {
      var s := NatToString(n);
      assert s[..|s| - 1] == NatToString(n / 10);
      NatToStringRoundTrip(n / 10);
    }
  }

  lemma {:induction false} DigitsValuePositive(s: string)
    requires UnsignedSyntax(s) && s[0] != '0'
    ensures DigitsValue(s) >= 1
    ensures |s| >= 2 ==> DigitsValue(s) >= 10
  {
    if |s| >= 2 {
      var p := s[..|s| - 1];
      assert p[0] == s[0];
      DigitsValuePositive(p);
    }
  }

  /** Canonical digit strings are exactly the printed naturals. */
  lemma {:induction false} DigitsRoundTrip(s: string)
    requires UnsignedSyntax(s)
    ensures NatToString(DigitsValue(s)) == s
  {
    if |s| >= 2 {
      var p := s[..|s| - 1];
      assert p[0] == s[0];
      DigitsValuePositive(s);
      DigitsValuePositive(p);
      DigitsRoundTrip(p);
      assert s == p + [s[|s| - 1]];
    }
  }

  /** Reading the printed text back gives the integer. */
  lemma IntToStringRoundTrip(n: int)
    ensures IntValueOf(IntToString(n)) == n
  {
    var t := IntToString(n);
    if n < 0 {
      var m := NatToString(-n);
      assert t == "-" + m;
      assert t[0] == '-' && t[1..] == m;
      NatToStringRoundTrip(-n);
      assert IntValueOf(t) == 0 - DigitsValue(m);
    } else {
      assert t == NatToString(n) && t[0] != '-';
      NatToStringRoundTrip(n);
      assert IntValueOf(t) == DigitsValue(t);
    }
  }

  /** Printing the integer a literal denotes gives the literal back, for
      every literal except `-0`. */
  lemma CanonicalRoundTrip(t: string)
    requires IntValueSyntax(t) && t != "-0"
    ensures IntToString(IntValueOf(t)) == t
  {
    if |t| > 0 && t[0] == '-' {
      var u := t[1..];
      DigitsRoundTrip(u);
      assert u != "0";
      assert t == "-" + u;
    } else {
      DigitsRoundTrip(t);
    }
  }

  /** The printed integers are exactly the IntValue texts other than `-0`:
      no leading zeros, no `+`, no negative zero. */
  lemma PrintedIffCanonical(t: string)
    ensures (exists n :: IntToString(n) == t) <==> IntValueSyntax(t) && t != "-0"
  {
    if IntValueSyntax(t) && t != "-0" {
      CanonicalRoundTrip(t);
    }
  }

  lemma IntToStringInjective(a: int, b: int)
    ensures IntToString(a) == IntToString(b) <==> a == b
  {
    IntToStringRoundTrip(a);
    IntToStringRoundTrip(b);
  }
}
