/** The PHP conversions the scalars rely on: `floatval` / `(float)` of a
    value, `intval` of a float, the `(int)` and `(float)` casts of literal
    text, and PHP's comparison of an int with a float. */
module PhpCast {
  import opened Values
  import opened Decimal

  /** `floatval($value)` / `(float) $value` for a numeric or boolean value. */
  function FloatVal(v: Value): Double
    requires IsNumeric(v) || v.Bool?
  {
    match v
    case Bool(b) => Finite(if b then 1.0 else 0.0)
    case Int(i) => Finite(i as real)
    case Float(d) => d
    case Str(_, num) => num.value
  }

  /** `intval` of a finite float: truncation toward zero. */
  function Trunc(r: real): int {
    if r >= 0.0 then r.Floor else -((-r).Floor)
  }

  predicate IsIntegral(r: real) { r.Floor as real == r }

  /** Truncation is exact precisely on whole numbers, and then gives that number. */
  lemma TruncExact(r: real)
    ensures (Trunc(r) as real == r) <==> IsIntegral(r)
    ensures IsIntegral(r) ==> Trunc(r) == r.Floor
  {
    if r < 0.0 {
      var k := (-r).Floor;
      assert k as real <= -r < k as real + 1.0;
      if k as real == -r {
        assert (-k) as real == r;
        assert r.Floor == -k;
      } else {
        assert (-k) as real - 1.0 < r < (-k) as real;
        assert r.Floor == -k - 1;
      }
    }
  }

  /** `intval` of a float; NaN and the infinities give 0. */
  function IntVal(d: Double): int {
    if d.Finite? then Trunc(d.r) else 0
  }

  /** `$d > $n` for a float and an int. */
  predicate Above(d: Double, n: int) {
    match d
    case Finite(r) => r > n as real
    case PosInf => true
    case NegInf => false
    case NaN => false
  }

  /** `$d < $n` for a float and an int. */
  predicate Below(d: Double, n: int) {
    match d
    case Finite(r) => r < n as real
    case PosInf => false
    case NegInf => true
    case NaN => false
  }

  /** `$n != $d` for an int and a float: the int is widened to a float;
      NaN differs from everything. */
  predicate LooseNotEqual(n: int, d: Double) {
    match d
    case Finite(r) => n as real != r
    case _ => true
  }

  /** The whitespace PHP skips in front of a numeric string: space, tab,
      newline, vertical tab, form feed and carriage return. */
  predicate IsSpace(c: char) { c == ' ' || '\t' <= c <= '\r' }

  function SkipSpace(s: string): (r: string)
    ensures |r| <= |s| && r == s[|s| - |r|..]
    ensures |r| > 0 ==> !IsSpace(r[0])
    ensures |s| > 0 && !IsSpace(s[0]) ==> r == s
  {
    if |s| > 0 && IsSpace(s[0]) then SkipSpace(s[1..]) else s
  }

  /** The longest run of digits at the front of `s`. */
  function LeadingDigits(s: string): (d: string)
    ensures AllDigits(d) && |d| <= |s| && d == s[..|d|]
    ensures |d| < |s| ==> !IsDigit(s[|d|])
  {
    if |s| > 0 && IsDigit(s[0]) then [s[0]] + LeadingDigits(s[1..]) else []
  }

  function Saturate(x: int): (r: I64)
    ensures I64_MIN <= x <= I64_MAX ==> r == x
  {
    if x > I64_MAX then I64_MAX else if x < I64_MIN then I64_MIN else x
  }

  /** `(int) $text`: leading whitespace, an optional sign and the leading
      digits; text without digits reads as 0, and values beyond 64 bits
      saturate. */
  function IntCast(t: string): I64 {
    var u := SkipSpace(t);
    if |u| > 0 && u[0] == '-' then Saturate(0 - DigitsValue(LeadingDigits(u[1..])))
    else if |u| > 0 && u[0] == '+' then Saturate(DigitsValue(LeadingDigits(u[1..])))
    else Saturate(DigitsValue(LeadingDigits(u)))
  }

  function Pow10(e: nat): (p: nat)
    ensures p >= 1
  {
    if e == 0 then 1 else 10 * Pow10(e - 1)
  }

  /** 10 raised to an integer power, as a real. */
  function Scale(e: int): (x: real)
    ensures x > 0.0
  {
    if e >= 0 then Pow10(e) as real else 1.0 / Pow10(-e) as real
  }

  /** The exponent of a float's text, read from just after its mantissa:
      `e` or `E`, an optional sign, and at least one digit; anything else
      leaves the exponent at 0. */
  function ExponentOf(s: string): int {
    if |s| >= 2 && (s[0] == 'e' || s[0] == 'E') then
      var rest := s[1..];
      if (rest[0] == '-' || rest[0] == '+') && |LeadingDigits(rest[1..])| > 0 then
        var mag := DigitsValue(LeadingDigits(rest[1..]));
        if rest[0] == '-' then 0 - mag else mag
      else DigitsValue(LeadingDigits(rest))
    else 0
  }

  /** The value of an unsigned float text: whole digits, an optional `.`
      with fraction digits, and an optional exponent. */
  function UnsignedFloat(u: string): real {
    var whole := LeadingDigits(u);
    var afterWhole := u[|whole|..];
    var dotted := |afterWhole| > 0 && afterWhole[0] == '.';
    var frac := if dotted then LeadingDigits(afterWhole[1..]) else [];
    if |whole| + |frac| == 0 then 0.0
    else DecimalValue(whole, frac, ExponentOf(if dotted then afterWhole[1 + |frac|..] else afterWhole))
  }

  /** The number `whole.frac` times ten to the `exp`. */
  function DecimalValue(whole: string, frac: string, exp: int): real
    requires AllDigits(whole) && AllDigits(frac)
  {
    (DigitsValue(whole + frac) as real / Pow10(|frac|) as real) * Scale(exp)
  }

  /** `(float) $text`, over the reals: leading whitespace, an optional sign,
      then the unsigned float text; text without digits reads as 0. */
  function FloatCast(t: string): real {
    var u := SkipSpace(t);
    if |u| > 0 && u[0] == '-' then -UnsignedFloat(u[1..])
    else if |u| > 0 && u[0] == '+' then UnsignedFloat(u[1..])
    else UnsignedFloat(u)
  }

  lemma {:induction false} LeadingDigitsOfDigits(s: string)
    requires AllDigits(s)
    ensures LeadingDigits(s) == s
  {
    if |s| > 0 {
      LeadingDigitsOfDigits(s[1..]);
    }
  }

  /** Printed integers start with `-` or a digit, so nothing is skipped. */
  lemma NoSpaceBeforePrinted(n: int)
    ensures SkipSpace(IntToString(n)) == IntToString(n)
  {
    var t := IntToString(n);
    assert t[0] == '-' || IsDigit(t[0]);
  }

  /** Text that starts with a digit is read as an unsigned float. */
  lemma FloatCastOfUnsigned(t: string)
    requires |t| > 0 && IsDigit(t[0])
    ensures FloatCast(t) == UnsignedFloat(t)
  {
    assert !IsSpace(t[0]);
    var u := SkipSpace(t);
    assert u == t;
    assert u[0] != '-' && u[0] != '+';
  }

  /** `(int)` reads printed integers back exactly. */
  lemma IntCastRoundTrip(n: I64)
    ensures IntCast(IntToString(n)) == n
  {
    var t := IntToString(n);
    NoSpaceBeforePrinted(n);
    if n < 0 {
      var k: int := -(n as int);
      var m := NatToString(k);
      assert t == "-" + m && t[1..] == m;
      LeadingDigitsOfDigits(m);
      NatToStringRoundTrip(k);
      assert DigitsValue(LeadingDigits(t[1..])) == k;
    } else {
      assert t[0] != '-' && t[0] != '+';
      LeadingDigitsOfDigits(t);
      NatToStringRoundTrip(n);
      assert DigitsValue(LeadingDigits(t)) == n;
    }
  }

  /** A digit string reads as its value when nothing follows it. */
  lemma UnsignedFloatOfDigits(s: string)
    requires |s| > 0 && AllDigits(s)
    ensures UnsignedFloat(s) == DigitsValue(s) as real
  {
    LeadingDigitsOfDigits(s);
    assert s[|s|..] == [];
    assert ExponentOf([]) == 0;
    WholeDecimalValue(s);
  }

  lemma WholeDecimalValue(s: string)
    requires AllDigits(s)
    ensures DecimalValue(s, [], 0) == DigitsValue(s) as real
  {
    assert s + [] == s;
    assert Pow10(0) == 1 && Scale(0) == 1.0;
  }

  /** `(float)` reads printed integers back exactly. */
  lemma FloatCastOfInteger(n: int)
    ensures FloatCast(IntToString(n)) == n as real
  {
    if n < 0 {
      var k: nat := -n;
      assert IntToString(n) == "-" + NatToString(k);
      FloatCastOfNegated(k);
      assert -(k as real) == n as real;
    } else {
      assert IntToString(n) == NatToString(n);
      FloatCastOfNatural(n);
    }
  }

  lemma FloatCastOfNatural(k: nat)
    ensures FloatCast(NatToString(k)) == k as real
  {
    var m := NatToString(k);
    FloatCastOfUnsigned(m);
    UnsignedFloatOfDigits(m);
    NatToStringRoundTrip(k);
  }

  lemma FloatCastOfNegated(k: nat)
    ensures FloatCast("-" + NatToString(k)) == -(k as real)
  {
    var m := NatToString(k);
    var t := "-" + m;
    assert t[0] == '-' && t[1..] == m;
    FloatCastOfNegative(t);
    UnsignedFloatOfDigits(m);
    NatToStringRoundTrip(k);
  }

  /** Text that starts with `-` is read as the negated unsigned float after it. */
  lemma FloatCastOfNegative(t: string)
    requires |t| > 0 && t[0] == '-'
    ensures FloatCast(t) == -UnsignedFloat(t[1..])
  {
    assert !IsSpace(t[0]);
    var u := SkipSpace(t);
    assert u == t;
  }

  lemma {:induction false} LeadingDigitsStops(d: string, rest: string)
    requires AllDigits(d)
    requires |rest| == 0 || !IsDigit(rest[0])
    ensures LeadingDigits(d + rest) == d
  {
    if |d| == 0 {
      assert d + rest == rest;
    } else {
      assert (d + rest)[1..] == d[1..] + rest;
      LeadingDigitsStops(d[1..], rest);
    }
  }

  /** A decimal text `whole.frac` followed by an optional exponent part
      reads as its mantissa scaled by the exponent. */
  lemma UnsignedFloatParts(whole: string, frac: string, tail: string)
    requires AllDigits(whole) && AllDigits(frac) && |whole| + |frac| > 0
    requires |tail| == 0 || !IsDigit(tail[0])
    ensures UnsignedFloat(whole + "." + frac + tail) == DecimalValue(whole, frac, ExponentOf(tail))
  {
    var u := whole + "." + frac + tail;
    var rest := "." + frac + tail;
    assert u == whole + rest;
    LeadingDigitsStops(whole, rest);
    assert LeadingDigits(u) == whole;
    assert u[|whole|..] == rest;
    assert rest[0] == '.';
    assert rest[1..] == frac + tail;
    LeadingDigitsStops(frac, tail);
    assert LeadingDigits(rest[1..]) == frac;
    assert rest[1 + |frac|..] == tail;
  }

  /** An exponent part `e` or `E` followed by a printed integer has that
      integer as its exponent. */
  lemma ExponentOfInteger(e: char, n: int)
    requires e == 'e' || e == 'E'
    ensures ExponentOf([e] + IntToString(n)) == n
  {
    var t := IntToString(n);
    var s := [e] + t;
    assert s[0] == e && s[1..] == t;
    if n < 0 {
      var k: nat := -n;
      var m := NatToString(k);
      assert t == "-" + m;
      assert t[0] == '-' && t[1..] == m;
      LeadingDigitsOfDigits(m);
      NatToStringRoundTrip(k);
    } else {
      assert t == NatToString(n);
      assert IsDigit(t[0]);
      LeadingDigitsOfDigits(t);
      NatToStringRoundTrip(n);
    }
  }

  /** An exponent part with an explicit `+` sign reads as its digits. */
  lemma ExponentOfPlus(e: char, k: nat)
    requires e == 'e' || e == 'E'
    ensures ExponentOf([e, '+'] + NatToString(k)) == k
  {
    var m := NatToString(k);
    var s := [e, '+'] + m;
    assert s[0] == e && s[1..] == ['+'] + m;
    assert s[1..][0] == '+' && s[1..][1..] == m;
    LeadingDigitsOfDigits(m);
    NatToStringRoundTrip(k);
  }

  /** A digit string followed directly by an exponent part (no `.`) reads
      as those digits scaled by the exponent. */
  lemma UnsignedFloatWholeExponent(whole: string, tail: string)
    requires |whole| > 0 && AllDigits(whole)
    requires |tail| == 0 || (!IsDigit(tail[0]) && tail[0] != '.')
    ensures UnsignedFloat(whole + tail) == DecimalValue(whole, [], ExponentOf(tail))
  {
    var u := whole + tail;
    LeadingDigitsStops(whole, tail);
    assert LeadingDigits(u) == whole;
    assert u[|whole|..] == tail;
  }

  /** A digit string followed directly by an exponent part is read by
      `(float)` as an unsigned float. */
  lemma FloatCastWholeExponent(whole: string, tail: string)
    requires |whole| > 0 && AllDigits(whole)
    requires |tail| == 0 || (!IsDigit(tail[0]) && tail[0] != '.')
    ensures FloatCast(whole + tail) == DecimalValue(whole, [], ExponentOf(tail))
  {
    var t := whole + tail;
    assert t[0] == whole[0];
    FloatCastOfUnsigned(t);
    UnsignedFloatWholeExponent(whole, tail);
  }

  /** With no fraction digits, the decimal value is the digits scaled. */
  lemma WholeDecimalScaled(whole: string, exp: int)
    requires AllDigits(whole)
    ensures DecimalValue(whole, [], exp) == DigitsValue(whole) as real * Scale(exp)
  {
    assert whole + [] == whole;
    assert Pow10(0) == 1;
  }
}
