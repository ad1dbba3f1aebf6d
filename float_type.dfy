/** The built-in `Float` scalar: a finite double (section 3.5.2 of the
    GraphQL specification, October 2021). */
module FloatType {
  import opened Values
  import opened Decimal
  import opened PhpCast

  /** The finite number a runtime value stands for, case by case: `true` is
      1.0, `false` is 0.0, an int is its value, and a finite float or a
      non-empty numeric string with a finite value is that value. */
  predicate DenotesReal(v: Value, x: real) {
    match v
    case Bool(b) => x == (if b then 1.0 else 0.0)
    case Int(i) => x == i as real
    case Float(d) => d == Finite(x)
    case Str(s, num) => s != "" && num == Some(Finite(x))
    case _ => false
  }

  /** `coerceFloat`, shared by `serialize` and `parseValue`: the array
      check, then the empty string, then numeric-or-boolean converted to a
      float that must be finite and not NaN. */
  function Coerce(v: Value): (r: Result<real>)
    ensures v.Array? ==> r == Err(ArrayValue(v))
    ensures IsEmptyString(v) ==> r == Err(NonNumeric(EmptyStringNote))
    ensures !v.Array? && !IsEmptyString(v) && r.Err? ==> r.error == NonNumeric(PrintSafe(v))
    ensures r.Ok? ==> DenotesReal(v, r.value)
  {
    if v.Array? then Err(ArrayValue(v))
    else if IsEmptyString(v) then Err(NonNumeric(EmptyStringNote))
    else
      var float := if IsNumeric(v) || v.Bool? then Some(FloatVal(v)) else None;
      if float.None? || !IsFinite(float.value) || IsNan(float.value) then Err(NonNumeric(PrintSafe(v)))
      else Ok(float.value.r)
  }

  /** `serialize`: the response direction. */
  function Serialize(v: Value): (r: Result<real>)
    ensures r.Ok? ==> DenotesReal(v, r.value)
  {
    Coerce(v)
  }

  /** `parseValue`: the variable direction, by the same rule. */
  function ParseValue(v: Value): (r: Result<real>)
    ensures r.Ok? ==> DenotesReal(v, r.value)
  {
    Coerce(v)
  }

  /** `parseLiteral`: FloatValue and IntValue nodes are read with `(float)`;
      every other node fails without a message. */
  function ParseLiteral(node: Node): (r: Result<real>)
    ensures r.Ok? <==> node.FloatLit? || node.IntLit?
    ensures r.Err? ==> r.error == MalformedLiteral
  {
    if node.FloatLit? || node.IntLit? then Ok(FloatCast(node.text))
    else Err(MalformedLiteral)
  }

  /** `serialize` and `parseValue` are one rule. */
  lemma SameRule(v: Value)
    ensures Serialize(v) == ParseValue(v)
  {
  }

  /** A value is accepted exactly when it stands for a finite number, and
      the result is that number. */
  lemma CoerceAccepts(v: Value, x: real)
    ensures Coerce(v) == Ok(x) <==> DenotesReal(v, x)
  {
  }

  /** NaN and the infinities, as floats or as numeric strings, are rejected
      like non-numeric values. */
  lemma NonFiniteRejected(v: Value)
    requires (v.Float? && !v.d.Finite?) || (v.Str? && v.s != "" && v.numeric.Some? && !v.numeric.value.Finite?)
    ensures Coerce(v) == Err(NonNumeric(PrintSafe(v)))
  {
  }

  /** Values that are neither numeric nor boolean are rejected. */
  lemma NonNumericRejected(v: Value)
    requires v.Null? || v.Object? || (v.Str? && v.s != "" && v.numeric.None?)
    ensures Coerce(v) == Err(NonNumeric(PrintSafe(v)))
  {
  }

  /** `true` coerces to 1.0 and `false` to 0.0. */
  lemma BooleansCoerce(b: bool)
    ensures Coerce(Bool(b)) == Ok(if b then 1.0 else 0.0)
  {
  }

  /** `floatval` of a value the coercion converts is the finite number x
      exactly when the value stands for x. */
  lemma FloatValDenotes(v: Value, x: real)
    requires (IsNumeric(v) || v.Bool?) && !IsEmptyString(v)
    ensures FloatVal(v) == Finite(x) <==> DenotesReal(v, x)
  {
  }

  /** The output of `parseValue` survives `serialize` unchanged. */
  lemma SerializeAfterParseValue(v: Value)
    requires ParseValue(v).Ok?
    ensures Serialize(Float(Finite(ParseValue(v).value))) == ParseValue(v)
  {
  }

  /** An integer literal is read as the integer's value. */
  lemma IntLiteralAsFloat(n: int)
    ensures ParseLiteral(IntLit(IntToString(n))) == Ok(n as real)
  {
    FloatCastOfInteger(n);
  }

  /** A Float literal `whole.frac`, optionally followed by an exponent
      part, reads as its mantissa scaled by the exponent. */
  lemma DecimalLiteral(whole: string, frac: string, tail: string)
    requires |whole| > 0 && AllDigits(whole) && AllDigits(frac)
    requires |tail| == 0 || !IsDigit(tail[0])
    ensures ParseLiteral(FloatLit(whole + "." + frac + tail)) == Ok(DecimalValue(whole, frac, ExponentOf(tail)))
  {
    var t := whole + "." + frac + tail;
    assert t[0] == whole[0];
    FloatCastOfUnsigned(t);
    UnsignedFloatParts(whole, frac, tail);
  }

  /** A Float literal `whole.frac` followed by an exponent part `e` or `E`
      and a (possibly negative) integer reads as `whole.frac` times ten to
      that integer. */
  lemma FractionExponentLiteral(whole: string, frac: string, e: char, n: int)
    requires |whole| > 0 && AllDigits(whole) && AllDigits(frac)
    requires e == 'e' || e == 'E'
    ensures ParseLiteral(FloatLit(whole + "." + frac + [e] + IntToString(n))) == Ok(DecimalValue(whole, frac, n))
  {
    var tail := [e] + IntToString(n);
    assert whole + "." + frac + [e] + IntToString(n) == whole + "." + frac + tail;
    DecimalLiteral(whole, frac, tail);
    ExponentOfInteger(e, n);
  }

  /** A Float literal made of an integer part and an exponent part, with no
      fraction (`1e5`, `2E-3`), reads as the digits times ten to the
      exponent. */
  lemma ExponentLiteral(whole: string, e: char, n: int)
    requires |whole| > 0 && AllDigits(whole)
    requires e == 'e' || e == 'E'
    ensures ParseLiteral(FloatLit(whole + [e] + IntToString(n))) == Ok(DigitsValue(whole) as real * Scale(n))
  {
    var tail := [e] + IntToString(n);
    assert whole + [e] + IntToString(n) == whole + tail;
    FloatCastWholeExponent(whole, tail);
    ExponentOfInteger(e, n);
    WholeDecimalScaled(whole, n);
  }

  /** A Float literal with a leading `-` reads as the negation of the same
      literal without it. */
  lemma NegativeLiteral(t: string)
    requires |t| >= 2 && t[0] == '-' && IsDigit(t[1])
    ensures ParseLiteral(FloatLit(t)).Ok? && ParseLiteral(FloatLit(t[1..])).Ok?
    ensures ParseLiteral(FloatLit(t)).value == -ParseLiteral(FloatLit(t[1..])).value
  {
    FloatCastOfNegative(t);
    FloatCastOfUnsigned(t[1..]);
  }
}
