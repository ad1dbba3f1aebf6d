/** The built-in `Int` scalar: a 32-bit signed integer (section 3.5.1 of
    the GraphQL specification, October 2021). */
module IntType {
  import opened Values
  import opened Decimal
  import opened PhpCast

  const MAX_INT: int := 2147483647
  const MIN_INT: int := -2147483648

  predicate InRange(n: int) { MIN_INT <= n <= MAX_INT }

  /** The integer a runtime value stands for, stated case by case and
      independently of how the coercion computes it: `true` is 1, `false`
      is 0, an int is itself, and a float or non-empty numeric string
      stands for `n` when its value is exactly `n`. */
  predicate DenotesInteger(v: Value, n: int) {
    match v
    case Bool(b) => n == (if b then 1 else 0)
    case Int(i) => i == n
    case Float(d) => d == Finite(n as real)
    case Str(s, num) => s != "" && num == Some(Finite(n as real))
    case _ => false
  }

  /** `coerceInt`, shared by `serialize` and `parseValue`: the array check,
      then the empty string, then numeric-or-boolean, then the 32-bit range
      on the float value, then integrality. */
  function Coerce(v: Value): (r: Result<int>)
    ensures v.Array? ==> r == Err(ArrayValue(v))
    ensures IsEmptyString(v) ==> r == Err(NonInteger(EmptyStringNote))
    ensures !v.Array? && !IsEmptyString(v) && !IsNumeric(v) && !v.Bool? ==> r == Err(NonInteger(PrintSafe(v)))
    ensures r.Ok? ==> InRange(r.value) && DenotesInteger(v, r.value)
  {
    if v.Array? then Err(ArrayValue(v))
    else if IsEmptyString(v) then Err(NonInteger(EmptyStringNote))
    else if !IsNumeric(v) && !v.Bool? then Err(NonInteger(PrintSafe(v)))
    else
      var num := FloatVal(v);
      if Above(num, MAX_INT) || Below(num, MIN_INT) then Err(OutOfRange(v))
      else
        var n := IntVal(num);
        if LooseNotEqual(n, num) then Err(NonInteger(PrintSafe(v)))
        else
          assert num.Finite? && n as real == num.r;
          Ok(n)
  }

  /** `serialize`: the response direction. */
  function Serialize(v: Value): (r: Result<int>)
    ensures r.Ok? ==> InRange(r.value) && DenotesInteger(v, r.value)
  {
    Coerce(v)
  }

  /** `parseValue`: the variable direction, by the same rule. */
  function ParseValue(v: Value): (r: Result<int>)
    ensures r.Ok? ==> InRange(r.value) && DenotesInteger(v, r.value)
  {
    Coerce(v)
  }

  /** `parseLiteral`: an IntValue node whose text is exactly the `(string)`
      of its `(int)` cast, in range; every other node fails without a
      message. */
  function ParseLiteral(node: Node): (r: Result<int>)
    ensures r.Err? ==> r.error == MalformedLiteral
    ensures r.Ok? ==> node.IntLit? && InRange(r.value) && node.text == IntToString(r.value)
  {
    if node.IntLit? then
      var val := IntCast(node.text);
      if node.text == IntToString(val) && MIN_INT <= val && val <= MAX_INT then Ok(val)
      else Err(MalformedLiteral)
    else Err(MalformedLiteral)
  }

  /** `serialize` and `parseValue` are one rule. */
  lemma SameRule(v: Value)
    ensures Serialize(v) == ParseValue(v)
  {
  }

  /** A value is accepted exactly when it stands for an in-range integer,
      and the result is that integer. */
  lemma CoerceAccepts(v: Value, n: int)
    ensures Coerce(v) == Ok(n) <==> InRange(n) && DenotesInteger(v, n)
  {
    match v
    case Float(d) =>
      if d.Finite? {
        TruncExact(d.r);
      }
    case Str(s, num) =>
      if s != "" && num.Some? && num.value.Finite? {
        TruncExact(num.value.r);
      }
    case Int(i) =>
      TruncExact(i as real);
    case _ =>
  }

  /** The range check runs before the integrality check: a numeric value
      beyond either bound, fractional or infinite, gets the range error. */
  lemma RangeCheckedFirst(v: Value)
    requires IsNumeric(v) && !IsEmptyString(v)
    requires Above(FloatVal(v), MAX_INT) || Below(FloatVal(v), MIN_INT)
    ensures Coerce(v) == Err(OutOfRange(v))
  {
  }

  /** An in-range value with a fractional part, or NaN, is rejected as
      non-integer. */
  lemma FractionRejected(v: Value)
    requires IsNumeric(v) && !IsEmptyString(v)
    requires !Above(FloatVal(v), MAX_INT) && !Below(FloatVal(v), MIN_INT)
    requires FloatVal(v).Finite? ==> !IsIntegral(FloatVal(v).r)
    ensures Coerce(v) == Err(NonInteger(PrintSafe(v)))
  {
    if FloatVal(v).Finite? {
      TruncExact(FloatVal(v).r);
    }
  }

  /** `true` coerces to 1 and `false` to 0. */
  lemma BooleansCoerce(b: bool)
    ensures Coerce(Bool(b)) == Ok(if b then 1 else 0)
  {
    CoerceAccepts(Bool(b), if b then 1 else 0);
  }

  /** Every PHP int in range comes back unchanged; every other fails with
      the range error. */
  lemma IntegersInAndOutOfRange(n: I64)
    ensures InRange(n) ==> Serialize(Int(n)) == Ok(n) && ParseValue(Int(n)) == Ok(n)
    ensures !InRange(n) ==> Serialize(Int(n)) == Err(OutOfRange(Int(n))) && ParseValue(Int(n)) == Err(OutOfRange(Int(n)))
  {
    if InRange(n) {
      CoerceAccepts(Int(n), n);
    }
  }

  /** Typical runtime inputs: a fraction, the special floats, a numeric
      string. */
  lemma CoerceExamples()
    ensures Coerce(Float(Finite(1.5))) == Err(NonInteger(PrintSafe(Float(Finite(1.5)))))
    ensures Coerce(Float(Finite(2147483647.5))) == Err(OutOfRange(Float(Finite(2147483647.5))))
    ensures Coerce(Float(PosInf)) == Err(OutOfRange(Float(PosInf)))
    ensures Coerce(Float(NegInf)) == Err(OutOfRange(Float(NegInf)))
    ensures Coerce(Float(NaN)) == Err(NonInteger(PrintSafe(Float(NaN))))
    ensures Coerce(Str("12", Some(Finite(12.0)))) == Ok(12)
    ensures Coerce(Str("abc", None)) == Err(NonInteger(PrintSafe(Str("abc", None))))
  {
    FractionRejected(Float(Finite(1.5)));
    CoerceAccepts(Str("12", Some(Finite(12.0))), 12);
  }

  /** The output of `parseValue` survives `serialize` unchanged. */
  lemma SerializeAfterParseValue(v: Value)
    requires ParseValue(v).Ok?
    ensures Serialize(Int(ParseValue(v).value)) == ParseValue(v)
  {
    IntegersInAndOutOfRange(ParseValue(v).value);
  }

  /** A literal is accepted exactly when its text is the printed form of an
      in-range integer, and then it denotes that integer. */
  lemma ParseLiteralExact(node: Node, n: int)
    ensures ParseLiteral(node) == Ok(n) <==> node == IntLit(IntToString(n)) && InRange(n)
  {
    if node == IntLit(IntToString(n)) && InRange(n) {
      IntCastRoundTrip(n);
    }
  }

  /** Accepted literal texts are the IntValue syntax of section 2.9.1 in
      range, less `-0`: no leading zeros, no `+` sign. */
  lemma ParseLiteralSyntax(t: string)
    ensures ParseLiteral(IntLit(t)).Ok? <==> IntValueSyntax(t) && t != "-0" && InRange(IntValueOf(t))
  {
    if IntValueSyntax(t) && t != "-0" && InRange(IntValueOf(t)) {
      CanonicalRoundTrip(t);
      ParseLiteralExact(IntLit(t), IntValueOf(t));
    }
    if ParseLiteral(IntLit(t)).Ok? {
      IntToStringRoundTrip(ParseLiteral(IntLit(t)).value);
    }
  }

  /** The literal of every in-range integer reads back as that integer. */
  lemma LiteralRoundTrip(n: int)
    requires InRange(n)
    ensures ParseLiteral(IntLit(IntToString(n))) == Ok(n)
  {
    ParseLiteralExact(IntLit(IntToString(n)), n);
  }

  /** A one-digit literal is that digit's value. */
  lemma DigitLiteral(d: nat)
    requires d < 10
    ensures ParseLiteral(IntLit([DigitChar(d)])) == Ok(d)
  {
    assert IntToString(d) == [DigitChar(d)];
    LiteralRoundTrip(d);
  }

  /** Texts with a leading zero, a `+` sign or a negative zero are not
      printed integers, so they fail: `007`, `+7`, `-0`, `-07`. */
  lemma NonCanonicalRejected(t: string)
    requires || (|t| >= 2 && t[0] == '0')
             || (|t| > 0 && t[0] == '+')
             || (|t| >= 2 && t[0] == '-' && t[1] == '0')
    ensures ParseLiteral(IntLit(t)) == Err(MalformedLiteral)
  {
    if |t| >= 2 && t[0] == '-' && t[1] == '0' && |t| == 2 {
      assert t == "-0";
    }
  }

  /** The literal and the runtime paths agree on integers: the literal of
      `n` and the PHP int `n` are accepted together and give the same value. */
  lemma LiteralAgreesWithValue(n: I64)
    ensures ParseLiteral(IntLit(IntToString(n))).Ok? <==> ParseValue(Int(n)).Ok?
    ensures ParseValue(Int(n)).Ok? ==> ParseLiteral(IntLit(IntToString(n))) == ParseValue(Int(n))
  {
    var r := ParseLiteral(IntLit(IntToString(n)));
    if r.Ok? {
      ParseLiteralExact(IntLit(IntToString(n)), r.value);
      IntToStringInjective(n, r.value);
    }
    ParseLiteralExact(IntLit(IntToString(n)), n);
    IntegersInAndOutOfRange(n);
  }

  /** The literal guard depends on the `(int)` cast only through its
      reading printed in-range integers back: with any such cast, the texts
      that pass are exactly the printed in-range integers. */
  lemma GuardIndependentOfCast(cast: string -> int, t: string)
    requires forall n :: InRange(n) ==> cast(IntToString(n)) == n
    ensures (t == IntToString(cast(t)) && InRange(cast(t))) <==> (exists n :: InRange(n) && t == IntToString(n))
  {
  }
}
