/** The built-in `ID` scalar: an opaque identifier, sent as a string
    (section 3.5.5 of the GraphQL specification, October 2021). Output
    accepts more shapes than input, since identifiers are often produced
    as integers but always transmitted as strings. */
module IDType {
  import opened Values
  import opened Decimal

  /** `(string) $value` for a scalar or a stringable object. PHP's text for
      a float is not part of this model: `formatFloat` supplies it. */
  function StringCast(v: Value, formatFloat: Double -> string): string
    requires IsScalar(v) || (v.Object? && v.toString.Some?)
  {
    match v
    case Str(s, _) => s
    case Int(i) => IntToString(i)
    case Float(d) => formatFloat(d)
    case Bool(b) => if b then "1" else ""
    case Object(toString) => toString.value
  }

  /** `serialize`: `true`, `false` and `null` become their names; arrays
      and objects without `__toString` are rejected; everything else is
      cast to a string. */
  function Serialize(v: Value, formatFloat: Double -> string): (r: Result<string>)
    ensures r.Err? <==> v.Array? || (v.Object? && v.toString.None?)
    ensures v.Array? ==> r == Err(ArrayValue(v))
    ensures v.Object? && v.toString.None? ==> r == Err(NonScalar(v))
  {
    if v == Bool(true) then Ok("true")
    else if v == Bool(false) then Ok("false")
    else if v.Null? then Ok("null")
    else if v.Array? then Err(ArrayValue(v))
    else if !IsScalar(v) && (!v.Object? || v.toString.None?) then Err(NonScalar(v))
    else Ok(StringCast(v, formatFloat))
  }

  /** `parseValue`: only strings (unchanged) and ints (as decimal text). */
  function ParseValue(v: Value): (r: Result<string>)
    ensures r.Ok? <==> v.Str? || v.Int?
    ensures v.Array? ==> r == Err(ArrayValue(v))
    ensures !v.Array? && r.Err? ==> r.error == NotAnId(v)
  {
    if v.Str? || v.Int? then
      Ok(if v.Str? then v.s else IntToString(v.i))
    else if v.Array? then Err(ArrayValue(v))
    else Err(NotAnId(v))
  }

  /** `parseLiteral`: the raw text of a StringValue or IntValue node, with
      no numeric reading; every other node fails without a message. */
  function ParseLiteral(node: Node): (r: Result<string>)
    ensures r.Ok? <==> node.StringLit? || node.IntLit?
    ensures r.Ok? ==> r.value == node.text
    ensures r.Err? ==> r.error == MalformedLiteral
  {
    if node.StringLit? || node.IntLit? then Ok(node.text)
    else Err(MalformedLiteral)
  }

  /** What `serialize` produces for each shape it accepts. */
  lemma SerializeOutputs(v: Value, formatFloat: Double -> string)
    ensures v == Bool(true) ==> Serialize(v, formatFloat) == Ok("true")
    ensures v == Bool(false) ==> Serialize(v, formatFloat) == Ok("false")
    ensures v == Null ==> Serialize(v, formatFloat) == Ok("null")
    ensures v.Str? ==> Serialize(v, formatFloat) == Ok(v.s)
    ensures v.Int? ==> Serialize(v, formatFloat) == Ok(IntToString(v.i))
    ensures v.Object? && v.toString.Some? ==> Serialize(v, formatFloat) == Ok(v.toString.value)
    ensures v.Float? ==> Serialize(v, formatFloat) == Ok(formatFloat(v.d))
  {
  }

  /** `parseValue` accepts strictly less than `serialize`: wherever it
      succeeds, `serialize` gives the same string, and booleans, null,
      floats and stringable objects are serialized but not parsed. */
  lemma ParseValueNarrower(v: Value, formatFloat: Double -> string)
    ensures ParseValue(v).Ok? ==> Serialize(v, formatFloat) == ParseValue(v)
    ensures (v.Bool? || v.Null? || v.Float? || (v.Object? && v.toString.Some?))
              ==> Serialize(v, formatFloat).Ok? && ParseValue(v) == Err(NotAnId(v))
  {
  }

  /** The string `parseValue` produces is itself accepted by both
      directions unchanged, whatever `is_numeric` says of it. */
  lemma SerializeAfterParseValue(v: Value, num: Option<Double>, formatFloat: Double -> string)
    requires ParseValue(v).Ok?
    ensures Serialize(Str(ParseValue(v).value, num), formatFloat) == ParseValue(v)
    ensures ParseValue(Str(ParseValue(v).value, num)) == ParseValue(v)
  {
  }

  /** Distinct ints give distinct identifiers. */
  lemma IntIdsDistinct(a: I64, b: I64)
    ensures ParseValue(Int(a)) == ParseValue(Int(b)) <==> a == b
  {
    IntToStringInjective(a, b);
  }

  /** An integer reaches the same identifier as a PHP int at runtime or as
      its literal in query text. */
  lemma LiteralAgreesWithValue(n: I64)
    ensures ParseLiteral(IntLit(IntToString(n))) == ParseValue(Int(n))
  {
  }

  /** The inputs the type's description names: the string `"4"` and the
      integer `4` are both accepted as the identifier "4", while a float
      such as `4.5` is not an input identifier. */
  lemma Examples(num: Option<Double>, formatFloat: Double -> string)
    ensures Serialize(Int(4), formatFloat) == Ok("4")
    ensures ParseValue(Str("4", num)) == Ok("4")
    ensures ParseValue(Int(4)) == Ok("4")
    ensures ParseValue(Float(Finite(4.5))) == Err(NotAnId(Float(Finite(4.5))))
  {
    assert IntToString(4) == "4";
  }
}
