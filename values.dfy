/** PHP values as they reach the built-in scalar coercions, the literal
    nodes of the query language's syntax tree, and the coercion errors.

    PHP decides a value's shape with `is_array`, `is_bool`, `is_numeric` and
    friends; here that shape is a closed datatype, and every coercion
    pattern-matches over it. */
module Values {

  /** PHP integers are 64-bit signed. */
  const I64_MIN: int := -0x8000_0000_0000_0000
  const I64_MAX: int := 0x7fff_ffff_ffff_ffff

  type I64 = x: int | I64_MIN <= x <= I64_MAX

  datatype Option<+T> = None | Some(value: T)

  /** A PHP float. Finite values are exact reals (IEEE-754 rounding is not
      modelled); the three special values are kept apart because PHP's
      comparisons treat them differently. */
  datatype Double = Finite(r: real) | PosInf | NegInf | NaN

  /** `is_finite` */
  predicate IsFinite(d: Double) { d.Finite? }

  /** `is_nan` */
  predicate IsNan(d: Double) { d.NaN? }

  /** A PHP value. A string carries the verdict of `is_numeric` on it and,
      when it is numeric, the float that `floatval` reads from it. An object
      carries the result of its `__toString` method, if it has one. */
  datatype Value =
    | Null
    | Bool(b: bool)
    | Int(i: I64)
    | Float(d: Double)
    | Str(s: string, numeric: Option<Double>)
    | Array(items: seq<Value>)
    | Object(toString: Option<string>)

  /** `is_numeric`: ints, floats (the special values included) and numeric strings. */
  predicate IsNumeric(v: Value) {
    v.Int? || v.Float? || (v.Str? && v.numeric.Some?)
  }

  /** `is_scalar`: ints, floats, strings and booleans. */
  predicate IsScalar(v: Value) {
    v.Int? || v.Float? || v.Str? || v.Bool?
  }

  /** `$value === ''` */
  predicate IsEmptyString(v: Value) {
    v.Str? && v.s == ""
  }

  /** A value-literal node of the syntax tree, with the raw text the lexer
      read for the three kinds the scalars look at. */
  datatype Node =
    | IntLit(text: string)
    | FloatLit(text: string)
    | StringLit(text: string)
    | BooleanLit(b: bool)
    | NullLit
    | EnumLit(name: string)
    | ListLit
    | ObjectLit
    | VariableRef(name: string)

  /** What an error message shows of the rejected value: the dedicated
      "(empty string)" wording, or the value as the safe printer renders it
      (the printer itself is not part of this model). */
  datatype Printed = EmptyStringNote | PrintSafe(v: Value)

  /** The errors the three scalars raise, one constructor per message. */
  datatype Error =
    | ArrayValue(shown: Value)        // "<Type> cannot represent an array value: ..."
    | NonInteger(printed: Printed)    // "Int cannot represent non-integer value: ..."
    | OutOfRange(shown: Value)        // "Int cannot represent non 32-bit signed integer value: ..."
    | NonNumeric(printed: Printed)    // "Float cannot represent non numeric value: ..."
    | NonScalar(shown: Value)         // "ID cannot represent non scalar value: ..."
    | NotAnId(shown: Value)           // "Cannot represent value as ID: ..."
    | MalformedLiteral                // message-less failure of a literal coercion

  datatype Result<+T> = Ok(value: T) | Err(error: Error)
}
