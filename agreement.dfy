/** How the three scalars relate: arrays are rejected everywhere, whatever
    `Int` accepts `Float` accepts with the same value, and an integer
    literal means the same number to all three. */
module Agreement {
  import opened Values
  import opened Decimal
  import IntType
  import FloatType
  import IDType

  /** No scalar represents an array, in either direction, and each says so
      with its array-specific message. */
  lemma ArraysRejectedEverywhere(items: seq<Value>, formatFloat: Double -> string)
    ensures IntType.Serialize(Array(items)) == Err(ArrayValue(Array(items)))
    ensures IntType.ParseValue(Array(items)) == Err(ArrayValue(Array(items)))
    ensures FloatType.Serialize(Array(items)) == Err(ArrayValue(Array(items)))
    ensures FloatType.ParseValue(Array(items)) == Err(ArrayValue(Array(items)))
    ensures IDType.Serialize(Array(items), formatFloat) == Err(ArrayValue(Array(items)))
    ensures IDType.ParseValue(Array(items)) == Err(ArrayValue(Array(items)))
  {
  }

  /** Every runtime value `Int` accepts, `Float` accepts with the same
      value. */
  lemma IntValuesAreFloatValues(v: Value, n: int)
    requires IntType.ParseValue(v) == Ok(n)
    ensures FloatType.ParseValue(v) == Ok(n as real)
  {
    IntType.CoerceAccepts(v, n);
    FloatType.CoerceAccepts(v, n as real);
  }

  /** Every literal `Int` accepts, `Float` reads as the same number, and
      `ID` keeps as the integer's decimal text. */
  lemma IntLiteralsAgree(node: Node, n: int)
    requires IntType.ParseLiteral(node) == Ok(n)
    ensures FloatType.ParseLiteral(node) == Ok(n as real)
    ensures IDType.ParseLiteral(node) == Ok(IntToString(n))
  {
    FloatType.IntLiteralAsFloat(n);
  }
}
