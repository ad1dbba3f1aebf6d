# GraphQL built-in scalars `Int`, `Float` and `ID` — coercion model

This project models how graphql-php coerces values for three built-in leaf
scalars of the GraphQL specification (October 2021): `Int` (section 3.5.1),
`Float` (section 3.5.2) and `ID` (section 3.5.5). Each scalar has three
operations:

- `serialize`: internal value → response value;
- `parseValue`: variable value → internal value;
- `parseLiteral`: literal node of the query text → internal value.

Each operation is a pure guard chain that returns a value or raises an error.
The model turns them into Dafny functions that return a `Result`, in these
modules:

- `Values` (`values.dfy`): the PHP values that reach a coercion, as a closed
  datatype (`Null`, `Bool`, 64-bit `Int`, `Float`, `Str`, `Array`, `Object`).
  A PHP float is a `Double`: `Finite(real)`, `PosInf`, `NegInf` or `NaN`. A
  string carries the verdict of `is_numeric` on it and the float `floatval`
  reads from it. An object carries the result of its `__toString`, if it
  has one. The module also holds the literal nodes and one error
  constructor per message.
- `Decimal` (`decimal.dfy`): decimal text of integers. It covers PHP's
  `(string)` of an int and the IntValue syntax of section 2.9.1. Its lemmas
  prove that printing and reading back are inverse.
- `PhpCast` (`php_cast.dfy`): the PHP conversions the scalars call. These
  are `floatval`, `intval` of a float (truncation toward zero), the `(int)`
  and `(float)` casts of literal text, and PHP's comparisons of an int with
  a float, NaN and the infinities included.
- `IntType`, `FloatType`, `IDType`: the three scalars, one module per source
  file.
- `Agreement`: lemmas that relate the three scalars.

Notes on behaviour the model states:

- `Int` checks the 32-bit range on the float value before it checks
  integrality. An out-of-range fraction such as 2147483647.5 therefore gets
  the range error. `+INF` and `-INF` also get the range error. `NaN` gets the
  non-integer error, because `intval(NAN)` is 0 and `0 != NAN` holds.
- `Int.parseLiteral` accepts exactly the printed in-range integers.
  `IntType.ParseLiteralSyntax` shows that this set is the IntValue syntax of
  section 2.9.1, minus `-0`. So `-0`, which the syntax allows, is rejected
  by the source, and the model does the same.
- The empty string gets a dedicated "(empty string)" wording. It shares its
  error kind with the generic rejection: `NonInteger` for `Int` and
  `NonNumeric` for `Float`. `Printed.EmptyStringNote` keeps the wording
  apart from the printed value.
- The source throws `Exception` for literal failures in `Int` and `Float`,
  and `Error` in `ID`. All three are one message-less `MalformedLiteral`.

## Model

| member | source | states |
|---|---|---|
| `Decimal.NatToString` | src/Type/Definition/IntType.php:115 | the decimal digits of a natural number: never empty, all digits, a leading `0` only for zero, one digit exactly below 10 |
| `Decimal.IntToString` | src/Type/Definition/IntType.php:115 | `(string)` of an int always has IntValue syntax and is never `-0` |
| `Decimal.NatToStringRoundTrip` | src/Type/Definition/IntType.php:114-115 | reading the printed digits of n gives n back |
| `Decimal.DigitsRoundTrip` | src/Type/Definition/IntType.php:114-115 | every digit string without a leading zero is the printed form of its value |
| `Decimal.IntToStringRoundTrip` | src/Type/Definition/IntType.php:114-115 | the integer denoted by the printed text of n is n |
| `Decimal.CanonicalRoundTrip` | src/Type/Definition/IntType.php:115 | every IntValue text except `-0` is the printed form of the integer it denotes |
| `Decimal.PrintedIffCanonical` | src/Type/Definition/IntType.php:115 | a text is the printed form of some integer iff it has IntValue syntax and is not `-0` |
| `Decimal.IntToStringInjective` | src/Type/Definition/IntType.php:115 | two integers have the same printed text iff they are equal |
| `PhpCast.TruncExact` | src/Type/Definition/IntType.php:78-81 | `intval` of a float equals the float iff the float is whole, and then it is that whole number |
| `PhpCast.IntCastRoundTrip` | src/Type/Definition/IntType.php:114 | `(int)` reads the printed text of every 64-bit integer back exactly |
| `PhpCast.FloatCastOfInteger` | src/Type/Definition/FloatType.php:88 | `(float)` reads the printed text of every integer as that integer |
| `PhpCast.FloatCastOfNegative` | src/Type/Definition/FloatType.php:88 | `(float)` of a text starting with `-` is the negation of its reading of the rest |
| `PhpCast.ExponentOfInteger` | src/Type/Definition/FloatType.php:88 | `(float)` reads an exponent part `e` or `E` followed by any printed integer, negative ones included, as that integer |
| `PhpCast.ExponentOfPlus` | src/Type/Definition/FloatType.php:88 | an exponent part with an explicit `+` sign reads as its digits |
| `PhpCast.FloatCastWholeExponent` | src/Type/Definition/FloatType.php:88 | `(float)` reads digits followed directly by an exponent part, with no `.`, as those digits scaled by the exponent |
| `PhpCast.UnsignedFloatParts` | src/Type/Definition/FloatType.php:88 | `(float)` reads a text `whole.frac` plus an exponent part as the mantissa scaled by the exponent |
| `IntType.Coerce` | src/Type/Definition/IntType.php:50-89 | an array is rejected first with the array error; then the empty string, with the dedicated wording; then any value neither numeric nor boolean, with the non-integer error; a success is in [MIN_INT, MAX_INT] and is the integer the input stands for |
| `IntType.Serialize` | src/Type/Definition/IntType.php:40-43 | a success is an in-range integer the input stands for |
| `IntType.ParseValue` | src/Type/Definition/IntType.php:98-101 | a success is an in-range integer the input stands for |
| `IntType.SameRule` | src/Type/Definition/IntType.php:40-43 | `serialize` and `parseValue` agree on every input |
| `IntType.ParseLiteral` | src/Type/Definition/IntType.php:111-122 | every failure is the message-less literal error; a success comes from an IntValue node whose text is the printed form of the in-range result |
| `IntType.CoerceAccepts` | src/Type/Definition/IntType.php:50-89 | the coercion returns n iff n is in range and the input stands for n: `true` is 1, `false` is 0, and an int, float or non-empty numeric string stands for its exact value |
| `IntType.RangeCheckedFirst` | src/Type/Definition/IntType.php:72-77 | a numeric input above MAX_INT or below MIN_INT gets the range error, whether it is fractional or infinite |
| `IntType.FractionRejected` | src/Type/Definition/IntType.php:78-86 | an in-range numeric input with a fractional part, or NaN, gets the non-integer error |
| `IntType.BooleansCoerce` | src/Type/Definition/IntType.php:64-71 | `true` coerces to 1 and `false` to 0 |
| `IntType.CoerceExamples` | src/Type/Definition/IntType.php:64-86 | 1.5 and NaN are non-integer; 2147483647.5 and the infinities are out of range; "12" is 12; "abc" is rejected |
| `IntType.IntegersInAndOutOfRange` | src/Type/Definition/IntType.php:24-25 | every in-range int is returned unchanged by both directions; every other int gets the range error |
| `IntType.SerializeAfterParseValue` | src/Type/Definition/IntType.php:40-43 | `serialize` returns the output of `parseValue` unchanged |
| `IntType.ParseLiteralExact` | src/Type/Definition/IntType.php:111-122 | `parseLiteral` returns n iff the node is an IntValue whose text is exactly the printed form of n and n is in range |
| `IntType.ParseLiteralSyntax` | src/Type/Definition/IntType.php:113-117 | an IntValue text is accepted iff it has the syntax of section 2.9.1, is not `-0`, and denotes an in-range integer |
| `IntType.LiteralRoundTrip` | src/Type/Definition/IntType.php:114-116 | the printed literal of every in-range integer reads back as that integer |
| `IntType.DigitLiteral` | src/Type/Definition/IntType.php:113-116 | every one-digit literal is that digit's value |
| `IntType.NonCanonicalRejected` | src/Type/Definition/IntType.php:113-121 | a text with a leading zero, a `+` sign or a negative zero (`007`, `+7`, `-0`, `-07`) fails with the message-less error |
| `IntType.LiteralAgreesWithValue` | src/Type/Definition/IntType.php:98-122 | for every int n, the literal of n and the runtime int n are accepted together, and then with the same value |
| `IntType.GuardIndependentOfCast` | src/Type/Definition/IntType.php:114-115 | with any cast that reads printed in-range integers back, the guard passes exactly the printed in-range integers |
| `FloatType.Coerce` | src/Type/Definition/FloatType.php:39-63 | an array is rejected first with the array error; the empty string with the dedicated wording; every other failure is the non-numeric error; a success is the finite number the input stands for |
| `FloatType.Serialize` | src/Type/Definition/FloatType.php:34-37 | a success is the finite number the input stands for |
| `FloatType.ParseValue` | src/Type/Definition/FloatType.php:72-75 | a success is the finite number the input stands for |
| `FloatType.SameRule` | src/Type/Definition/FloatType.php:34-37 | `serialize` and `parseValue` agree on every input |
| `FloatType.ParseLiteral` | src/Type/Definition/FloatType.php:85-93 | succeeds iff the node is a Float or Int node; every failure is the message-less literal error |
| `FloatType.CoerceAccepts` | src/Type/Definition/FloatType.php:39-63 | the coercion returns x iff the input stands for the finite number x: booleans are 1.0 and 0.0, ints, finite floats and non-empty numeric strings their value |
| `FloatType.NonFiniteRejected` | src/Type/Definition/FloatType.php:55-60 | NaN and the infinities, as floats or numeric strings, get the non-numeric error |
| `FloatType.NonNumericRejected` | src/Type/Definition/FloatType.php:53-60 | null, objects and non-numeric strings get the non-numeric error |
| `FloatType.BooleansCoerce` | src/Type/Definition/FloatType.php:53 | `true` coerces to 1.0 and `false` to 0.0 |
| `FloatType.FloatValDenotes` | src/Type/Definition/FloatType.php:53 | for a value the coercion converts, `floatval` gives the finite number x exactly when the value stands for x |
| `FloatType.SerializeAfterParseValue` | src/Type/Definition/FloatType.php:62 | `serialize` returns the output of `parseValue` unchanged |
| `FloatType.IntLiteralAsFloat` | src/Type/Definition/FloatType.php:87-88 | the IntValue literal of any integer n reads as n |
| `FloatType.DecimalLiteral` | src/Type/Definition/FloatType.php:87-88 | a Float literal `whole.frac`, with or without an exponent part, reads as the decimal number `whole.frac` scaled by ten to the exponent |
| `FloatType.FractionExponentLiteral` | src/Type/Definition/FloatType.php:87-88 | a Float literal `whole.frac` followed by `e` or `E` and any integer reads as `whole.frac` times ten to that integer |
| `FloatType.ExponentLiteral` | src/Type/Definition/FloatType.php:87-88 | a Float literal of digits and an exponent part with no fraction (`1e5`, `2E-3`) reads as the digits times ten to the exponent |
| `FloatType.NegativeLiteral` | src/Type/Definition/FloatType.php:87-88 | a literal with a leading `-` is accepted, like the text after it, and reads as the negation of that text's value |
| `IDType.Serialize` | src/Type/Definition/IDType.php:38-59 | fails iff the value is an array, with the array error, or an object without `__toString`, with the non-scalar error |
| `IDType.ParseValue` | src/Type/Definition/IDType.php:66-78 | succeeds iff the value is a string or an int; an array gets the array error, anything else "cannot represent value as ID" |
| `IDType.ParseLiteral` | src/Type/Definition/IDType.php:87-95 | succeeds iff the node is a String or Int node, and returns its raw text verbatim; every failure is the message-less literal error |
| `IDType.SerializeOutputs` | src/Type/Definition/IDType.php:40-58 | `true`, `false` and `null` become "true", "false" and "null"; strings are unchanged; ints become their decimal text; floats become their PHP text; stringable objects become their string |
| `IDType.ParseValueNarrower` | src/Type/Definition/IDType.php:66-78 | wherever `parseValue` succeeds `serialize` gives the same string; booleans, null, floats and stringable objects are serialized but not parsed |
| `IDType.SerializeAfterParseValue` | src/Type/Definition/IDType.php:58 | the string `parseValue` produces goes through `serialize` and `parseValue` unchanged |
| `IDType.IntIdsDistinct` | src/Type/Definition/IDType.php:68-69 | two ints give the same identifier iff they are equal |
| `IDType.LiteralAgreesWithValue` | src/Type/Definition/IDType.php:89-91 | the literal of an int and the runtime int give the same identifier |
| `IDType.Examples` | src/Type/Definition/IDType.php:26-29 | the inputs the type's description names: the string `"4"` and the int `4` are both accepted as the identifier "4", and `serialize(4)` is "4"; the float 4.5 is not an input identifier |
| `Agreement.ArraysRejectedEverywhere` | src/Type/Definition/IntType.php:52-56 | each scalar rejects an array in both directions with its array error: `Int` at IntType.php:52-56, `Float` at FloatType.php:41-45, `ID` at IDType.php:49-53 and IDType.php:71-75 |
| `Agreement.IntValuesAreFloatValues` | src/Type/Definition/FloatType.php:39-63 | every runtime value `Int` accepts as n, `Float` accepts as n |
| `Agreement.IntLiteralsAgree` | src/Type/Definition/FloatType.php:85-93 | every literal `Int` accepts as n, `Float` reads as n and `ID` keeps as the decimal text of n |

## Left out

- `Utils::printSafe` is not part of this model. An error carries the
  rejected value itself in place of its printed text.
- IEEE-754 rounding: finite floats are exact reals. The model therefore
  rejects some inputs that PHP rounds into an accepted value; for example
  the numeric string "2147483647.0000000001" rounds to 2147483647.0 in PHP.
  `floatval` of a 64-bit int is exact here. For `Int` this cannot change the
  outcome: rounding is monotone and 2^31 is representable.
- `FloatType.ParseLiteral` reads literal text over the reals. In PHP,
  `(float)` of text such as `1e999` overflows to INF, and `parseLiteral`
  returns it unchecked. The model returns a finite real instead.
- `is_numeric`'s grammar is not modelled. Each string carries its
  classification and its float value.
- `PhpCast.IntCast` reads only the sign and the leading digits of the text.
  PHP reads `1e3` as 1000 and `1.9e3` as 1900, while the model reads both
  as 1. `IntType.GuardIndependentOfCast` shows that this cannot change what
  `parseLiteral` accepts.
- PHP's float-to-string formatting, used by `ID` `serialize` on floats, is a
  parameter (`formatFloat`).
- PHP resources and closures are not among the modelled values.
- The `name` and `description` metadata, the unused `$variables` parameter,
  the `ScalarType` base class, and the lexer and syntax-tree construction are
  not modelled.
- tests/Executor/TestClasses.php is not part of this model: it holds test
  fixtures with no coercion logic.
