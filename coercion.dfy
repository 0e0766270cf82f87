/** The type-name dispatch both SerDe classes apply to a column's text: the same if/else chain
    of equalsIgnoreCase tests in JsonSerde.deserialize and JsonSerDe.deserialize. */
module Coercion {
  import opened Wrappers
  import opened JavaStrings
  import opened JavaNumbers

  // Hive's serde Constants for the primitive type names.
  const DOUBLE_TYPE_NAME: string := "double"
  const BIGINT_TYPE_NAME: string := "bigint"
  const INT_TYPE_NAME: string := "int"
  const TINYINT_TYPE_NAME: string := "tinyint"
  const FLOAT_TYPE_NAME: string := "float"
  const BOOLEAN_TYPE_NAME: string := "boolean"

  /** What a row slot holds: Java null or one of the boxed values the chain creates.
      Double and Float keep the literal they were parsed from. */
  datatype Value =
    | Null
    | Str(text: string)
    | Bool(truth: bool)
    | Long(long: int)
    | Integer(int32: int)
    | Byte(int8: int)
    | Double(literal: string)
    | Float(literal: string)

  /** The chain of JsonSerde.java:275-290: the first type name equal to typeName ignoring case
      picks the conversion; None is a NumberFormatException, which nothing catches. */
  function Coerce(typeName: string, columnValue: string): (r: Option<Value>)
    ensures r != Some(Null)
    ensures r.Some? && r.value.Long? ==> LONG_MIN <= r.value.long <= LONG_MAX
    ensures r.Some? && r.value.Integer? ==> INT_MIN <= r.value.int32 <= INT_MAX
    ensures r.Some? && r.value.Byte? ==> BYTE_MIN <= r.value.int8 <= BYTE_MAX
  {
    if EqualsIgnoreCase(typeName, DOUBLE_TYPE_NAME) then
      if FloatingLiteral(columnValue) then Some(Double(columnValue)) else None
    else if EqualsIgnoreCase(typeName, BIGINT_TYPE_NAME) then
      match ParseLong(columnValue)
      case Some(n) => Some(Long(n))
      case None => None
    else if EqualsIgnoreCase(typeName, INT_TYPE_NAME) then
      match ParseInt(columnValue)
      case Some(n) => Some(Integer(n))
      case None => None
    else if EqualsIgnoreCase(typeName, TINYINT_TYPE_NAME) then
      match ParseByte(columnValue)
      case Some(n) => Some(Byte(n))
      case None => None
    else if EqualsIgnoreCase(typeName, FLOAT_TYPE_NAME) then
      if FloatingLiteral(columnValue) then Some(Float(columnValue)) else None
    else if EqualsIgnoreCase(typeName, BOOLEAN_TYPE_NAME) then
      Some(Bool(BooleanValueOf(columnValue)))
    else
      Some(Str(columnValue))
  }

  /** The declared scalar type as a closed enumeration; every other name means text. */
  datatype ScalarType = DoubleType | BigintType | IntType | TinyintType | FloatType | BooleanType | TextType

  function DeclaredType(typeName: string): (r: ScalarType)
  {
    match ToLower(typeName)
    case "double" => DoubleType
    case "bigint" => BigintType
    case "int" => IntType
    case "tinyint" => TinyintType
    case "float" => FloatType
    case "boolean" => BooleanType
    case _ => TextType
  }

  /** The conversion for each declared type, as a match instead of a chain. */
  function CoerceTo(t: ScalarType, text: string): (r: Option<Value>)
  {
    match t
    case DoubleType => if FloatingLiteral(text) then Some(Double(text)) else None
    case BigintType => if ParseLong(text).Some? then Some(Long(ParseLong(text).value)) else None
    case IntType => if ParseInt(text).Some? then Some(Integer(ParseInt(text).value)) else None
    case TinyintType => if ParseByte(text).Some? then Some(Byte(ParseByte(text).value)) else None
    case FloatType => if FloatingLiteral(text) then Some(Float(text)) else None
    case BooleanType => Some(Bool(ToLower(text) == "true"))
    case TextType => Some(Str(text))
  }

  lemma MatchesTypeName(typeName: string, name: string)
    requires IsLowerCase(name)
    ensures EqualsIgnoreCase(typeName, name) <==> ToLower(typeName) == name
  {
    EqualsIgnoreCaseIffSameLower(typeName, name);
    LowerCaseIsFixed(name);
  }

  /** Each known type name is recognised, ignoring case, exactly when the declared type says so. */
  lemma DeclaredTypeIff(typeName: string)
    ensures EqualsIgnoreCase(typeName, DOUBLE_TYPE_NAME) <==> DeclaredType(typeName) == DoubleType
    ensures EqualsIgnoreCase(typeName, BIGINT_TYPE_NAME) <==> DeclaredType(typeName) == BigintType
    ensures EqualsIgnoreCase(typeName, INT_TYPE_NAME) <==> DeclaredType(typeName) == IntType
    ensures EqualsIgnoreCase(typeName, TINYINT_TYPE_NAME) <==> DeclaredType(typeName) == TinyintType
    ensures EqualsIgnoreCase(typeName, FLOAT_TYPE_NAME) <==> DeclaredType(typeName) == FloatType
    ensures EqualsIgnoreCase(typeName, BOOLEAN_TYPE_NAME) <==> DeclaredType(typeName) == BooleanType
  {
    MatchesTypeName(typeName, DOUBLE_TYPE_NAME);
    MatchesTypeName(typeName, BIGINT_TYPE_NAME);
    MatchesTypeName(typeName, INT_TYPE_NAME);
    MatchesTypeName(typeName, TINYINT_TYPE_NAME);
    MatchesTypeName(typeName, FLOAT_TYPE_NAME);
    MatchesTypeName(typeName, BOOLEAN_TYPE_NAME);
  }

  /** The equalsIgnoreCase chain is the match on the declared type. */
  lemma CoerceByDeclaredType(typeName: string, text: string)
    ensures Coerce(typeName, text) == CoerceTo(DeclaredType(typeName), text)
  {
    DeclaredTypeIff(typeName);
    match DeclaredType(typeName)
    case DoubleType =>
    case BigintType =>
    case IntType =>
    case TinyintType =>
    case FloatType =>
    case BooleanType => BooleanValueOfIffTrue(text);
    case TextType =>
  }

  /** The result depends on the type name only up to case. */
  lemma CoerceIgnoresTypeNameCase(a: string, b: string, text: string)
    requires EqualsIgnoreCase(a, b)
    ensures Coerce(a, text) == Coerce(b, text)
  {
    EqualsIgnoreCaseIffSameLower(a, b);
    calc {
      Coerce(a, text);
      { CoerceByDeclaredType(a, text); }
      CoerceTo(DeclaredType(a), text);
      CoerceTo(DeclaredType(b), text);
      { CoerceByDeclaredType(b, text); }
      Coerce(b, text);
    }
  }

  /** The conversion fails exactly on numeric types whose parser rejects the text;
      boolean and text columns never fail. */
  lemma CoerceFailsIff(typeName: string, text: string)
    ensures Coerce(typeName, text).None? <==>
      match DeclaredType(typeName)
      case DoubleType => !FloatingLiteral(text)
      case FloatType => !FloatingLiteral(text)
      case BigintType => ParseLong(text).None?
      case IntType => ParseInt(text).None?
      case TinyintType => ParseByte(text).None?
      case BooleanType => false
      case TextType => false
  {
    CoerceByDeclaredType(typeName, text);
  }

  /** A boolean column holds true exactly when the text is "true" ignoring case. */
  lemma BooleanCoercion(typeName: string, text: string)
    requires EqualsIgnoreCase(typeName, BOOLEAN_TYPE_NAME)
    ensures Coerce(typeName, text) == Some(Bool(ToLower(text) == "true"))
  {
    MatchesTypeName(typeName, BOOLEAN_TYPE_NAME);
    CoerceByDeclaredType(typeName, text);
  }

  /** A type name outside the six known ones, compared ignoring case, keeps the text unchanged. */
  lemma UnknownTypeKeepsText(typeName: string, text: string)
    requires !EqualsIgnoreCase(typeName, DOUBLE_TYPE_NAME) && !EqualsIgnoreCase(typeName, BIGINT_TYPE_NAME)
    requires !EqualsIgnoreCase(typeName, INT_TYPE_NAME) && !EqualsIgnoreCase(typeName, TINYINT_TYPE_NAME)
    requires !EqualsIgnoreCase(typeName, FLOAT_TYPE_NAME) && !EqualsIgnoreCase(typeName, BOOLEAN_TYPE_NAME)
    ensures Coerce(typeName, text) == Some(Str(text))
  {
  }

  /** A type name the closed enumeration maps to text, "string" among them, keeps the text. */
  lemma TextTypeKeepsText(typeName: string, text: string)
    requires DeclaredType(typeName) == TextType
    ensures Coerce(typeName, text) == Some(Str(text))
  {
    CoerceByDeclaredType(typeName, text);
  }

  lemma StringIsTextType()
    ensures DeclaredType("string") == TextType
  {
    LowerCaseIsFixed("string");
  }

  /** An integral column reads back every value of its range from its decimal text. */
  lemma IntegralRoundTrip(typeName: string, v: int)
    ensures DeclaredType(typeName) == BigintType && LONG_MIN <= v <= LONG_MAX ==>
      Coerce(typeName, ToDecimalString(v)) == Some(Long(v))
    ensures DeclaredType(typeName) == IntType && INT_MIN <= v <= INT_MAX ==>
      Coerce(typeName, ToDecimalString(v)) == Some(Integer(v))
    ensures DeclaredType(typeName) == TinyintType && BYTE_MIN <= v <= BYTE_MAX ==>
      Coerce(typeName, ToDecimalString(v)) == Some(Byte(v))
  {
    CoerceByDeclaredType(typeName, ToDecimalString(v));
    if LONG_MIN <= v <= LONG_MAX { DecimalRoundTrip(v, LONG_MIN, LONG_MAX); }
    if INT_MIN <= v <= INT_MAX { DecimalRoundTrip(v, INT_MIN, INT_MAX); }
    if BYTE_MIN <= v <= BYTE_MAX { DecimalRoundTrip(v, BYTE_MIN, BYTE_MAX); }
  }

  /** Any text an integral column accepts, a double or float column accepts too. */
  lemma IntegralTextIsFloating(typeName: string, other: string, text: string)
    requires DeclaredType(typeName) in {BigintType, IntType, TinyintType}
    requires DeclaredType(other) in {DoubleType, FloatType}
    requires Coerce(typeName, text).Some?
    ensures Coerce(other, text).Some?
  {
    CoerceByDeclaredType(typeName, text);
    CoerceByDeclaredType(other, text);
    NarrowerParseAgrees(text);
    IntegerTextIsFloatingLiteral(text, LONG_MIN, LONG_MAX);
  }
}
