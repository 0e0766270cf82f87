/** The java.lang conversions the coercion chain calls: Long.valueOf, Integer.valueOf,
    Byte.valueOf and Boolean.valueOf by their documented semantics, and the syntax accepted by
    Double.valueOf and Float.valueOf (the floating-point value itself is not computed). */
module JavaNumbers {
  import opened Wrappers
  import opened JavaStrings

  const LONG_MIN: int := -0x8000_0000_0000_0000
  const LONG_MAX: int := 0x7fff_ffff_ffff_ffff
  const INT_MIN: int := -0x8000_0000
  const INT_MAX: int := 0x7fff_ffff
  const BYTE_MIN: int := -0x80
  const BYTE_MAX: int := 0x7f

  predicate IsDigit(c: char)
  {
    '0' <= c <= '9'
  }

  predicate AllDigits(s: string)
  {
    forall i :: 0 <= i < |s| ==> IsDigit(s[i])
  }

  function DigitValue(c: char): (d: nat)
    requires IsDigit(c)
    ensures d < 10
  {
    c as int - '0' as int
  }

  /** The value of a run of decimal digits, most significant digit first. */
  function DecimalValue(ds: string): (r: nat)
    requires AllDigits(ds)
  {
    if ds == [] then 0 else DecimalValue(ds[..|ds| - 1]) * 10 + DigitValue(ds[|ds| - 1])
  }

  /** Long.parseLong and Integer.parseInt with radix 10 for the range [min, max]: an optional
      '-' or '+', then at least one digit, and a value within the range; anything else throws
      NumberFormatException (None). */
  function ParseSignedDecimal(s: string, min: int, max: int): (r: Option<int>)
    ensures r.Some? ==> min <= r.value <= max
    ensures r.Some? ==> |s| > 0 && (IsDigit(s[0]) || s[0] == '-' || s[0] == '+')
    ensures r.Some? ==> IsDigit(s[|s| - 1])
  {
    if |s| == 0 then None
    else
      var negative := s[0] == '-';
      var start := if s[0] == '-' || s[0] == '+' then 1 else 0;
      if start == |s| || !AllDigits(s[start..]) then None
      else
        var magnitude: int := DecimalValue(s[start..]);
        var v := if negative then -magnitude else magnitude;
        if min <= v <= max then Some(v) else None
  }

  /** The value of an optional sign followed by digits. */
  function SignedValue(sign: string, ds: string): (v: int)
    requires AllDigits(ds)
    ensures sign == "-" ==> v <= 0
    ensures sign != "-" ==> v >= 0
  {
    if sign == "-" then -(DecimalValue(ds) as int) else DecimalValue(ds)
  }

  /** Every sign ("", "+" or "-") followed by at least one digit is accepted exactly when its
      value lies in the range, and parses to that value; leading zeros, "+5" and "-0" included. */
  lemma ParseSignedDigits(sign: string, ds: string, min: int, max: int)
    requires sign == "" || sign == "+" || sign == "-"
    requires ds != [] && AllDigits(ds)
    ensures ParseSignedDecimal(sign + ds, min, max) ==
      if min <= SignedValue(sign, ds) <= max then Some(SignedValue(sign, ds)) else None
  {
    var s := sign + ds;
    assert s[|sign|..] == ds;
    var start := if s[0] == '-' || s[0] == '+' then 1 else 0;
    if sign == "" {
      assert s == ds && IsDigit(s[0]);
      assert start == 0;
    } else {
      assert s[0] == sign[0];
      assert start == 1 == |sign|;
    }
    assert (s[0] == '-') == (sign == "-");
  }

  /** Conversely, every accepted text is such a sign followed by digits, with that value. */
  lemma ParseSignedDecimalShape(s: string, min: int, max: int) returns (sign: string, ds: string)
    requires ParseSignedDecimal(s, min, max).Some?
    ensures sign == "" || sign == "+" || sign == "-"
    ensures ds != [] && AllDigits(ds) && s == sign + ds
    ensures ParseSignedDecimal(s, min, max) == Some(SignedValue(sign, ds))
  {
    sign := if s[0] == '-' || s[0] == '+' then s[..1] else "";
    ds := s[|sign|..];
    assert s == sign + ds;
  }

  /** A plus sign and leading zeros are accepted. */
  lemma SignAndZerosExample()
    ensures ParseLong("+5") == Some(5)
    ensures ParseInt("007") == Some(7)
  {
    ParseSignedDigits("+", "5", LONG_MIN, LONG_MAX);
    assert "+5" == "+" + "5";
    ParseSignedDigits("", "007", INT_MIN, INT_MAX);
    assert "007" == "" + "007";
    assert DecimalValue("007") == 7 by {
      assert "007"[..2] == "00" && "00"[..1] == "0" && "0"[..0] == "";
    }
  }

  /** Byte.valueOf accepts "-0" and rejects 128. */
  lemma ByteBoundsExample()
    ensures ParseByte("-0") == Some(0)
    ensures ParseByte("128") == None
  {
    ParseSignedDigits("-", "0", INT_MIN, INT_MAX);
    assert "-0" == "-" + "0";
    ParseSignedDigits("", "128", INT_MIN, INT_MAX);
    assert "128" == "" + "128";
    assert DecimalValue("128") == 128 by {
      assert "128"[..2] == "12" && "12"[..1] == "1" && "1"[..0] == "";
    }
  }

  /** A non-digit, a lone sign and the empty text are rejected. */
  lemma RejectedTextsExample()
    ensures ParseLong("1x1") == None && ParseLong("-") == None && ParseLong("") == None
  {
    assert !AllDigits("1x1") by { assert !IsDigit("1x1"[1]); }
  }

  /** Long.valueOf(String). */
  function ParseLong(s: string): (r: Option<int>)
  {
    ParseSignedDecimal(s, LONG_MIN, LONG_MAX)
  }

  /** Integer.valueOf(String). */
  function ParseInt(s: string): (r: Option<int>)
  {
    ParseSignedDecimal(s, INT_MIN, INT_MAX)
  }

  /** Byte.valueOf(String): Integer.parseInt, then a range check of its own. */
  function ParseByte(s: string): (r: Option<int>)
  {
    match ParseInt(s)
    case None => None
    case Some(i) => if BYTE_MIN <= i <= BYTE_MAX then Some(i) else None
  }

  /** Boolean.valueOf(String), i.e. Boolean.parseBoolean. */
  function BooleanValueOf(s: string): (r: bool)
  {
    EqualsIgnoreCase(s, "true")
  }

  /** The decimal digits of n, as Long.toString writes them. */
  function Digits(n: nat): (r: string)
    ensures |r| >= 1
  {
    if n < 10 then ['0' + n as char] else Digits(n / 10) + ['0' + (n % 10) as char]
  }

  /** Long.toString / Integer.toString / Byte.toString. */
  function ToDecimalString(v: int): (r: string)
  {
    if v < 0 then "-" + Digits(-v) else Digits(v)
  }

  lemma {:induction false} DigitsValue(n: nat)
    ensures AllDigits(Digits(n)) && DecimalValue(Digits(n)) == n
  {
    if n >= 10 {
      DigitsValue(n / 10);
      var ds := Digits(n);
      assert ds[..|ds| - 1] == Digits(n / 10);
    }
  }

  /** valueOf(toString(v)) == v for every v in the type's range. */
  lemma DecimalRoundTrip(v: int, min: int, max: int)
    requires min <= v <= max
    ensures ParseSignedDecimal(ToDecimalString(v), min, max) == Some(v)
  {
    var s := ToDecimalString(v);
    if v < 0 {
      DigitsValue(-v);
      assert s[1..] == Digits(-v);
    } else {
      DigitsValue(v);
    }
  }

  /** Byte.valueOf accepts exactly the decimal texts whose value is in the 8-bit range. */
  lemma ParseByteIsEightBit(s: string)
    ensures ParseByte(s) == ParseSignedDecimal(s, BYTE_MIN, BYTE_MAX)
  {
  }

  /** A narrower type accepts only texts a wider one accepts, with the same value. */
  lemma NarrowerParseAgrees(s: string)
    ensures ParseByte(s).Some? ==> ParseInt(s) == ParseByte(s)
    ensures ParseInt(s).Some? ==> ParseLong(s) == ParseInt(s)
  {
  }

  /** Boolean.valueOf yields true exactly for "true" in any mix of cases. */
  lemma BooleanValueOfIffTrue(s: string)
    ensures BooleanValueOf(s) <==> ToLower(s) == "true"
  {
    EqualsIgnoreCaseIffSameLower(s, "true");
    LowerCaseIsFixed("true");
  }

  // ---- Syntax of Double.valueOf / Float.valueOf (FloatingDecimal.readJavaFormatString) ----

  predicate IsHexDigit(c: char)
  {
    IsDigit(c) || 'a' <= c <= 'f' || 'A' <= c <= 'F'
  }

  /** String.trim: leading and trailing characters up to U+0020 removed. */
  function TrimLeading(s: string): (r: string)
  {
    if s != [] && s[0] <= ' ' then TrimLeading(s[1..]) else s
  }

  function TrimTrailing(s: string): (r: string)
  {
    if s != [] && s[|s| - 1] <= ' ' then TrimTrailing(s[..|s| - 1]) else s
  }

  function Trim(s: string): (r: string)
  {
    TrimTrailing(TrimLeading(s))
  }

  /** The first position holding one of the two characters, if any. */
  function IndexOfEither(s: string, a: char, b: char): (r: Option<nat>)
    ensures r.Some? ==> r.value < |s| && (s[r.value] == a || s[r.value] == b)
    ensures r.Some? ==> forall j :: 0 <= j < r.value ==> s[j] != a && s[j] != b
    ensures r.None? ==> forall j :: 0 <= j < |s| ==> s[j] != a && s[j] != b
  {
    if s == [] then None
    else if s[0] == a || s[0] == b then Some(0)
    else match IndexOfEither(s[1..], a, b)
      case None => None
      case Some(k) => Some(k + 1)
  }

  /** Digits with at most one '.', and at least one digit: the significand of a decimal
      (hex = false) or hexadecimal (hex = true) floating literal. */
  predicate Significand(m: string, hex: bool)
  {
    && (forall i :: 0 <= i < |m| ==> m[i] == '.' || (if hex then IsHexDigit(m[i]) else IsDigit(m[i])))
    && (forall i, j :: 0 <= i < j < |m| ==> m[i] != '.' || m[j] != '.')
    && (exists i :: 0 <= i < |m| && m[i] != '.')
  }

  /** An optional sign followed by at least one decimal digit: an exponent. */
  predicate SignedDigits(e: string)
  {
    var digits := if e != [] && (e[0] == '+' || e[0] == '-') then e[1..] else e;
    digits != [] && AllDigits(digits)
  }

  predicate IsFloatSuffix(c: char)
  {
    c == 'f' || c == 'F' || c == 'd' || c == 'D'
  }

  function DropFloatSuffix(s: string): (r: string)
  {
    if s != [] && IsFloatSuffix(s[|s| - 1]) then s[..|s| - 1] else s
  }

  /** Digits, an optional '.', digits, an optional exponent, an optional suffix. */
  predicate DecimalFloatBody(b: string)
  {
    var core := DropFloatSuffix(b);
    match IndexOfEither(core, 'e', 'E')
    case None => Significand(core, false)
    case Some(k) => Significand(core[..k], false) && SignedDigits(core[k + 1..])
  }

  /** What follows "0x": a hex significand, a mandatory binary exponent, an optional suffix. */
  predicate HexFloatBody(h: string)
  {
    match IndexOfEither(h, 'p', 'P')
    case None => false
    case Some(k) => Significand(h[..k], true) && SignedDigits(DropFloatSuffix(h[k + 1..]))
  }

  /** Double.valueOf and Float.valueOf succeed exactly on these texts. */
  predicate FloatingLiteral(s: string)
  {
    var t := Trim(s);
    var body := if t != [] && (t[0] == '+' || t[0] == '-') then t[1..] else t;
    if body == "NaN" || body == "Infinity" then true
    else if |body| >= 2 && body[0] == '0' && (body[1] == 'x' || body[1] == 'X') then HexFloatBody(body[2..])
    else DecimalFloatBody(body)
  }

  /** Every text Long.valueOf accepts is also accepted by Double.valueOf and Float.valueOf. */
  lemma IntegerTextIsFloatingLiteral(s: string, min: int, max: int)
    requires ParseSignedDecimal(s, min, max).Some?
    ensures FloatingLiteral(s)
  {
    assert TrimLeading(s) == s;
    assert Trim(s) == s;
    var body := if s[0] == '+' || s[0] == '-' then s[1..] else s;
    assert body != [] && AllDigits(body);
    assert body != "NaN" && body != "Infinity" by { assert !IsDigit('N') && !IsDigit('I'); }
    assert |body| >= 2 ==> body[1] != 'x' && body[1] != 'X';
    assert DropFloatSuffix(body) == body;
    assert IndexOfEither(body, 'e', 'E').None?;
    assert body[0] != '.';
  }
}
