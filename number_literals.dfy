/** SymbolTable.getNumberLiteralType: classify a numeric literal token as `short` when
    Short.parseShort accepts it, else as `int` when Integer.parseInt accepts it, else
    as no type. Only ASCII digits are modelled. */
module NumberLiterals {
  import opened Outcomes
  import TypeTokens

  const SHORT_MIN: int := -0x8000
  const SHORT_MAX: int := 0x7FFF
  const INT_MIN: int := -0x8000_0000
  const INT_MAX: int := 0x7FFF_FFFF

  predicate IsDigit(c: char) {
    '0' <= c <= '9'
  }

  predicate AllDigits(s: string) {
    forall i :: 0 <= i < |s| ==> IsDigit(s[i])
  }

  /** The value of a string of decimal digits, most significant digit first. */
  function DigitsValue(s: string): nat
    requires AllDigits(s)
  {
    if s == [] then 0
    else DigitsValue(s[..|s| - 1]) * 10 + (s[|s| - 1] as int - '0' as int)
  }

  /** The grammar Integer.parseInt(token, 10) accepts before its range check: an
      optional '+' or '-' followed by one or more digits; a lone sign or the empty
      token is rejected. */
  function ParseDecimal(token: string): (r: Option<int>)
    ensures r.Some? ==> |token| > 0
    ensures r.Some? ==> if token[0] == '-' then r.value <= 0 else r.value >= 0
  {
    if |token| == 0 then None
    else if token[0] == '-' || token[0] == '+' then
      var digits := token[1..];
      if |digits| > 0 && AllDigits(digits) then
        Some(if token[0] == '-' then -(DigitsValue(digits) as int) else DigitsValue(digits))
      else None
    else if AllDigits(token) then Some(DigitsValue(token))
    else None
  }

  /** Integer.parseInt: `None` stands for the NumberFormatException it throws. */
  function ParseInt(token: string): (r: Option<int>)
    ensures r.Some? ==> INT_MIN <= r.value <= INT_MAX && ParseDecimal(token) == r
    ensures ParseDecimal(token).Some? && INT_MIN <= ParseDecimal(token).value <= INT_MAX ==>
              r == ParseDecimal(token)
  {
    match ParseDecimal(token)
    case Some(v) => if INT_MIN <= v <= INT_MAX then Some(v) else None
    case None => None
  }

  /** Short.parseShort: Integer.parseInt followed by the 16-bit range check. */
  function ParseShort(token: string): (r: Option<int>)
    ensures r.Some? ==> SHORT_MIN <= r.value <= SHORT_MAX && ParseInt(token) == r
    ensures ParseDecimal(token).Some? && SHORT_MIN <= ParseDecimal(token).value <= SHORT_MAX ==>
              r == ParseDecimal(token)
  {
    match ParseInt(token)
    case Some(v) => if SHORT_MIN <= v <= SHORT_MAX then Some(v) else None
    case None => None
  }

  predicate InShortRange(v: int) { SHORT_MIN <= v <= SHORT_MAX }
  predicate InIntRange(v: int) { INT_MIN <= v <= INT_MAX }

  /** getNumberLiteralType: `short` exactly for numerals in [-32768, 32767], `int`
      exactly for the other numerals that fit 32 bits, and no type otherwise. */
  function GetNumberLiteralType(token: string): (r: Option<string>)
    ensures r == Some(TypeTokens.SHORT) <==>
              ParseDecimal(token).Some? && InShortRange(ParseDecimal(token).value)
    ensures r == Some(TypeTokens.INT) <==>
              ParseDecimal(token).Some? && InIntRange(ParseDecimal(token).value)
              && !InShortRange(ParseDecimal(token).value)
    ensures r == None <==>
              ParseDecimal(token).None? || !InIntRange(ParseDecimal(token).value)
  {
    match ParseShort(token)
    case Some(_) => Some(TypeTokens.SHORT)
    case None =>
      match ParseInt(token)
      case Some(_) => Some(TypeTokens.INT)
      case None => None
  }

  // ----- Decimal rendering, the partner of parsing -----

  function DigitChar(d: nat): char
    requires d < 10
  {
    ('0' as int + d) as char
  }

  /** The shortest decimal digit string of `n`. */
  function Digits(n: nat): string
  {
    if n < 10 then [DigitChar(n)] else Digits(n / 10) + [DigitChar(n % 10)]
  }

  /** The canonical decimal rendering of `v`, with a '-' when negative. */
  function Decimal(v: int): string
  {
    if v < 0 then "-" + Digits(-v) else Digits(v)
  }

  lemma {:induction false} DigitsRoundTrip(n: nat)
    ensures |Digits(n)| > 0 && AllDigits(Digits(n)) && DigitsValue(Digits(n)) == n
  {
    if n >= 10 {
      DigitsRoundTrip(n / 10);
      var s := Digits(n);
      assert s[..|s| - 1] == Digits(n / 10);
    }
  }

  /** Parsing reads back every rendered integer, whatever its size. */
  lemma DecimalRoundTrip(v: int)
    ensures ParseDecimal(Decimal(v)) == Some(v)
  {
    if v < 0 {
      DigitsRoundTrip(-v);
      assert Decimal(v)[1..] == Digits(-v);
    } else {
      DigitsRoundTrip(v);
    }
  }

  /** An explicit '+' sign is accepted and does not change the value. */
  lemma PlusSignAccepted(n: nat)
    ensures ParseDecimal("+" + Digits(n)) == Some(n)
  {
    DigitsRoundTrip(n);
    assert ("+" + Digits(n))[1..] == Digits(n);
  }

  /** Leading zeros do not change the value of a digit string. */
  lemma {:induction false} LeadingZeroIgnored(s: string)
    requires AllDigits(s)
    ensures AllDigits("0" + s) && DigitsValue("0" + s) == DigitsValue(s)
  {
    if s != [] {
      var t := "0" + s;
      assert t[..|t| - 1] == "0" + s[..|s| - 1];
      LeadingZeroIgnored(s[..|s| - 1]);
    }
  }

  /** The literal type of a rendered integer: the narrowest width it fits, 16-bit
      tried first. */
  lemma LiteralTypeOfDecimal(v: int)
    ensures GetNumberLiteralType(Decimal(v)) ==
              if InShortRange(v) then Some(TypeTokens.SHORT)
              else if InIntRange(v) then Some(TypeTokens.INT)
              else None
  {
    DecimalRoundTrip(v);
  }

  /** Tokens that are not numerals have no literal type: the empty token, a lone
      sign, and a token holding a non-digit. */
  lemma NonNumeralsRejected()
    ensures GetNumberLiteralType("") == None
    ensures GetNumberLiteralType("-") == None && GetNumberLiteralType("+") == None
    ensures GetNumberLiteralType("1.5") == None && GetNumberLiteralType("0x10") == None
    ensures GetNumberLiteralType("--1") == None
  {
    assert !AllDigits("1.5") by { assert !IsDigit("1.5"[1]); }
    assert !AllDigits("0x10") by { assert !IsDigit("0x10"[1]); }
    assert !AllDigits("-1") by { assert !IsDigit("-1"[0]); }
    assert "--1"[1..] == "-1";
  }

  /** The upper 16-bit edge: 32767 is a `short` literal, 32768 already an `int`. */
  lemma ShortUpperEdge()
    ensures GetNumberLiteralType("32767") == Some(TypeTokens.SHORT)
    ensures GetNumberLiteralType("32768") == Some(TypeTokens.INT)
  {
    LiteralTypeOfDecimal(32767);
    assert Decimal(32767) == "32767";
    LiteralTypeOfDecimal(32768);
    assert Decimal(32768) == "32768";
  }

  /** The lower 16-bit edge: -32768 is a `short` literal, -32769 already an `int`. */
  lemma ShortLowerEdge()
    ensures GetNumberLiteralType("-32768") == Some(TypeTokens.SHORT)
    ensures GetNumberLiteralType("-32769") == Some(TypeTokens.INT)
  {
    LiteralTypeOfDecimal(-32768);
    assert Decimal(-32768) == "-32768";
    LiteralTypeOfDecimal(-32769);
    assert Decimal(-32769) == "-32769";
  }

  /** The 32-bit edges, in their canonical spelling: the smallest and largest int are
      `int` literals, and one step beyond either has no literal type. */
  lemma IntBoundaries()
    ensures GetNumberLiteralType(Decimal(INT_MIN)) == Some(TypeTokens.INT)
    ensures GetNumberLiteralType(Decimal(INT_MAX)) == Some(TypeTokens.INT)
    ensures GetNumberLiteralType(Decimal(INT_MAX + 1)) == None
    ensures GetNumberLiteralType(Decimal(INT_MIN - 1)) == None
  {
    LiteralTypeOfDecimal(INT_MIN);
    LiteralTypeOfDecimal(INT_MAX);
    LiteralTypeOfDecimal(INT_MAX + 1);
    LiteralTypeOfDecimal(INT_MIN - 1);
  }
}
