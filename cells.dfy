/**
 * The token rules the CSV reader is configured with when it decodes the
 * cleaned records: columns named and typed by the schema, no quoting, the
 * empty token as null, `Y`/`N` as booleans, `%Y-%m-%d %H:%M:%S` timestamps,
 * 16-bit integers and exact scaled decimals.
 */
module Cells {
  import opened Wrappers
  import opened Text
  import opened Digits
  import Config
  import Records

  /** A decoded cell. A decimal is its mantissa; its scale is the column's. */
  datatype CellValue =
    | Null
    | Int16(i: int)
    | Flag(b: bool)
    | Timestamp(t: DateTime)
    | Dec(mantissa: int)

  /** A local wall-clock time read with second precision. */
  datatype DateTime = DateTime(year: nat, month: nat, day: nat, hour: nat, minute: nat, second: nat)

  /** The outcome of decoding one token: a value, or the token the column type rejects. */
  datatype CellResult = Converted(value: CellValue) | ConversionError(ty: Config.LogicalType, token: string)

  // ---------------------------------------------------------------------------
  // Integers

  /** An optional minus sign followed by at least one digit, read as an integer. */
  function ParseInt(s: string): (r: Option<int>)
    ensures r.Some? ==> s != [] && (r.value < 0 ==> s[0] == '-')
  {
    var neg := s != [] && s[0] == '-';
    var body := if neg then s[1..] else s;
    if body == [] || !IsDigits(body) then None
    else
      var m: int := Value(body);
      Some(if neg then -m else m)
  }

  /** `str(i)`. */
  function IntToString(i: int): (s: string)
    ensures s != [] && (s[0] == '-' <==> i < 0)
  {
    if i < 0 then "-" + NatToString(-i) else NatToString(i)
  }

  /** Reading back what IntToString writes gives the integer. */
  lemma ParseIntToString(i: int)
    ensures ParseInt(IntToString(i)) == Some(i)
  {
    var n := if i < 0 then -i else i;
    ValueOfNatToString(n);
    if i < 0 {
      assert IntToString(i)[1..] == NatToString(n);
    }
  }

  /** Distinct integers are written as distinct texts. */
  lemma IntToStringInjective(i: int, j: int)
    requires IntToString(i) == IntToString(j)
    ensures i == j
  {
    ParseIntToString(i);
    ParseIntToString(j);
  }

  // ---------------------------------------------------------------------------
  // Decimals

  /** Every byte of s is '0'. */
  predicate AllZeros(s: string) {
    forall i | 0 <= i < |s| :: s[i] == '0'
  }

  /**
   * The magnitude, times 10^scale, of a decimal written with the digits
   * `whole`, then (when `point`) a point and the digits `frac`: at least one
   * whole digit, at least one fractional digit after a point, and no nonzero
   * digit beyond the scale, since rescaling may not lose digits.
   */
  function ReadDigits(whole: string, point: bool, frac: string, scale: nat): (r: Option<nat>)
    ensures r.Some? ==> whole != [] && IsDigits(whole) && IsDigits(frac)
  {
    if whole == [] || !IsDigits(whole) || !IsDigits(frac) || (point && frac == []) then None
    else if |frac| > scale && !AllZeros(frac[scale..]) then None
    else
      var kept := if |frac| <= scale then frac else frac[..scale];
      Some(Shift(Value(whole), scale) + Shift(Value(kept), scale - |kept|))
  }

  /** An unsigned decimal token: its digits before and after the first point. */
  function ReadUnsigned(s: string, scale: nat): (r: Option<nat>)
  {
    var j := IndexOf(s, '.');
    if j < |s| then ReadDigits(s[..j], true, s[j + 1..], scale)
    else ReadDigits(s, false, "", scale)
  }

  /**
   * A decimal token read exactly at scale `scale`: an optional minus sign and
   * an unsigned decimal. The result is the mantissa, the value times
   * 10^scale; the value is never rounded and never passes through binary
   * floating point.
   */
  function ParseDecimal(s: string, scale: nat): (r: Option<int>)
    ensures r.Some? ==> s != [] && (r.value < 0 ==> s[0] == '-')
  {
    if s != [] && s[0] == '-' then
      match ReadUnsigned(s[1..], scale)
      case None => None
      case Some(m) => Some(-(m as int))
    else
      match ReadUnsigned(s, scale)
      case None => None
      case Some(m) => Some(m)
  }

  /** n / 10^scale in digits, then, when the scale is positive, a point and exactly `scale` digits. */
  function UnsignedDecimal(n: nat, scale: nat): (s: string)
    ensures s != [] && IsDigit(s[0])
  {
    var w := NatToString(DropDigits(n, scale));
    assert IsDigit(w[0]);
    w + (if scale == 0 then "" else "." + PadDigits(n, scale))
  }

  /** The mantissa m at scale `scale` written as a decimal with exactly `scale` fractional digits. */
  function FormatDecimal(m: int, scale: nat): (s: string)
    ensures s != [] && (s[0] == '-' <==> m < 0)
  {
    if m < 0 then "-" + UnsignedDecimal(-m, scale) else UnsignedDecimal(m, scale)
  }

  lemma DigitsHaveNoPoint(s: string)
    requires IsDigits(s)
    ensures '.' !in s
  {
  }

  /** Exactly `scale` fractional digits are read as they stand. */
  lemma ReadDigitsExact(whole: string, frac: string, scale: nat)
    requires whole != [] && IsDigits(whole) && IsDigits(frac) && |frac| == scale
    ensures ReadDigits(whole, scale > 0, frac, scale) == Some(Shift(Value(whole), scale) + Value(frac))
  {
    assert Shift(Value(frac), 0) == Value(frac);
  }

  /** Whole digits, then a point and exactly `scale` fractional digits, read at that scale. */
  lemma ReadUnsignedParts(whole: string, frac: string, scale: nat, s: string)
    requires whole != [] && IsDigits(whole) && IsDigits(frac) && |frac| == scale
    requires s == if scale == 0 then whole else whole + "." + frac
    ensures ReadUnsigned(s, scale) == ReadDigits(whole, scale > 0, frac, scale)
  {
    DigitsHaveNoPoint(whole);
    if scale == 0 {
      IndexOfUnique(s, '.', |s|);
    } else {
      assert s[|whole|] == '.';
      IndexOfUnique(s, '.', |whole|);
      assert s[..|whole|] == whole;
      assert s[|whole| + 1..] == frac;
    }
  }

  /** The unsigned part of a formatted decimal reads back as its magnitude. */
  lemma ReadUnsignedDecimal(n: nat, scale: nat)
    ensures ReadUnsigned(UnsignedDecimal(n, scale), scale) == Some(n)
  {
    var whole := NatToString(DropDigits(n, scale));
    var frac := PadDigits(n, scale);
    ValueOfNatToString(DropDigits(n, scale));
    PadDigitsSplitsNumber(n, scale);
    ReadUnsignedParts(whole, frac, scale, UnsignedDecimal(n, scale));
    ReadDigitsExact(whole, frac, scale);
  }

  /** Reading back what FormatDecimal writes, at the same scale, gives the mantissa. */
  lemma ParseFormatDecimal(m: int, scale: nat)
    ensures ParseDecimal(FormatDecimal(m, scale), scale) == Some(m)
  {
    var n := if m < 0 then -m else m;
    ReadUnsignedDecimal(n, scale);
    if m < 0 {
      assert FormatDecimal(m, scale)[1..] == UnsignedDecimal(n, scale);
    }
  }

  /**
   * A token made of an optional minus sign, a whole part as `str` writes it
   * and exactly `scale` fractional digits is read as the mantissa
   * whole * 10^scale + frac, with the sign, and that mantissa is written back
   * as the same token. Negative zero is left out: it reads as 0, which is
   * written without a sign.
   */
  lemma FormatParseDecimal(negative: bool, whole: string, frac: string, scale: nat, t: string)
    requires IsCanonical(whole) && IsDigits(frac) && |frac| == scale
    requires t == (if negative then "-" else "") + (if scale == 0 then whole else whole + "." + frac)
    requires negative ==> Value(whole) > 0 || Value(frac) > 0
    ensures ParseDecimal(t, scale).Some?
    ensures var v := Value(whole) * Pow10(scale) + Value(frac);
      ParseDecimal(t, scale).value == if negative then -v else v
    ensures FormatDecimal(ParseDecimal(t, scale).value, scale) == t
  {
    var u := if scale == 0 then whole else whole + "." + frac;
    var n := Shift(Value(whole), scale) + Value(frac);
    ReadUnsignedExact(whole, frac, scale, u, n);
    UnsignedDecimalOfParts(whole, frac, scale, Value(whole), Value(frac), n);
    if negative && Value(whole) > 0 {
      ShiftPositive(Value(whole), scale);
    }
    ParseSigned(negative, u, scale, n, t);
    FormatSigned(negative, u, scale, n, t);
    ShiftIsProduct(Value(whole), scale);
  }

  /** Whole digits and exactly `scale` fractional digits read as whole * 10^scale + frac. */
  lemma ReadUnsignedExact(whole: string, frac: string, scale: nat, u: string, n: nat)
    requires whole != [] && IsDigits(whole) && IsDigits(frac) && |frac| == scale
    requires u == if scale == 0 then whole else whole + "." + frac
    requires n == Shift(Value(whole), scale) + Value(frac)
    ensures ReadUnsigned(u, scale) == Some(n)
  {
    ReadUnsignedParts(whole, frac, scale, u);
    ReadDigitsExact(whole, frac, scale);
  }

  /** A minus sign, when present, negates the magnitude the unsigned part reads as. */
  lemma ParseSigned(negative: bool, u: string, scale: nat, n: nat, t: string)
    requires u != [] && IsDigit(u[0]) && ReadUnsigned(u, scale) == Some(n)
    requires t == (if negative then "-" else "") + u
    ensures ParseDecimal(t, scale) == Some(if negative then -(n as int) else n)
  {
    if negative {
      assert t[1..] == u;
    } else {
      assert t == u && t[0] != '-';
    }
  }

  /** A negative mantissa is written with a minus sign before its magnitude, another without one. */
  lemma FormatSigned(negative: bool, u: string, scale: nat, n: nat, t: string)
    requires UnsignedDecimal(n, scale) == u
    requires t == (if negative then "-" else "") + u
    requires negative ==> n > 0
    ensures FormatDecimal(if negative then -(n as int) else n, scale) == t
  {
  }

  /** The magnitude whole * 10^scale + frac is written as the canonical whole part and the `scale` digits of frac. */
  lemma UnsignedDecimalOfParts(whole: string, frac: string, scale: nat, v: nat, f: nat, n: nat)
    requires IsCanonical(whole) && IsDigits(frac) && |frac| == scale
    requires v == Value(whole) && f == Value(frac) && n == Shift(v, scale) + f
    ensures UnsignedDecimal(n, scale) == if scale == 0 then whole else whole + "." + frac
  {
    WholePart(whole, scale, v, f, n);
    FracPart(frac, scale, v, f, n);
  }

  /** Dropping the `scale` low digits of the magnitude leaves the whole part, written as it was. */
  lemma WholePart(whole: string, scale: nat, v: nat, f: nat, n: nat)
    requires IsCanonical(whole) && v == Value(whole) && f < Pow10(scale) && n == Shift(v, scale) + f
    ensures NatToString(DropDigits(n, scale)) == whole
  {
    ShiftSplits(v, f, scale);
    NatToStringOfValue(whole);
  }

  /** The `scale` low digits of the magnitude are the fractional digits as written. */
  lemma FracPart(frac: string, scale: nat, v: nat, f: nat, n: nat)
    requires IsDigits(frac) && |frac| == scale && f == Value(frac) && n == Shift(v, scale) + f
    ensures PadDigits(n, scale) == frac
  {
    ShiftSplits(v, f, scale);
    PadDigitsOfValue(frac);
  }

  /** A mantissa of at most `precision` digits. */
  predicate FitsPrecision(m: int, precision: nat) {
    var bound: int := Pow10(precision);
    -bound < m < bound
  }

  // ---------------------------------------------------------------------------
  // Timestamps

  /** `%Y-%m-%d %H:%M:%S` written with four year digits and two digits elsewhere. */
  predicate TimestampShape(s: string) {
    && |s| == 19
    && s[4] == '-' && s[7] == '-' && s[10] == ' ' && s[13] == ':' && s[16] == ':'
    && IsDigits(s[0..4]) && IsDigits(s[5..7]) && IsDigits(s[8..10])
    && IsDigits(s[11..13]) && IsDigits(s[14..16]) && IsDigits(s[17..19])
  }

  /** The ranges the format's directives accept: month 1-12, day 1-31, hour 0-23, minute 0-59, second 0-60. */
  predicate ValidDateTime(t: DateTime) {
    && t.year < 10000
    && 1 <= t.month <= 12 && 1 <= t.day <= 31
    && t.hour < 24 && t.minute < 60 && t.second <= 60
  }

  function ParseTimestamp(s: string): (r: Option<DateTime>)
    ensures r.Some? ==> ValidDateTime(r.value) && |s| == 19
  {
    if !TimestampShape(s) then None
    else
      var t := DateTime(Value(s[0..4]), Value(s[5..7]), Value(s[8..10]),
                        Value(s[11..13]), Value(s[14..16]), Value(s[17..19]));
      if ValidDateTime(t) then Some(t) else None
  }

  function FormatTimestamp(t: DateTime): (s: string)
    ensures |s| == 19
  {
    PadDigits(t.year, 4) + "-" + PadDigits(t.month, 2) + "-" + PadDigits(t.day, 2) + " "
      + PadDigits(t.hour, 2) + ":" + PadDigits(t.minute, 2) + ":" + PadDigits(t.second, 2)
  }

  /** The fields of a formatted timestamp sit at their fixed offsets. */
  lemma FormatTimestampFields(t: DateTime, s: string)
    requires s == FormatTimestamp(t)
    ensures s[0..4] == PadDigits(t.year, 4) && s[5..7] == PadDigits(t.month, 2)
    ensures s[8..10] == PadDigits(t.day, 2) && s[11..13] == PadDigits(t.hour, 2)
    ensures s[14..16] == PadDigits(t.minute, 2) && s[17..19] == PadDigits(t.second, 2)
    ensures s[4] == '-' && s[7] == '-' && s[10] == ' ' && s[13] == ':' && s[16] == ':'
  {
  }

  /** Reading back a formatted valid timestamp gives it back. */
  lemma ParseFormatTimestamp(t: DateTime)
    requires ValidDateTime(t)
    ensures ParseTimestamp(FormatTimestamp(t)) == Some(t)
  {
    var s := FormatTimestamp(t);
    FormatTimestampFields(t, s);
    ValueOfPadDigits(t.year, 4);
    ValueOfPadDigits(t.month, 2);
    ValueOfPadDigits(t.day, 2);
    ValueOfPadDigits(t.hour, 2);
    ValueOfPadDigits(t.minute, 2);
    ValueOfPadDigits(t.second, 2);
  }

  /** A token the timestamp rule accepts is exactly the formatting of what it reads. */
  lemma FormatParseTimestamp(s: string)
    requires ParseTimestamp(s).Some?
    ensures FormatTimestamp(ParseTimestamp(s).value) == s
  {
    var t := ParseTimestamp(s).value;
    PadDigitsOfValue(s[0..4]);
    PadDigitsOfValue(s[5..7]);
    PadDigitsOfValue(s[8..10]);
    PadDigitsOfValue(s[11..13]);
    PadDigitsOfValue(s[14..16]);
    PadDigitsOfValue(s[17..19]);
    var f := FormatTimestamp(t);
    FormatTimestampFields(t, f);
    SameTimestampText(s, f);
  }

  /** Two 19-byte texts with the same separators and the same six digit fields are equal. */
  lemma SameTimestampText(s: string, f: string)
    requires |s| == |f| == 19
    requires s[4] == f[4] && s[7] == f[7] && s[10] == f[10] && s[13] == f[13] && s[16] == f[16]
    requires s[0..4] == f[0..4] && s[5..7] == f[5..7] && s[8..10] == f[8..10]
    requires s[11..13] == f[11..13] && s[14..16] == f[14..16] && s[17..19] == f[17..19]
    ensures s == f
  {
    assert s == s[0..4] + [s[4]] + s[5..7] + [s[7]] + s[8..10] + [s[10]] + s[11..13] + [s[13]] + s[14..16] + [s[16]] + s[17..19];
    assert f == f[0..4] + [f[4]] + f[5..7] + [f[7]] + f[8..10] + [f[10]] + f[11..13] + [f[13]] + f[14..16] + [f[16]] + f[17..19];
  }


  // ---------------------------------------------------------------------------
  // Cells and rows

  /** The rule a column of type `ty` applies to one unquoted token. */
  function ConvertCell(ty: Config.LogicalType, token: string): (r: CellResult)
    ensures r.ConversionError? ==> r.ty == ty && r.token == token
  {
    if token == "" then Converted(Null)
    else match ty
      case SmallInt =>
        (match ParseInt(token)
         case Some(i) =>
           if Config.INT16_MIN <= i <= Config.INT16_MAX then Converted(Int16(i))
           else ConversionError(ty, token)
         case None => ConversionError(ty, token))
      case Bool =>
        if token == "Y" then Converted(Flag(true))
        else if token == "N" then Converted(Flag(false))
        else ConversionError(ty, token)
      case TimestampLocal(_, _) =>
        (match ParseTimestamp(token)
         case Some(t) => Converted(Timestamp(t))
         case None => ConversionError(ty, token))
      case Decimal(precision, scale) =>
        (match ParseDecimal(token, scale)
         case Some(m) =>
           if FitsPrecision(m, precision) then Converted(Dec(m)) else ConversionError(ty, token)
         case None => ConversionError(ty, token))
  }

  /** The empty token, and only it, is null in every column; it is never zero or false. */
  lemma NullIff(ty: Config.LogicalType, token: string)
    ensures ConvertCell(ty, token) == Converted(Null) <==> token == ""
  {
  }

  /** A boolean column accepts exactly `Y` as true and `N` as false, besides null. */
  lemma BoolIff(token: string, b: bool)
    ensures ConvertCell(Config.BOOLEAN, token) == Converted(Flag(b)) <==> token == (if b then "Y" else "N")
    ensures ConvertCell(Config.BOOLEAN, token).ConversionError? <==> token !in {"", "Y", "N"}
  {
  }

  /** An integer column holds only 16-bit signed values, and holds every one of them. */
  lemma SmallIntRange(token: string, i: int)
    ensures ConvertCell(Config.INTEGER, token) == Converted(Int16(i)) ==>
      Config.INT16_MIN <= i <= Config.INT16_MAX && ParseInt(token) == Some(i)
    ensures Config.INT16_MIN <= i <= Config.INT16_MAX ==>
      ConvertCell(Config.INTEGER, IntToString(i)) == Converted(Int16(i))
  {
    if Config.INT16_MIN <= i <= Config.INT16_MAX {
      ParseIntToString(i);
    }
  }

  /**
   * A decimal column holds the exact mantissa at its scale, within its
   * precision, and holds every such mantissa written with its scale.
   */
  lemma DecimalExact(precision: nat, scale: nat, token: string, m: int)
    ensures ConvertCell(Config.Decimal(precision, scale), token) == Converted(Dec(m)) ==>
      ParseDecimal(token, scale) == Some(m) && FitsPrecision(m, precision)
    ensures FitsPrecision(m, precision) ==>
      ConvertCell(Config.Decimal(precision, scale), FormatDecimal(m, scale)) == Converted(Dec(m))
  {
    ParseFormatDecimal(m, scale);
  }

  /**
   * The longitude the data holds as -73.952407836914062 is stored at scale
   * 15 as the exact mantissa -73952407836914062, which fits 18 digits.
   */
  lemma LongitudeExample(m: int, token: string)
    requires m == -73952407836914062 && token == "-73.952407836914062"
    ensures FormatDecimal(m, 15) == token
    ensures ConvertCell(Config.DECIMAL_LON, token) == Converted(Dec(m))
  {
    LongitudeFormat(m, token);
    LongitudePrecision(m);
    DecimalExact(18, 15, token, m);
  }

  lemma LongitudeFormat(m: int, token: string)
    requires m == -73952407836914062 && token == "-73.952407836914062"
    ensures FormatDecimal(m, 15) == token
  {
    var n: nat := -m;
    var w, f := "73", "952407836914062";
    LongitudeFraction(n, f);
    LongitudeWhole(n, w);
    LongitudeToken(token, w, f);
  }

  lemma LongitudeWhole(n: nat, w: string)
    requires n == 73952407836914062 && w == "73"
    ensures NatToString(DropDigits(n, 15)) == w
  {
    assert DropDigits(n, 15) == 73;
  }

  lemma LongitudeToken(token: string, w: string, f: string)
    requires token == "-73.952407836914062" && w == "73" && f == "952407836914062"
    ensures token == "-" + (w + "." + f)
  {
  }

  lemma LongitudePrecision(m: int)
    requires m == -73952407836914062
    ensures FitsPrecision(m, 18)
  {
    assert Pow10(15) == 1000000000000000;
    assert Pow10(16) == 10000000000000000;
    assert Pow10(17) == 100000000000000000;
    assert Pow10(18) == 1000000000000000000;
  }

  /** The fractional digits of the example, written one digit at a time. */
  lemma LongitudeFraction(n: nat, f: string)
    requires n == 73952407836914062 && f == "952407836914062"
    ensures PadDigits(n, 15) == f
  {
    assert PadDigits(739, 1) == "9";
    assert PadDigits(7395, 2) == "95";
    assert PadDigits(73952, 3) == "952";
    assert PadDigits(739524, 4) == "9524";
    assert PadDigits(7395240, 5) == "95240";
    assert PadDigits(73952407, 6) == "952407";
    assert PadDigits(739524078, 7) == "9524078";
    assert PadDigits(7395240783, 8) == "95240783";
    assert PadDigits(73952407836, 9) == "952407836";
    assert PadDigits(739524078369, 10) == "9524078369";
    assert PadDigits(7395240783691, 11) == "95240783691";
    assert PadDigits(73952407836914, 12) == "952407836914";
    assert PadDigits(739524078369140, 13) == "9524078369140";
    assert PadDigits(7395240783691406, 14) == "95240783691406";
  }


  /** A timestamp column accepts exactly the formattings of valid wall-clock times. */
  lemma TimestampIff(token: string, t: DateTime)
    ensures ConvertCell(Config.TIMESTAMP, token) == Converted(Timestamp(t)) <==>
      ValidDateTime(t) && token == FormatTimestamp(t)
  {
    if ConvertCell(Config.TIMESTAMP, token) == Converted(Timestamp(t)) {
      FormatParseTimestamp(token);
    }
    if ValidDateTime(t) && token == FormatTimestamp(t) {
      ParseFormatTimestamp(t);
    }
  }

  /**
   * What each column type does with a non-empty token: an integer column
   * rejects a token that is not an integer or lies outside 16 bits, a
   * boolean column one that is neither `Y` nor `N`, a timestamp column one
   * without the timestamp shape, and a decimal column one that is not a
   * decimal at its scale or whose mantissa has more digits than its
   * precision; an accepted token gives the value it reads as.
   */
  lemma ConvertCellRule(ty: Config.LogicalType, token: string)
    ensures token != "" && ty.SmallInt? ==>
      var r := ConvertCell(ty, token);
      && (r.ConversionError? <==>
            ParseInt(token).None? || !(Config.INT16_MIN <= ParseInt(token).value <= Config.INT16_MAX))
      && (r.Converted? ==> r.value == Int16(ParseInt(token).value))
    ensures token != "" && ty.Bool? ==>
      var r := ConvertCell(ty, token);
      && (r.ConversionError? <==> token != "Y" && token != "N")
      && (r.Converted? ==> r.value == Flag(token == "Y"))
    ensures token != "" && ty.TimestampLocal? ==>
      var r := ConvertCell(ty, token);
      && (r.ConversionError? <==> ParseTimestamp(token).None?)
      && (r.Converted? ==> r.value == Timestamp(ParseTimestamp(token).value))
    ensures token != "" && ty.Decimal? ==>
      var r := ConvertCell(ty, token);
      && (r.ConversionError? <==>
            ParseDecimal(token, ty.scale).None? || !FitsPrecision(ParseDecimal(token, ty.scale).value, ty.precision))
      && (r.Converted? ==> r.value == Dec(ParseDecimal(token, ty.scale).value))
  {
  }

  /** A value a column of type `ty` can hold: null, or a value of that type within its range. */
  predicate HasType(v: CellValue, ty: Config.LogicalType) {
    v.Null? ||
    match ty
    case SmallInt => v.Int16? && Config.INT16_MIN <= v.i <= Config.INT16_MAX
    case Bool => v.Flag?
    case TimestampLocal(_, _) => v.Timestamp? && ValidDateTime(v.t)
    case Decimal(precision, _) => v.Dec? && FitsPrecision(v.mantissa, precision)
  }

  /** Every value a column accepts has the column's type: columns are homogeneous. */
  lemma ConvertCellTyped(ty: Config.LogicalType, token: string)
    ensures ConvertCell(ty, token).Converted? ==> HasType(ConvertCell(ty, token).value, ty)
  {
  }

  /** 99999 is an integer, but beyond what 16 bits hold. */
  lemma IntegerRejection(big: string)
    requires big == "99999"
    ensures ConvertCell(Config.INTEGER, big) == ConversionError(Config.INTEGER, big)
  {
    var d := "9";
    assert Value(d) == 9 by { assert d[..0] == []; }
    ValueSnoc(d, '9');
    ValueSnoc(d + ['9'], '9');
    ValueSnoc(d + ['9'] + ['9'], '9');
    ValueSnoc(d + ['9'] + ['9'] + ['9'], '9');
    assert big == d + ['9'] + ['9'] + ['9'] + ['9'];
    assert ParseInt(big) == Some(99999);
  }

  /** 100.00 read at scale 2 is the mantissa 10000. */
  lemma DistanceMantissa(far: string)
    requires far == "100.00"
    ensures ParseDecimal(far, 2) == Some(10000)
  {
    var one, zero := "1", "0";
    assert Value(one) == 1 && Value(zero) == 0 by { assert one[..0] == [] && zero[..0] == []; }
    ValueSnoc(one, '0');
    ValueSnoc(one + ['0'], '0');
    ValueSnoc(zero, '0');
    assert Shift(100, 2) == 10000;
    var whole, frac := one + ['0'] + ['0'], zero + ['0'];
    assert far == whole + "." + frac;
    ReadUnsignedExact(whole, frac, 2, far, 10000);
  }

  /** 100.00 has three integral digits, where a distance keeps 4 - 2 = 2. */
  lemma DistanceRejection(far: string)
    requires far == "100.00"
    ensures ConvertCell(Config.DECIMAL_DISTANCE, far) == ConversionError(Config.DECIMAL_DISTANCE, far)
  {
    DistanceMantissa(far);
    assert !FitsPrecision(10000, 4) by { assert Pow10(4) == 10000; }
  }

  /** The outcome of decoding a record: its values column by column, or the first error. */
  datatype RowResult = Row(values: seq<CellValue>) | ColumnCount(found: nat) | CellError(column: nat, cell: CellResult)

  /** Decodes tokens[i..] with the types of schema[i..], stopping at the first rejected token. */
  function ConvertCells(schema: seq<Config.Field>, tokens: seq<string>, i: nat): (r: RowResult)
    requires |tokens| == |schema| && i <= |schema|
    ensures r.Row? ==> |r.values| == |schema| - i
    ensures r.CellError? ==> i <= r.column < |schema| && r.cell.ConversionError?
    ensures !r.ColumnCount?
    decreases |schema| - i
  {
    if i == |schema| then Row([])
    else match ConvertCell(schema[i].ty, tokens[i])
      case ConversionError(ty, token) => CellError(i, ConversionError(ty, token))
      case Converted(v) =>
        var rest := ConvertCells(schema, tokens, i + 1);
        if rest.Row? then Row([v] + rest.values) else rest
  }

  /**
   * One line of the cleaned stream, without its LF, decoded against the
   * schema: split on every comma (quoting is off), one token per column.
   */
  function ConvertRecord(record: string): (r: RowResult)
    ensures r.Row? ==> |r.values| == |Config.SCHEMA|
    ensures r.ColumnCount? <==> |Split(record, ',')| != |Config.SCHEMA|
    ensures r.ColumnCount? ==> r.found == |Split(record, ',')|
  {
    var tokens := Split(record, ',');
    if |tokens| != |Config.SCHEMA| then ColumnCount(|tokens|)
    else ConvertCells(Config.SCHEMA, tokens, 0)
  }

  /** Column k of a decoded row is the rule of column k's type applied to token k. */
  lemma {:induction false} ConvertCellsColumns(schema: seq<Config.Field>, tokens: seq<string>, i: nat)
    requires |tokens| == |schema| && i <= |schema|
    requires ConvertCells(schema, tokens, i).Row?
    ensures forall k | i <= k < |schema| ::
      ConvertCell(schema[k].ty, tokens[k]) == Converted(ConvertCells(schema, tokens, i).values[k - i])
    decreases |schema| - i
  {
    if i < |schema| {
      ConvertCellsColumns(schema, tokens, i + 1);
    }
  }

  /** A row is rejected exactly at the first column whose token its type rejects. */
  lemma {:induction false} ConvertCellsFirstError(schema: seq<Config.Field>, tokens: seq<string>, i: nat)
    requires |tokens| == |schema| && i <= |schema|
    requires ConvertCells(schema, tokens, i).CellError?
    ensures var c := ConvertCells(schema, tokens, i).column;
      && ConvertCell(schema[c].ty, tokens[c]) == ConvertCells(schema, tokens, i).cell
      && forall k | i <= k < c :: ConvertCell(schema[k].ty, tokens[k]).Converted?
    decreases |schema| - i
  {
    if ConvertCell(schema[i].ty, tokens[i]).Converted? {
      ConvertCellsFirstError(schema, tokens, i + 1);
    }
  }

  /** Every record the normalizer writes has exactly one token per schema column. */
  lemma CleanedRecordWidth(record: string)
    requires Count(record, ',') == |Config.HEADER| - 1
    ensures !ConvertRecord(record).ColumnCount?
  {
    SplitLength(record, ',');
    Config.SchemaMatchesHeader();
  }

  // ---------------------------------------------------------------------------
  // Decoding the normalizer's output

  /** A line of the cleaned stream without its LF. */
  function StripLF(line: string): (r: string)
    ensures r <= line
  {
    if line != [] && line[|line| - 1] == '\n' then line[..|line| - 1] else line
  }

  /** The decoded table, or the index of the first row that fails and why. */
  datatype TableResult = Table(rows: seq<seq<CellValue>>) | RowError(row: nat, error: RowResult)

  /** Decodes the lines in order; the first failing row ends the decoding. */
  function ConvertLines(lines: seq<string>): (r: TableResult)
    ensures r.RowError? ==> r.row < |lines| && !r.error.Row?
  {
    if lines == [] then Table([])
    else
      var prior := ConvertLines(lines[..|lines| - 1]);
      if prior.RowError? then prior
      else match ConvertRecord(StripLF(lines[|lines| - 1]))
        case Row(values) => Table(prior.rows + [values])
        case error => RowError(|lines| - 1, error)
  }

  /** `parse_green_taxi_csv` on the text the normalizer wrote: no header row, names from the schema. */
  function ParseCleaned(text: string): TableResult {
    ConvertLines(Lines(text))
  }

  /**
   * Decoding keeps the order of the lines: a table holds row k as line k's
   * values, and an error names the first line that does not decode and what
   * went wrong with it.
   */
  lemma {:induction false} ConvertLinesOrder(lines: seq<string>)
    ensures ConvertLines(lines).Table? ==>
      var rows := ConvertLines(lines).rows;
      |rows| == |lines| && forall k | 0 <= k < |lines| :: ConvertRecord(StripLF(lines[k])) == Row(rows[k])
    ensures ConvertLines(lines).RowError? ==>
      var e := ConvertLines(lines);
      && (forall k | 0 <= k < e.row :: ConvertRecord(StripLF(lines[k])).Row?)
      && e.error == ConvertRecord(StripLF(lines[e.row]))
  {
    if lines != [] {
      var init := lines[..|lines| - 1];
      assert forall k | 0 <= k < |init| :: init[k] == lines[k];
      ConvertLinesOrder(init);
    }
  }

  /** Every line splits into one token per schema column. */
  predicate SchemaWide(lines: seq<string>) {
    forall i | 0 <= i < |lines| :: !ConvertRecord(StripLF(lines[i])).ColumnCount?
  }

  /** Lines of schema width decode into one row per line, or fail only on a cell. */
  lemma {:induction false} ConvertLinesShape(lines: seq<string>)
    requires SchemaWide(lines)
    ensures ConvertLines(lines).Table? ==> |ConvertLines(lines).rows| == |lines|
    ensures ConvertLines(lines).RowError? ==> ConvertLines(lines).error.CellError?
  {
    if lines != [] {
      var init := lines[..|lines| - 1];
      assert forall i | 0 <= i < |init| :: init[i] == lines[i];
      ConvertLinesShape(init);
    }
  }

  /** A record the normalizer writes, read back from its output line, has schema width. */
  lemma RecordLineWidth(line: string, out: string)
    requires Records.Extract(line).Some? && out == Records.Extract(line).value + "\n"
    ensures !ConvertRecord(StripLF(out)).ColumnCount?
  {
    var record := Records.Extract(line).value;
    assert StripLF(out) == record;
    Records.CleanedRecordShape(line);
    Records.FieldCountIsHeaderLength();
    CleanedRecordWidth(record);
  }

  /**
   * Decoding what the normalizer wrote on a successful run never fails on the
   * number of columns: it yields one row per data line, or stops at a cell
   * whose token its column's type rejects.
   */
  lemma NormalizedOutputDecodes(lines: seq<string>)
    requires forall i | 0 <= i < |lines| :: IsLine(lines[i])
    requires Records.CleanData(lines).outcome.Ok?
    ensures ParseCleaned(Records.CleanData(lines).written).Table? ==>
      |ParseCleaned(Records.CleanData(lines).written).rows| == |lines|
    ensures ParseCleaned(Records.CleanData(lines).written).RowError? ==>
      ParseCleaned(Records.CleanData(lines).written).error.CellError?
  {
    var out := Lines(Records.CleanData(lines).written);
    Records.CleanDataRecords(lines);
    forall i | 0 <= i < |out|
      ensures !ConvertRecord(StripLF(out[i])).ColumnCount?
    {
      RecordLineWidth(lines[i], out[i]);
    }
    ConvertLinesShape(out);
  }
}
