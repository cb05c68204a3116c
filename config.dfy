/**
 * The static configuration of the green-taxi transcoder: the header the CSV
 * file must start with, the logical column types and the table schema.
 */
module Config {
  import Digits

  /** The column names the first line of the file must hold, in this order. */
  const HEADER: seq<string> := [
    "VendorID",
    "lpep_pickup_datetime",
    "Lpep_dropoff_datetime",
    "Store_and_fwd_flag",
    "RateCodeID",
    "Pickup_longitude",
    "Pickup_latitude",
    "Dropoff_longitude",
    "Dropoff_latitude",
    "Passenger_count",
    "Trip_distance",
    "Fare_amount",
    "Extra",
    "MTA_tax",
    "Tip_amount",
    "Tolls_amount",
    "Ehail_fee",
    "Total_amount",
    "Payment_type",
    "Trip_type"
  ]

  /**
   * The closed set of logical column types: a 16-bit signed integer, a
   * second-precision timestamp in a named local time zone, a boolean, and an
   * exact base-10 fixed-point number with `precision` digits of which `scale`
   * are fractional.
   */
  datatype LogicalType =
    | SmallInt
    | TimestampLocal(unit: string, zone: string)
    | Bool
    | Decimal(precision: nat, scale: nat)

  const INTEGER: LogicalType := SmallInt
  const TIMESTAMP: LogicalType := TimestampLocal("s", "America/New_York")
  const BOOLEAN: LogicalType := Bool
  const DECIMAL_LON: LogicalType := Decimal(18, 15)
  const DECIMAL_LAT: LogicalType := Decimal(17, 15)
  const DECIMAL_DISTANCE: LogicalType := Decimal(4, 2)
  const DECIMAL_DOLLAR: LogicalType := Decimal(6, 2)

  /** The inclusive range of a 16-bit signed integer. */
  const INT16_MIN: int := -0x8000
  const INT16_MAX: int := 0x7FFF

  datatype Field = Field(name: string, ty: LogicalType)

  /** The table the cleaned records are decoded into, column by column. */
  const SCHEMA: seq<Field> := [
    Field("VendorID", INTEGER),
    Field("lpep_pickup_datetime", TIMESTAMP),
    Field("lpep_dropoff_datetime", TIMESTAMP),
    Field("Store_and_fwd_flag", BOOLEAN),
    Field("RateCodeID", INTEGER),
    Field("Pickup_longitude", DECIMAL_LON),
    Field("Pickup_latitude", DECIMAL_LAT),
    Field("Dropoff_longitude", DECIMAL_LON),
    Field("Dropoff_latitude", DECIMAL_LAT),
    Field("Passenger_count", INTEGER),
    Field("Trip_distance", DECIMAL_DISTANCE),
    Field("Fare_amount", DECIMAL_DOLLAR),
    Field("Extra", DECIMAL_DOLLAR),
    Field("MTA_tax", DECIMAL_DOLLAR),
    Field("Tip_amount", DECIMAL_DOLLAR),
    Field("Tolls_amount", DECIMAL_DOLLAR),
    Field("Ehail_fee", DECIMAL_DOLLAR),
    Field("Total_amount", DECIMAL_DOLLAR),
    Field("Payment_type", INTEGER),
    Field("Trip_type", INTEGER)
  ]

  /** `SCHEMA.names`. */
  function Names(schema: seq<Field>): (names: seq<string>)
    ensures |names| == |schema|
    ensures forall i | 0 <= i < |schema| :: names[i] == schema[i].name
  {
    seq(|schema|, i requires 0 <= i < |schema| => schema[i].name)
  }

  /**
   * The schema has one column per header name, and its names are the header's
   * except for the dropoff timestamp, whose capital letter is lowered.
   */
  lemma SchemaMatchesHeader()
    ensures |HEADER| == |SCHEMA| == 20
    ensures forall i | 0 <= i < |HEADER| && i != 2 :: SCHEMA[i].name == HEADER[i]
    ensures HEADER[2] == "Lpep_dropoff_datetime" && SCHEMA[2].name == "lpep_dropoff_datetime"
    ensures Names(SCHEMA) != HEADER
  {
    assert SCHEMA[2].name != HEADER[2];
    assert Names(SCHEMA)[2] != HEADER[2];
  }

  /** No header name contains a comma, so the header survives a round trip through `split`. */
  lemma HeaderNamesCommaFree()
    ensures forall i | 0 <= i < |HEADER| :: ',' !in HEADER[i]
  {
  }

  /** The column names are unique. */
  lemma HeaderNamesDistinct()
    ensures forall i, j | 0 <= i < j < |HEADER| :: HEADER[i] != HEADER[j]
    ensures forall i, j | 0 <= i < j < |SCHEMA| :: SCHEMA[i].name != SCHEMA[j].name
  {
  }

  /**
   * Every decimal column has at least as many digits as fractional digits, and
   * the coordinate columns keep 15 fractional digits, the money and distance
   * columns 2.
   */
  lemma DecimalColumnsWellFormed()
    ensures forall i | 0 <= i < |SCHEMA| && SCHEMA[i].ty.Decimal? ::
      SCHEMA[i].ty.scale <= SCHEMA[i].ty.precision
      && (SCHEMA[i].ty.scale == 15 <==> 5 <= i <= 8)
  {
  }
}
