/** The records the engine stores, and Go's fixed-width integer conversions. */
module Records {

  datatype Option<T> = None | Some(value: T)

  /** One city, combining what the Geonames and MaxMind feeds provide. */
  datatype GeobedCity = GeobedCity(
    City: string,
    CityLower: string,   // search and sort key
    CityAlt: string,     // raw alternate-names text
    Country: string,
    Region: string,
    Latitude: real,      // float64 in the source; only carried, never computed with
    Longitude: real,
    Population: int,     // int32 in the source
    Geohash: string)

  /** `GeobedCity{}`: the record returned when nothing can be looked up. */
  const ZeroCity := GeobedCity("", "", "", "", "", 0.0, 0.0, 0, "")

  /** One row of the Geonames country-info feed. */
  datatype CountryInfo = CountryInfo(
    Country: string,
    Capital: string,
    Area: int,           // int32
    Population: int,     // int32
    GeonameId: int,      // int32
    ISONumeric: int,     // int16
    ISO: string,
    ISO3: string,
    Fips: string,
    Continent: string,
    Tld: string,
    CurrencyCode: string,
    CurrencyName: string,
    Phone: string,
    PostalCodeFormat: string,
    PostalCodeRegex: string,
    Languages: string,
    Neighbours: string,
    EquivalentFipsCode: string)

  /** The conversions the loaders borrow from libraries: `strconv.Atoi`,
      `strconv.ParseFloat` and `geohash.Encode`. The loaders discard the
      conversion errors, so each is an arbitrary total function here, and what
      `atoi` returns for malformed or out-of-range text is left open. */
  datatype Parsers = Parsers(
    atoi: string -> int,
    parseFloat: string -> real,
    geohash: (real, real) -> string)

  /** The geohash the encoder produces for the point (0, 0). */
  const OriginGeohash := "7zzzzzzzzzzz"

  const TwoTo32 := 0x1_0000_0000
  const TwoTo31 := 0x8000_0000

  /** Go's `int32(x)`: keeps the low 32 bits, read as two's complement. */
  function Int32(x: int): (r: int)
    ensures -TwoTo31 <= r < TwoTo31
    ensures (x - r) % TwoTo32 == 0
  {
    var m := x % TwoTo32;
    if m >= TwoTo31 then m - TwoTo32 else m
  }

  /** Go's `int16(x)`: keeps the low 16 bits, read as two's complement. */
  function Int16(x: int): (r: int)
    ensures -0x8000 <= r < 0x8000
    ensures (x - r) % 0x1_0000 == 0
  {
    var m := x % 0x1_0000;
    if m >= 0x8000 then m - 0x1_0000 else m
  }

  /** A value that already fits is kept by both conversions. */
  lemma NarrowingKeepsInRange(x: int)
    ensures -TwoTo31 <= x < TwoTo31 ==> Int32(x) == x
    ensures -0x8000 <= x < 0x8000 ==> Int16(x) == x
  {
  }
}
