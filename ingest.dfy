/** Row acceptance and field extraction for the three raw feeds.
    Lines arrive already read and decompressed; numeric parsing and geohash
    encoding come in through `Parsers`. */
module Ingest {
  import opened GoStrings
  import opened Records

  const GeonamesColumns := 19
  const MaxMindColumns := 7
  const CountryColumns := 19

  function OptionToSeq<T>(o: Option<T>): seq<T> {
    if o.Some? then [o.value] else []
  }

  /** The geohash kept for a record: the origin's geohash stands for "unknown". */
  function StoredGeohash(gh: string): (r: string)
    ensures r != OriginGeohash
    ensures gh == OriginGeohash ==> r == ""
    ensures gh != OriginGeohash ==> r == gh
  {
    if gh == OriginGeohash then "" else gh
  }

  /** What every loader guarantees about the cities it keeps. */
  predicate WellFormedCity(c: GeobedCity) {
    && c.City != ""
    && c.CityLower == Lower(c.City)
    && c.Geohash != OriginGeohash
    && -TwoTo31 <= c.Population < TwoTo31
  }

  // ---------------------------------------------------------------------
  // Geonames cities feed (tab separated, 19 columns)

  /** The display name a Geonames line would give: column 1 trimmed of spaces. */
  function GeonamesName(line: string): string {
    var fields := SplitN(line, '\t', GeonamesColumns);
    if |fields| >= 2 then Trim(fields[1], {' '}) else ""
  }

  /** One line of the Geonames cities feed. */
  function GeonamesRow(line: string, p: Parsers): (r: Option<GeobedCity>)
    ensures r.Some? ==> WellFormedCity(r.value)
  {
    var fields := SplitN(line, '\t', GeonamesColumns);
    if |fields| == GeonamesColumns then
      var lat := p.parseFloat(fields[4]);
      var lng := p.parseFloat(fields[5]);
      var pop := p.atoi(fields[14]);
      var name := Trim(fields[1], {' '});
      if |name| > 0 then
        Some(GeobedCity(name, Lower(name), fields[3], fields[8], fields[10],
                        lat, lng, Int32(pop), StoredGeohash(p.geohash(lat, lng))))
      else None
    else None
  }

  /** A Geonames line is kept exactly when it has at least 18 tabs (so the limited
      split yields 19 fields) and its trimmed name is not empty; the kept record
      takes its columns from those fields. */
  lemma GeonamesAccepted(line: string, p: Parsers)
    ensures GeonamesRow(line, p).Some? <==> multiset(line)['\t'] >= 18 && GeonamesName(line) != ""
    ensures GeonamesRow(line, p).Some? ==>
      var f, c := SplitN(line, '\t', GeonamesColumns), GeonamesRow(line, p).value;
      && Join(f, '\t') == line
      && c.City == Trim(f[1], {' '}) && c.CityAlt == f[3]
      && c.Country == f[8] && c.Region == f[10]
      && c.Latitude == p.parseFloat(f[4]) && c.Longitude == p.parseFloat(f[5])
      && c.Population == Int32(p.atoi(f[14]))
      && c.Geohash == StoredGeohash(p.geohash(c.Latitude, c.Longitude))
  {
    SplitNJoin(line, '\t', GeonamesColumns);
  }

  /** The cities the Geonames loop appends, in line order. */
  function GeonamesCities(lines: seq<string>, p: Parsers): (r: seq<GeobedCity>)
    ensures |r| <= |lines|
    ensures forall i :: 0 <= i < |r| ==> WellFormedCity(r[i])
  {
    if lines == [] then []
    else GeonamesCities(lines[..|lines| - 1], p) + OptionToSeq(GeonamesRow(lines[|lines| - 1], p))
  }

  /** One more line appends that line's record, if any. */
  lemma GeonamesCitiesStep(lines: seq<string>, i: int, p: Parsers)
    requires 0 <= i < |lines|
    ensures GeonamesCities(lines[..i + 1], p) == GeonamesCities(lines[..i], p) + OptionToSeq(GeonamesRow(lines[i], p))
  {
    assert lines[..i + 1][..i] == lines[..i];
  }

  // ---------------------------------------------------------------------
  // MaxMind world-cities feed (comma separated, 7 columns)

  /** The de-duplication key: country, city and population concatenated. */
  function MaxMindKey(fields: seq<string>): string
    requires |fields| == MaxMindColumns
  {
    fields[0] + fields[1] + fields[4]
  }

  /** The de-duplication map after the given lines: each 7-field line
      overwrites the entry under its key. */
  function DedupIndex(lines: seq<string>): (m: map<string, seq<string>>)
    ensures forall k :: k in m ==> |m[k]| == MaxMindColumns && MaxMindKey(m[k]) == k
  {
    if lines == [] then map[]
    else
      var m := DedupIndex(lines[..|lines| - 1]);
      var fields := Split(lines[|lines| - 1], ',');
      if |fields| == MaxMindColumns then m[MaxMindKey(fields) := fields] else m
  }

  /** A line whose fields are kept under their key. */
  predicate KeptLine(lines: seq<string>, j: int)
    requires 0 <= j < |lines|
  {
    |Split(lines[j], ',')| == MaxMindColumns
  }

  /** Line `j` is the last 7-field line whose key is `k`. */
  predicate LastWithKey(lines: seq<string>, j: int, k: string) {
    && 0 <= j < |lines|
    && KeptLine(lines, j)
    && MaxMindKey(Split(lines[j], ',')) == k
    && forall j' :: j < j' < |lines| && KeptLine(lines, j') ==> MaxMindKey(Split(lines[j'], ',')) != k
  }

  /** Every entry of the map is the fields of the LAST 7-field line with its key:
      a later row overwrites an earlier one. */
  lemma {:induction false} DedupLastWins(lines: seq<string>, k: string)
    requires k in DedupIndex(lines)
    ensures exists j :: LastWithKey(lines, j, k) && DedupIndex(lines)[k] == Split(lines[j], ',')
  {
    var init := lines[..|lines| - 1];
    var last := |lines| - 1;
    var fields := Split(lines[last], ',');
    if |fields| == MaxMindColumns && k == MaxMindKey(fields) {
      assert LastWithKey(lines, last, k);
    } else {
      DedupLastWins(init, k);
      var j :| LastWithKey(init, j, k) && DedupIndex(init)[k] == Split(init[j], ',');
      assert init[j] == lines[j];
      forall j' | j < j' < |lines| && KeptLine(lines, j')
        ensures MaxMindKey(Split(lines[j'], ',')) != k
      {
        if j' < last {
          assert init[j'] == lines[j'];
          assert KeptLine(init, j');
        }
      }
      assert LastWithKey(lines, j, k);
    }
  }

  /** The key of every 7-field line is in the map. */
  lemma {:induction false} DedupCoversKeptLines(lines: seq<string>, j: int)
    requires 0 <= j < |lines| && KeptLine(lines, j)
    ensures MaxMindKey(Split(lines[j], ',')) in DedupIndex(lines)
  {
    var init := lines[..|lines| - 1];
    var fields := Split(lines[|lines| - 1], ',');
    if j < |lines| - 1 {
      assert init[j] == lines[j];
      DedupCoversKeptLines(init, j);
    }
  }

  /** The name a MaxMind row is kept under: column 2 trimmed of spaces, then of
      the bytes '(', ' ' and ')'. */
  function MaxMindName(fields: seq<string>): string
    requires |fields| == MaxMindColumns
  {
    Trim(Trim(fields[2], {' '}), {'(', ' ', ')'})
  }

  /** One de-duplicated MaxMind row. */
  function MaxMindRow(fields: seq<string>, p: Parsers): (r: Option<GeobedCity>)
    requires |fields| == MaxMindColumns
    ensures r.Some? ==> WellFormedCity(r.value)
  {
    if fields[0] != "" && fields[0] != "0" && fields[2] != "AccentCity" then
      var pop := p.atoi(fields[4]);
      var lat := p.parseFloat(fields[5]);
      var lng := p.parseFloat(fields[6]);
      var name := MaxMindName(fields);
      if '!' in name || '@' in name then None
      else
        var gh := StoredGeohash(p.geohash(lat, lng));
        if |name| > 0 then
          Some(GeobedCity(name, Lower(name), "", Upper(fields[0]), fields[3], lat, lng, Int32(pop), gh))
        else None
    else None
  }

  /** A MaxMind row is dropped exactly for an empty or "0" country, the header
      row, or a cleaned name that is empty or holds '!' or '@'; a kept row has
      the upper-cased country code. */
  lemma MaxMindAccepted(fields: seq<string>, p: Parsers)
    requires |fields| == MaxMindColumns
    ensures MaxMindRow(fields, p).Some? <==>
      && fields[0] != "" && fields[0] != "0"
      && fields[2] != "AccentCity"
      && !Contains(MaxMindName(fields), "!") && !Contains(MaxMindName(fields), "@")
      && MaxMindName(fields) != ""
    ensures MaxMindRow(fields, p).Some? ==>
      var c := MaxMindRow(fields, p).value;
      c.City == MaxMindName(fields) && c.Country == Upper(fields[0]) && c.Region == fields[3]
      && c.CityAlt == "" && c.Population == Int32(p.atoi(fields[4]))
      && c.Latitude == p.parseFloat(fields[5]) && c.Longitude == p.parseFloat(fields[6])
      && c.Geohash == StoredGeohash(p.geohash(c.Latitude, c.Longitude))
  {
    ContainsByte(MaxMindName(fields), '!');
    ContainsByte(MaxMindName(fields), '@');
  }

  /** The cities the second MaxMind loop appends, visiting the de-duplicated
      entries in the order `order` (Go leaves the order of a map unspecified). */
  function MaxMindCities(dedup: map<string, seq<string>>, order: seq<string>, p: Parsers): (r: seq<GeobedCity>)
    requires forall k :: k in order ==> k in dedup && |dedup[k]| == MaxMindColumns
    ensures |r| <= |order|
    ensures forall i :: 0 <= i < |r| ==> WellFormedCity(r[i])
  {
    if order == [] then []
    else
      MaxMindCities(dedup, order[..|order| - 1], p)
        + OptionToSeq(MaxMindRow(dedup[order[|order| - 1]], p))
  }

  /** A key set that covers `order` covers each of its prefixes. */
  lemma MaxMindPrefixKeys(dedup: map<string, seq<string>>, order: seq<string>, j: int)
    requires forall k :: k in order ==> k in dedup && |dedup[k]| == MaxMindColumns
    requires 0 <= j <= |order|
    ensures forall k :: k in order[..j] ==> k in dedup && |dedup[k]| == MaxMindColumns
  {
    assert forall k :: k in order[..j] ==> k in order;
  }

  /** One more de-duplicated key appends that row's record, if any. */
  lemma MaxMindCitiesStep(dedup: map<string, seq<string>>, order: seq<string>, j: int, p: Parsers)
    requires forall k :: k in order ==> k in dedup && |dedup[k]| == MaxMindColumns
    requires 0 <= j < |order|
    ensures forall k :: k in order[..j + 1] ==> k in dedup && |dedup[k]| == MaxMindColumns
    ensures forall k :: k in order[..j] ==> k in dedup && |dedup[k]| == MaxMindColumns
    ensures MaxMindCities(dedup, order[..j + 1], p)
         == MaxMindCities(dedup, order[..j], p) + OptionToSeq(MaxMindRow(dedup[order[j]], p))
  {
    MaxMindPrefixKeys(dedup, order, j);
    MaxMindPrefixKeys(dedup, order, j + 1);
    assert order[..j + 1][..j] == order[..j];
  }

  // ---------------------------------------------------------------------
  // Geonames country-info feed (tab separated, 19 columns, '#' comments)

  /** One non-empty line of the country-info feed. */
  function CountryRow(line: string, p: Parsers): Option<CountryInfo>
    requires line != ""
  {
    if line[0] == '#' then None
    else
      var f := SplitN(line, '\t', CountryColumns);
      if |f| == CountryColumns && f[0] != "" && f[0] != "0" then
        Some(CountryInfo(
          Country := f[4], Capital := f[5],
          Area := Int32(p.atoi(f[6])), Population := Int32(p.atoi(f[7])),
          GeonameId := Int32(p.atoi(f[16])), ISONumeric := Int16(p.atoi(f[2])),
          ISO := f[0], ISO3 := f[1], Fips := f[3], Continent := f[8], Tld := f[9],
          CurrencyCode := f[10], CurrencyName := f[11], Phone := f[12],
          PostalCodeFormat := f[13], PostalCodeRegex := f[14], Languages := f[15],
          Neighbours := f[17], EquivalentFipsCode := f[18]))
      else None
  }

  /** A country line is kept exactly when it is not a comment, has at least 18
      tabs, and its ISO code is neither empty nor "0". */
  lemma CountryAccepted(line: string, p: Parsers)
    requires line != ""
    ensures CountryRow(line, p).Some? <==>
      && line[0] != '#'
      && multiset(line)['\t'] >= 18
      && SplitN(line, '\t', CountryColumns)[0] != ""
      && SplitN(line, '\t', CountryColumns)[0] != "0"
    ensures CountryRow(line, p).Some? ==>
      CountryRow(line, p).value.ISO == SplitN(line, '\t', CountryColumns)[0]
      && -0x8000 <= CountryRow(line, p).value.ISONumeric < 0x8000
  {
  }

  /** The countries the country-info loop appends, in line order. */
  function CountryInfos(lines: seq<string>, p: Parsers): (r: seq<CountryInfo>)
    requires forall i :: 0 <= i < |lines| ==> lines[i] != ""
    ensures |r| <= |lines|
    ensures forall i :: 0 <= i < |r| ==> r[i].ISO != "" && r[i].ISO != "0"
  {
    if lines == [] then []
    else CountryInfos(lines[..|lines| - 1], p) + OptionToSeq(CountryRow(lines[|lines| - 1], p))
  }

  /** One more line appends that line's country, if any. */
  lemma CountryInfosStep(lines: seq<string>, i: int, p: Parsers)
    requires forall j :: 0 <= j < |lines| ==> lines[j] != ""
    requires 0 <= i < |lines|
    ensures CountryInfos(lines[..i + 1], p) == CountryInfos(lines[..i], p) + OptionToSeq(CountryRow(lines[i], p))
  {
    assert lines[..i + 1][..i] == lines[..i];
  }
}
