/** The `GeoBed` object: the city store `g.c`, the country table `g.co` and the
    prefix index `cityNameIdx`, the loaders that fill them, and the two lookups. */
module Engine {
  import opened GoStrings
  import opened Records
  import opened Ingest
  import opened Store
  import Forward
  import Reverse

  /** The cut set of the second MaxMind name trim, `"( )"`. */
  const Parens: set<char> := {'(', ' ', ')'}

  /** The index after visiting position `k`: both keys of `v` now point at `k`. */
  function IndexAdd(idx: map<string, int>, v: GeobedCity, k: int): map<string, int>
    requires v.CityLower != []
  {
    var m := idx[v.CityLower[..1] := k];
    if |v.CityLower| >= 2 then m[v.CityLower[..2] := k] else m
  }

  lemma IndexAddAt(idx: map<string, int>, v: GeobedCity, k: int, p: string)
    requires v.CityLower != []
    ensures HasKey(v, p) ==> p in IndexAdd(idx, v, k) && IndexAdd(idx, v, k)[p] == k
    ensures !HasKey(v, p) ==> (p in IndexAdd(idx, v, k) <==> p in idx)
    ensures !HasKey(v, p) && p in idx ==> IndexAdd(idx, v, k)[p] == idx[p]
  {
  }

  /** Visiting the next position keeps the keys of `idx` exactly the keys of
      the positions seen. */
  lemma IndexAddKeys(idx: map<string, int>, cs: seq<GeobedCity>, k: int, p: string)
    requires 0 <= k < |cs| && cs[k].CityLower != []
    requires IndexUpTo(idx, cs, k)
    ensures p in IndexAdd(idx, cs[k], k) <==> exists j :: 0 <= j < k + 1 && HasKey(cs[j], p)
  {
    IndexAddAt(idx, cs[k], k, p);
  }

  /** Visiting the next position keeps every entry of `idx` at the last
      position seen that has its key. */
  lemma IndexAddValue(idx: map<string, int>, cs: seq<GeobedCity>, k: int, p: string)
    requires 0 <= k < |cs| && cs[k].CityLower != []
    requires p in idx ==> 0 <= idx[p] < k && HasKey(cs[idx[p]], p)
    requires p in idx ==> forall j :: idx[p] < j < k ==> !HasKey(cs[j], p)
    requires p in IndexAdd(idx, cs[k], k)
    ensures 0 <= IndexAdd(idx, cs[k], k)[p] <= k && HasKey(cs[IndexAdd(idx, cs[k], k)[p]], p)
    ensures forall j :: IndexAdd(idx, cs[k], k)[p] < j <= k ==> !HasKey(cs[j], p)
  {
    IndexAddAt(idx, cs[k], k, p);
  }

  /** Visiting the next position keeps `idx` the index of the positions seen. */
  lemma IndexAddStep(idx: map<string, int>, cs: seq<GeobedCity>, k: int)
    requires 0 <= k < |cs| && cs[k].CityLower != []
    requires IndexUpTo(idx, cs, k)
    ensures IndexUpTo(IndexAdd(idx, cs[k], k), cs, k + 1)
  {
    var m := IndexAdd(idx, cs[k], k);
    forall p
      ensures p in m <==> exists j :: 0 <= j < k + 1 && HasKey(cs[j], p)
    {
      IndexAddKeys(idx, cs, k, p);
    }
    forall p | p in m
      ensures 0 <= m[p] < k + 1 && HasKey(cs[m[p]], p)
      ensures forall j :: m[p] < j < k + 1 ==> !HasKey(cs[j], p)
    {
      IndexAddValue(idx, cs, k, p);
    }
  }

  /** The body of the index loop for the city `v` at position `k`: each of its
      keys is set to `k` when absent or when it holds a smaller position. */
  method IndexCity(idx: map<string, int>, v: GeobedCity, k: int) returns (m: map<string, int>)
    requires v.CityLower != []
    requires forall key :: key in idx ==> idx[key] < k
    ensures m == IndexAdd(idx, v, k)
  {
    m := idx;
    var ik := v.CityLower[..1];
    if ik in m {
      var val := m[ik];
      // always taken: every recorded position is below `k`
      if val < k {
        m := m[ik := k];
      }
    } else {
      m := m[ik := k];
    }
    if |v.CityLower| >= 2 {
      var ik2 := v.CityLower[..2];
      if ik2 in m {
        var val := m[ik2];
        if val < k {
          m := m[ik2 := k];
        }
      } else {
        m := m[ik2 := k];
      }
    }
  }

  /** The body of the Geonames loop for one line. */
  method ParseGeonamesLine(line: string, p: Parsers) returns (r: Option<GeobedCity>)
    ensures r == GeonamesRow(line, p)
  {
    r := None;
    var fields := SplitN(line, '\t', GeonamesColumns);
    if |fields| == GeonamesColumns {
      var lat := p.parseFloat(fields[4]);
      var lng := p.parseFloat(fields[5]);
      var pop := p.atoi(fields[14]);
      var gh := p.geohash(lat, lng);
      if gh == OriginGeohash {
        gh := "";
      }
      var name := Trim(fields[1], {' '});
      var lower := ToLower(name);
      var city := GeobedCity(name, lower, fields[3], fields[8], fields[10], lat, lng, Int32(pop), gh);
      if |city.City| > 0 {
        r := Some(city);
      }
    }
  }

  /** The Geonames loop: the records of the kept lines, in line order. */
  method ParseGeonamesLines(lines: seq<string>, p: Parsers) returns (rows: seq<GeobedCity>)
    ensures rows == GeonamesCities(lines, p)
  {
    rows := [];
    for i := 0 to |lines|
      invariant rows == GeonamesCities(lines[..i], p)
    {
      GeonamesCitiesStep(lines, i, p);
      var row := ParseGeonamesLine(lines[i], p);
      if row.Some? {
        rows := rows + [row.value];
      }
    }
    assert lines[..|lines|] == lines;
  }

  /** The body of the second MaxMind loop for one de-duplicated row. */
  method ParseMaxMindRow(fields: seq<string>, p: Parsers) returns (r: Option<GeobedCity>)
    requires |fields| == MaxMindColumns
    ensures r == MaxMindRow(fields, p)
  {
    r := None;
    if fields[0] != "" && fields[0] != "0" {
      if fields[2] != "AccentCity" {
        var pop := p.atoi(fields[4]);
        var lat := p.parseFloat(fields[5]);
        var lng := p.parseFloat(fields[6]);
        var cn := Trim(fields[2], {' '});
        cn := Trim(cn, Parens);
        ContainsByte(cn, '!');
        ContainsByte(cn, '@');
        if Contains(cn, "!") || Contains(cn, "@") {
          return;
        }
        var gh := p.geohash(lat, lng);
        if gh == OriginGeohash {
          gh := "";
        }
        var lower := ToLower(cn);
        var country := ToUpper(fields[0]);
        var city := GeobedCity(cn, lower, "", country, fields[3], lat, lng, Int32(pop), gh);
        if |city.City| > 0 {
          r := Some(city);
        }
      }
    }
  }

  /** The first MaxMind loop: every 7-field line is stored under its key in
      `maxMindCityDedupeIdx`, a later line replacing an earlier one. */
  method Dedup(lines: seq<string>) returns (dedup: map<string, seq<string>>)
    ensures dedup == DedupIndex(lines)
  {
    dedup := map[];
    for i := 0 to |lines|
      invariant dedup == DedupIndex(lines[..i])
    {
      assert lines[..i + 1][..i] == lines[..i];
      var fields := Split(lines[i], ',');
      assert DedupIndex(lines[..i + 1])
        == if |fields| == MaxMindColumns then dedup[MaxMindKey(fields) := fields] else dedup;
      if |fields| == MaxMindColumns {
        var idx := fields[0] + fields[1] + fields[4];
        dedup := dedup[idx := fields];
      }
    }
    assert lines[..|lines|] == lines;
  }

  /** The second MaxMind loop: the records of the de-duplicated rows, visited
      in the order `order`. */
  method ParseMaxMindRows(dedup: map<string, seq<string>>, order: seq<string>, p: Parsers)
    returns (rows: seq<GeobedCity>)
    requires forall k :: k in order ==> k in dedup && |dedup[k]| == MaxMindColumns
    ensures rows == MaxMindCities(dedup, order, p)
  {
    rows := [];
    for j := 0 to |order|
      invariant forall k :: k in order[..j] ==> k in dedup && |dedup[k]| == MaxMindColumns
      invariant rows == MaxMindCities(dedup, order[..j], p)
    {
      MaxMindCitiesStep(dedup, order, j, p);
      var row := ParseMaxMindRow(dedup[order[j]], p);
      if row.Some? {
        rows := rows + [row.value];
      }
    }
    assert order[..|order|] == order;
  }

  /** The body of the country-info loop for one line. */
  method ParseCountryLine(t: string, p: Parsers) returns (r: Option<CountryInfo>)
    requires t != ""
    ensures r == CountryRow(t, p)
  {
    r := None;
    if t[0] != '#' {
      var f := SplitN(t, '\t', CountryColumns);
      if |f| == CountryColumns {
        if f[0] != "" && f[0] != "0" {
          r := Some(CountryInfo(
            Country := f[4], Capital := f[5],
            Area := Int32(p.atoi(f[6])), Population := Int32(p.atoi(f[7])),
            GeonameId := Int32(p.atoi(f[16])), ISONumeric := Int16(p.atoi(f[2])),
            ISO := f[0], ISO3 := f[1], Fips := f[3], Continent := f[8], Tld := f[9],
            CurrencyCode := f[10], CurrencyName := f[11], Phone := f[12],
            PostalCodeFormat := f[13], PostalCodeRegex := f[14], Languages := f[15],
            Neighbours := f[17], EquivalentFipsCode := f[18]));
        }
      }
    }
  }

  /** The country-info loop: the countries of the lines, in line order. */
  method ParseCountryLines(lines: seq<string>, p: Parsers) returns (infos: seq<CountryInfo>)
    requires forall i :: 0 <= i < |lines| ==> lines[i] != ""
    ensures infos == CountryInfos(lines, p)
  {
    infos := [];
    for i := 0 to |lines|
      invariant infos == CountryInfos(lines[..i], p)
    {
      CountryInfosStep(lines, i, p);
      var row := ParseCountryLine(lines[i], p);
      if row.Some? {
        infos := infos + [row.value];
      }
    }
    assert lines[..|lines|] == lines;
  }

  // ---------------------------------------------------------------------
  // The rebuild rule of `NewGeobed`

  /** What the three gob snapshots give back: `None` for a load that failed. */
  datatype Snapshot = Snapshot(
    cities: Option<seq<GeobedCity>>,
    countries: Option<seq<CountryInfo>>,
    index: Option<map<string, int>>)

  /** The slice a load leaves behind: nil (empty) after a failure. */
  function Loaded<T>(o: Option<seq<T>>): seq<T> {
    if o.Some? then o.value else []
  }

  /** The rebuild test as written: `err` only holds the index load's error,
      because each load overwrites the previous one's, and a failed city load
      leaves `g.c` empty. */
  predicate RebuildAsWritten(s: Snapshot) {
    s.index.None? || |Loaded(s.cities)| == 0
  }

  /** A failed country load with the other two loads intact is not rebuilt:
      the object comes back with an empty country table. */
  lemma CountryLoadFailureIgnored()
    ensures var city := GeobedCity("Austin", "austin", "", "US", "TX", 0.0, 0.0, 0, "");
            var s := Snapshot(Some([city]), None, Some(map["a" := 0, "au" := 0]));
            s.countries.None? && !RebuildAsWritten(s) && Loaded(s.countries) == []
  {
  }

  /** The evidently intended test: rebuild when any load failed or the store
      is empty. */
  predicate RebuildNeeded(s: Snapshot) {
    s.cities.None? || s.countries.None? || s.index.None? || |Loaded(s.cities)| == 0
  }

  /** The corrected test rebuilds whenever the written one does, and skips the
      rebuild exactly when all three tables were restored and the store is not
      empty. */
  lemma RebuildNeededCovers(s: Snapshot)
    ensures RebuildAsWritten(s) ==> RebuildNeeded(s)
    ensures !RebuildNeeded(s) <==>
      s.cities.Some? && s.countries.Some? && s.index.Some? && s.cities.value != []
    ensures s.countries.None? ==> RebuildNeeded(s)
  {
  }

  class GeoBed {
    /** The city store, sorted by `CityLower` once loading has finished. */
    var c: seq<GeobedCity>
    /** The country table. */
    var co: seq<CountryInfo>
    /** The prefix index. In the source this map is a package-level variable
        shared by every `GeoBed` value; here it belongs to the object. */
    var cityNameIdx: map<string, int>

    /** What the lookups rely on: a sorted store, a correct index, and a
        non-empty search key for every city. */
    ghost predicate Valid()
      reads this
    {
      SortedByName(c) && IsNameIndex(cityNameIdx, c) && NamesNonEmpty(c)
    }

    /** `NewGeobed` with the corrected rebuild test: the object starts from the
        restored snapshot and, when a rebuild is needed, loads the feeds on top
        of whatever was restored (the loaders append). The downloads and the
        final `store()` are left out. */
    constructor New(s: Snapshot, geonames: seq<string>, countryInfo: seq<string>, maxmind: seq<string>,
                    order: seq<string>, p: Parsers)
      requires RebuildNeeded(s) ==> NamesNonEmpty(Loaded(s.cities))
      requires RebuildNeeded(s) ==> forall i :: 0 <= i < |countryInfo| ==> countryInfo[i] != ""
      requires forall k :: k in order <==> k in DedupIndex(maxmind)
      requires forall i, j :: 0 <= i < j < |order| ==> order[i] != order[j]
      ensures !RebuildNeeded(s) ==>
        c == s.cities.value && co == s.countries.value && cityNameIdx == s.index.value
      ensures RebuildNeeded(s) ==>
        && multiset(c) == multiset(Loaded(s.cities) + GeonamesCities(geonames, p)
                                   + MaxMindCities(DedupIndex(maxmind), order, p))
        && co == Loaded(s.countries) + CountryInfos(countryInfo, p)
        && Valid()
    {
      c := Loaded(s.cities);
      co := Loaded(s.countries);
      cityNameIdx := if s.index.Some? then s.index.value else map[];
      new;
      if RebuildNeeded(s) {
        LoadDataSets(geonames, countryInfo, maxmind, order, p);
      }
    }

    /** The loop over the Geonames cities feed. */
    method LoadGeonamesCities(lines: seq<string>, p: Parsers)
      modifies this
      ensures c == old(c) + GeonamesCities(lines, p)
      ensures co == old(co) && cityNameIdx == old(cityNameIdx)
    {
      var rows := ParseGeonamesLines(lines, p);
      c := c + rows;
    }

    /** The two MaxMind loops: de-duplication over the lines, then a pass over
        the de-duplicated rows in the order `order`, which lists every key of
        the map once (Go's map order is unspecified). */
    method LoadMaxMindCities(lines: seq<string>, order: seq<string>, p: Parsers)
      requires forall k :: k in order <==> k in DedupIndex(lines)
      requires forall i, j :: 0 <= i < j < |order| ==> order[i] != order[j]
      modifies this
      ensures c == old(c) + MaxMindCities(DedupIndex(lines), order, p)
      ensures co == old(co) && cityNameIdx == old(cityNameIdx)
    {
      var dedup := Dedup(lines);
      var rows := ParseMaxMindRows(dedup, order, p);
      c := c + rows;
    }

    /** The loop over the country-info feed. Every line is read at its first
        byte, so an empty line would panic; the feed has none. */
    method LoadCountryInfo(lines: seq<string>, p: Parsers)
      requires forall i :: 0 <= i < |lines| ==> lines[i] != ""
      modifies this
      ensures co == old(co) + CountryInfos(lines, p)
      ensures c == old(c) && cityNameIdx == old(cityNameIdx)
    {
      var infos := ParseCountryLines(lines, p);
      co := co + infos;
    }

    /** `sort.Sort(g.c)`: sorted by `CityLower`, a permutation of the store. */
    method SortCities()
      modifies this
      ensures SortedByName(c) && multiset(c) == multiset(old(c))
      ensures co == old(co) && cityNameIdx == old(cityNameIdx)
    {
      c := SortByName(c);
    }

    /** The index loop: each position overwrites the entries of its 1- and
        2-byte keys, so each key ends at its last position. */
    method BuildIndex()
      requires NamesNonEmpty(c)
      modifies this
      ensures IsNameIndex(cityNameIdx, c)
      ensures c == old(c) && co == old(co)
    {
      cityNameIdx := map[];
      for k := 0 to |c|
        invariant c == old(c) && co == old(co)
        invariant IndexUpTo(cityNameIdx, c, k)
      {
        ghost var before := cityNameIdx;
        cityNameIdx := IndexCity(cityNameIdx, c[k], k);
        IndexAddStep(before, c, k);
      }
    }

    /** `loadDataSets`: the three feeds in their fixed order (Geonames cities,
        country info, MaxMind), appended to what the object already holds,
        then the sort and the index. */
    method LoadDataSets(geonames: seq<string>, countryInfo: seq<string>, maxmind: seq<string>,
                        order: seq<string>, p: Parsers)
      requires NamesNonEmpty(c)
      requires forall i :: 0 <= i < |countryInfo| ==> countryInfo[i] != ""
      requires forall k :: k in order <==> k in DedupIndex(maxmind)
      requires forall i, j :: 0 <= i < j < |order| ==> order[i] != order[j]
      modifies this
      ensures multiset(c) == multiset(old(c) + GeonamesCities(geonames, p)
                                      + MaxMindCities(DedupIndex(maxmind), order, p))
      ensures co == old(co) + CountryInfos(countryInfo, p)
      ensures Valid()
    {
      LoadGeonamesCities(geonames, p);
      LoadCountryInfo(countryInfo, p);
      LoadMaxMindCities(maxmind, order, p);
      LoadedNamesNonEmpty(old(c), GeonamesCities(geonames, p), MaxMindCities(DedupIndex(maxmind), order, p));
      SortCities();
      PermutationKeepsNames(old(c) + GeonamesCities(geonames, p) + MaxMindCities(DedupIndex(maxmind), order, p), c);
      BuildIndex();
    }

    /** `Geocode(n)` on this object's store and index, returning the record that
        earned the winning score (see `Forward.GeocodeFixed`). */
    method Geocode(text: string, stripped: string, nCo: string, nSt: string) returns (r: GeobedCity)
      requires Valid()
      requires TrimSpace(text) != "" ==> |c| > 0
      ensures TrimSpace(text) == "" ==> r == ZeroCity
      ensures TrimSpace(text) != "" ==>
        Forward.GeocodeOutcomeFixed(c, cityNameIdx, Forward.MakeQuery(text, stripped, nCo, nSt), r)
    {
      r := Forward.GeocodeFixed(c, cityNameIdx, text, stripped, nCo, nSt);
    }

    /** `ReverseGeocode(lat, lng)` on this object's store, given the point's geohash. */
    method ReverseGeocode(gh: string) returns (r: GeobedCity)
      requires |gh| == Reverse.GeohashLength
      requires gh != OriginGeohash ==> forall k :: 0 <= k < |c| ==> Reverse.GeohashSafe(c[k].Geohash, gh)
      ensures gh == OriginGeohash || Reverse.NoCandidate(c, gh) ==> r == ZeroCity
      ensures gh != OriginGeohash && !Reverse.NoCandidate(c, gh) ==>
        exists b :: Reverse.IsReverseWinner(c, gh, b) && r == c[b]
    {
      r := Reverse.ReverseGeocode(c, gh);
    }
  }

  /** Every loaded city has a non-empty search key, so the index loop never
      reads past the end of one. */
  lemma LoadedNamesNonEmpty(old_c: seq<GeobedCity>, a: seq<GeobedCity>, b: seq<GeobedCity>)
    requires NamesNonEmpty(old_c)
    requires forall i :: 0 <= i < |a| ==> WellFormedCity(a[i])
    requires forall i :: 0 <= i < |b| ==> WellFormedCity(b[i])
    ensures NamesNonEmpty(old_c + a + b)
  {
    var all := old_c + a + b;
    forall k | 0 <= k < |all|
      ensures all[k].CityLower != []
    {
      if k >= |old_c| + |a| {
        assert all[k] == b[k - |old_c| - |a|];
        assert |Lower(all[k].City)| == |all[k].City|;
      } else if k >= |old_c| {
        assert all[k] == a[k - |old_c|];
        assert |Lower(all[k].City)| == |all[k].City|;
      }
    }
  }

  lemma PermutationKeepsNames(xs: seq<GeobedCity>, ys: seq<GeobedCity>)
    requires NamesNonEmpty(xs) && multiset(xs) == multiset(ys)
    ensures NamesNonEmpty(ys)
  {
    forall k | 0 <= k < |ys|
      ensures ys[k].CityLower != []
    {
      assert ys[k] in multiset(xs);
      var j :| 0 <= j < |xs| && xs[j] == ys[k];
    }
  }
}
