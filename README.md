# Geobed core, modelled in Dafny

Geobed is an offline geocoder written in Go. It keeps every city of three raw
feeds in one slice `g.c`, sorted by lower-cased name. The feeds are the
Geonames cities dump, the MaxMind world-cities list and the Geonames country
table. Beside the slice it keeps a country table `g.co` and a prefix index
`cityNameIdx`. The index maps the first byte, and the first two bytes, of a
lower-cased name to the last position in `g.c` holding that prefix. Two
lookups run over the slice:

- `Geocode(n)` turns a free-text query into ranges of the slice, scores
  every record it scans, adds population bonuses, and returns the best
  record. A record matching a stripped US state code is returned at once.
- `ReverseGeocode(lat, lng)` returns the record whose geohash shares the
  longest prefix with the geohash of the point. Ties go to population.

The model follows the structure of `geobed.go`, function by function.

| module | file | contents |
|---|---|---|
| `GoStrings` | `strings.dfy` | The byte-level string functions the program calls, and `toLower`/`toUpper` as array-filling loops. |
| `Records` | `records.dfy` | `GeobedCity` and `CountryInfo`, and the 32- and 16-bit narrowing of parsed integers. |
| `Ingest` | `ingest.dfy` | Row acceptance for the three feeds as functions over lines, and the MaxMind de-duplication map. |
| `Store` | `store.dfy` | Go's string order, `Cities.Less`, the sort, and the predicate saying what a correct prefix index is. |
| `Forward` | `forward.dfy` | `Geocode`: abbreviation, scan ranges, scoring, the state-code early return, population bonus and winner. |
| `Reverse` | `reverse.dfy` | `ReverseGeocode`. |
| `Engine` | `engine.dfy` | The `GeoBed` class: loaders, sort, index build, the `NewGeobed` rebuild rule, and the two lookups on the object. |

The class `GeoBed` holds `c`, `co` and `cityNameIdx` as fields. Its methods
change those fields as the Go methods do. `Valid()` states what the lookups
rely on: the store is sorted, the index is correct, and every name is
non-empty.

Each loop of the source is a Dafny loop, with three exceptions inside the
scoring of one record. The loop over the abbreviation match (geobed.go:575)
is an `Option` match in `AbbrevPoints`, because the match slice holds at
most one string. The loops over the alternate names (geobed.go:620) and over
the words (geobed.go:648) are the recursive functions `AltPoints` and
`TokenPoints`. Every other loop's method is proved against a
specification function of its inputs: `GeonamesCities`, `DedupIndex`,
`MaxMindCities`, `CountryInfos`, `RangesOf`, `ScoreAll`, `Bonus`,
`IsWinner` and `IsReverseWinner`. Lemmas then state what the source promises
about those functions.

Some behaviour is odd, and it is modelled as written:

- A missing bucket end becomes `len(g.c)-1`, not `len(g.c)`.
- Only the first `[\S]{2,3}` match serves as an abbreviation.
- A rebuild appends to whatever the snapshots restored.

Every range `{f, t}` lies within `[0, len(g.c)-1]` (`ScanRangeBounds`).
Every city whose name starts with the word's first byte lies in `[f, t]`
(`ScanRangeCoversBucket`). When that byte has a nonzero index entry, `t` is
the last city of the byte's group.

The scan reads `g.c[f:t]`, so the record at `t` is never scored. Each
score is stored under the key one past the record's position, because
`currentKey++` runs before use. The lookup then returns `g.c[k]` for the
winning key `k`, which is the record after the one that earned the score.
The keys `f+1..t` name exactly the cities up to the group's end, but the
points under them come from `f..t-1`. This is not harmless. On a store
holding Austin and Boston, the query "Austin" returns Boston, and the
query "Boston" returns Austin, because Boston itself is never scanned (see
Findings). `Forward.Geocode` models the code as written. `ScoreKeysInRange`
shows that `g.c[k]` is at least always in range.

`Forward.GeocodeFixed` corrects both halves. Each word scans `g.c[f:t+1]`,
and each record is scored under its own position. The population bonus,
the tie-break and the returned record then all read the record that earned
the score. `WordGroupScored` proves, for every input, that the corrected
scan scores every city of a word's first-byte group exactly when that city
earns points. `GeoBed.Geocode` uses the corrected lookup.

`ReverseGeocode` reads the first bytes of every stored geohash, and the
empty geohash kept for records at the origin would panic there. The model
therefore states this as a precondition (`GeohashSafe`).

Map iteration order is unspecified in Go, and the model keeps it
unspecified:

- The MaxMind de-duplicated rows are visited in an `order` that the caller
  supplies. It lists every key once.
- The bonus and winner loops pick keys with `:|`.
- Their results are stated as relations (`HighestPopulationKey`,
  `IsWinner`), which deliberately do not name one winner among exact ties.

## Model

| member | source | states |
|---|---|---|
| `GoStrings.Lower` | geobed.go:774-785 | The result has the input's length; each byte `A`..`Z` becomes its lower-case letter and every other byte is unchanged. |
| `GoStrings.Upper` | geobed.go:787-797 | The result has the input's length; each byte `a`..`z` becomes its upper-case letter and every other byte is unchanged. |
| `GoStrings.ToLower` | geobed.go:774-785 | The byte-buffer loop of `toLower` produces exactly `Lower(s)`. |
| `GoStrings.ToUpper` | geobed.go:787-797 | The byte-buffer loop of `toUpper` produces exactly `Upper(s)`. |
| `GoStrings.LowerIdempotent` | geobed.go:576-577 | Lower-casing twice is lower-casing once. |
| `GoStrings.EqualFoldLower` | geobed.go:576-577 | Folding the abbreviation to lower case beforehand does not change the case-insensitive comparison. |
| `GoStrings.ContainsIff` | geobed.go:652 | `strings.Contains` holds exactly when the substring occurs at some offset. |
| `GoStrings.ContainsByte` | geobed.go:341 | A one-byte substring is contained exactly when the byte occurs in the string. |
| `GoStrings.ContainsTrivial` | geobed.go:652 | The empty string and the string itself are contained in every string. |
| `GoStrings.TrimLeft` | geobed.go:271 | The result is a suffix of the input; every byte dropped is in the cut set, and the first byte kept is not. |
| `GoStrings.TrimRight` | geobed.go:271 | The result is a prefix of the input; every byte dropped is in the cut set, and the last byte kept is not. |
| `GoStrings.TrimShape` | geobed.go:337-338 | `strings.Trim` returns a slice of the input whose two ends are not in the cut set, and every byte cut off on either side is in the cut set. |
| `GoStrings.TrimIdempotent` | geobed.go:337-338 | Trimming twice with the same set is trimming once. |
| `GoStrings.TrimEmptyIff` | geobed.go:282 | A trimmed name is empty exactly when every byte of the input is in the cut set. |
| `GoStrings.TrimUnchanged` | geobed.go:497 | A string whose first and last bytes are outside the cut set is its own trim. |
| `GoStrings.Split` | geobed.go:316 | `strings.Split` on one byte gives one piece more than there are separators, and no piece holds the separator. |
| `GoStrings.SplitN` | geobed.go:250 | The tab regexp split with limit `n` gives `min(tabs+1, n)` pieces, and only the last piece may hold a tab. |
| `GoStrings.SplitJoin` | geobed.go:316 | Joining the pieces of `Split` with the separator gives back the line. |
| `GoStrings.SplitNJoin` | geobed.go:250 | Joining the pieces of the limited split with the separator gives back the line. |
| `GoStrings.SplitNoSeparator` | geobed.go:502 | A string with no separator splits into itself alone. |
| `GoStrings.SplitNUnderLimit` | geobed.go:390 | With fewer separators than the limit, the limited split equals the unlimited one. |
| `GoStrings.Word` | geobed.go:619 | The leading word is a prefix free of white space, followed by white space or by the end of the string. |
| `GoStrings.Fields` | geobed.go:619 | Every field of `strings.Fields` is non-empty and holds no white space. |
| `GoStrings.FieldsConcat` | geobed.go:619 | The fields, concatenated, are the string with its white space removed: no byte is lost or invented. |
| `GoStrings.SplitAnyWord` | geobed.go:619 | Splitting at white space puts a word free of white space in front of the first piece of what follows it. |
| `GoStrings.FieldsSplitsAtWhitespace` | geobed.go:619 | The fields are exactly the non-empty pieces of the string cut at every white-space byte, in order: the maximal runs of non-space bytes. |
| `Records.Int32` | geobed.go:278 | `int32(pop)` lies in the 32-bit range and agrees with `pop` modulo 2^32. |
| `Records.Int16` | geobed.go:402 | `int16(isoNumeric)` lies in the 16-bit range and agrees with the input modulo 2^16. |
| `Records.NarrowingKeepsInRange` | geobed.go:278 | A value already in range is kept unchanged by either narrowing. |
| `Ingest.StoredGeohash` | geobed.go:264-268 | The origin's hash `7zzzzzzzzzzz` becomes the empty string, and every other hash is stored unchanged; the origin's hash is never stored. |
| `Ingest.GeonamesRow` | geobed.go:250-285 | Every record built from a Geonames line has a non-empty name, `CityLower` equal to the lower-cased name, no origin geohash and a 32-bit population. |
| `Ingest.GeonamesAccepted` | geobed.go:250-285 | A line is kept exactly when it has at least 18 tabs and a non-empty space-trimmed name. A kept record takes name, alternate names, country, region and population from fields 1, 3, 8, 10 and 14, and its coordinates from fields 4 and 5. Its geohash is the stored form of the coordinates' hash. The 19 fields rejoin to the line. |
| `Ingest.GeonamesCities` | geobed.go:248-285 | The loop keeps at most one record per line, and every record kept is well formed. |
| `Ingest.MaxMindKey` | geobed.go:318-323 | Defines the de-duplication key: fields 0, 1 and 4 concatenated. |
| `Ingest.DedupIndex` | geobed.go:313-327 | Every entry of the de-duplication map has 7 fields and sits under its own key `fields[0]+fields[1]+fields[4]`. |
| `Ingest.DedupLastWins` | geobed.go:316-326 | Each entry holds the fields of the last 7-field line with that key: a later row overwrites an earlier one. |
| `Ingest.DedupCoversKeptLines` | geobed.go:316-326 | The key of every 7-field line is in the map. |
| `Ingest.MaxMindRow` | geobed.go:330-366 | Every record built from a de-duplicated MaxMind row is well formed. |
| `Ingest.MaxMindName` | geobed.go:337-338 | Defines the kept name: field 2 trimmed of `' '`, then of `( )`. |
| `Ingest.MaxMindAccepted` | geobed.go:330-366 | A row is dropped exactly when the country is `""` or `"0"`, field 2 is `AccentCity`, or the name is empty or holds `!` or `@`. The name is trimmed of `' '` and then of `( )` first. A kept record has the upper-cased country code, field 3 as region, no alternate names, field 4 as population, and fields 5 and 6 as coordinates. Its geohash is the stored form of the coordinates' hash. |
| `Ingest.MaxMindCities` | geobed.go:330-366 | The second MaxMind loop keeps at most one record per key, and every record kept is well formed. |
| `Ingest.CountryRow` | geobed.go:386-421 | Defines one country line: none for a comment line, a split other than 19 fields, or an ISO code of `""` or `"0"`; else the record with its fields and narrowed integers. |
| `Ingest.CountryAccepted` | geobed.go:386-421 | A country line is kept exactly when it is not a `#` comment, has at least 18 tabs, and has an ISO code that is neither empty nor `"0"`. The kept entry carries that ISO code and a 16-bit numeric code. |
| `Ingest.CountryInfos` | geobed.go:384-421 | At most one country per line is kept, and every kept country has an ISO code that is neither empty nor `"0"`. |
| `Store.LessStr` | geobed.go:123-125 | Defines Go's `<` on strings: byte-wise lexicographic order, a proper prefix being smaller. |
| `Store.CityLess` | geobed.go:123-125 | Defines `Cities.Less`: the order of the lower-cased names. |
| `Store.LessStrIrreflexive` | geobed.go:123-125 | No name sorts before itself. |
| `Store.LessStrTransitive` | geobed.go:123-125 | The name order is transitive. |
| `Store.LessStrAsymmetric` | geobed.go:123-125 | The name order is asymmetric. |
| `Store.LessStrTotal` | geobed.go:123-125 | Any two distinct names are ordered one way or the other. |
| `Store.FirstByteOrder` | geobed.go:123-125 | Names with different first bytes are ordered by those bytes. |
| `Store.Insert` | geobed.go:429 | Inserting into a sorted store keeps it sorted and adds exactly the one city. |
| `Store.SortByName` | geobed.go:429 | `sort.Sort(g.c)` yields a store sorted by `CityLower` that is a permutation of the input. |
| `Store.SortedOrder` | geobed.go:123-125 | In a sorted store, a strictly smaller name sits at a strictly smaller position. |
| `Store.IndexOrdered` | geobed.go:429-459 | In a sorted store with a correct index, the last position of a 1-byte key is below that of any greater 1-byte key. |
| `Engine.IndexAdd` | geobed.go:434-457 | Defines one index step: both prefix keys of the city now point at its position. |
| `Engine.IndexAddAt` | geobed.go:434-457 | Visiting a city sets both of its keys to the current position and leaves every other entry as it was. |
| `Engine.IndexAddKeys` | geobed.go:434-457 | After one more city, the keys of the index are exactly the keys of the cities visited. |
| `Engine.IndexAddValue` | geobed.go:434-457 | After one more city, every entry points at the last visited position holding its key. |
| `Engine.IndexAddStep` | geobed.go:433-458 | One more city keeps the index correct for the visited prefix of the store. |
| `Engine.IndexCity` | geobed.go:434-457 | The loop body with its `val < k` tests yields the same map as setting both keys to `k`, since every recorded value is below `k`. |
| `Engine.ParseGeonamesLine` | geobed.go:250-284 | The loop body for one line yields exactly `GeonamesRow`. |
| `Engine.ParseGeonamesLines` | geobed.go:248-285 | The Geonames loop yields exactly `GeonamesCities` of the lines. |
| `Engine.Dedup` | geobed.go:313-327 | The first MaxMind loop builds exactly `DedupIndex` of the lines. |
| `Engine.ParseMaxMindRow` | geobed.go:330-366 | The loop body for one de-duplicated row, with its early `continue`, yields exactly `MaxMindRow`. |
| `Engine.ParseMaxMindRows` | geobed.go:330-366 | The second MaxMind loop yields exactly `MaxMindCities` in the visiting order. |
| `Engine.ParseCountryLine` | geobed.go:386-421 | The loop body for one country line yields exactly `CountryRow`. |
| `Engine.ParseCountryLines` | geobed.go:384-421 | The country loop yields exactly `CountryInfos` of the lines. |
| `Engine.GeoBed.LoadGeonamesCities` | geobed.go:248-285 | `g.c` becomes the old store followed by the Geonames records; `g.co` and the index are unchanged. |
| `Engine.GeoBed.LoadMaxMindCities` | geobed.go:290-369 | `g.c` becomes the old store followed by the MaxMind records of the de-duplicated map, in the visiting order. |
| `Engine.GeoBed.LoadCountryInfo` | geobed.go:372-423 | `g.co` becomes the old table followed by the countries of the feed, and `g.c` is unchanged. |
| `Engine.GeoBed.SortCities` | geobed.go:429 | `g.c` becomes sorted and is a permutation of the old store. |
| `Engine.GeoBed.BuildIndex` | geobed.go:432-459 | `cityNameIdx` maps exactly the 1- and 2-byte prefixes of the names to the greatest position holding each; the store is unchanged. |
| `Engine.GeoBed.LoadDataSets` | geobed.go:220-460 | The store holds exactly the old cities plus the Geonames and MaxMind records, and the country table gains the feed's countries. The object ends `Valid()`: sorted, correctly indexed, every name non-empty. |
| `Engine.LoadedNamesNonEmpty` | geobed.go:282 | Every loaded city has a non-empty search key, so `v.CityLower[0]` in the index loop is in range. |
| `Engine.PermutationKeepsNames` | geobed.go:429 | Sorting keeps every name non-empty. |
| `Engine.RebuildAsWritten` | geobed.go:179 | Defines the rebuild test as written: the index load failed or the store is empty, since `err` only keeps the index load's error. |
| `Engine.CountryLoadFailureIgnored` | geobed.go:176-179 | As written: city and index snapshots restored but the country load failed, and no rebuild is triggered, leaving an empty country table. |
| `Engine.RebuildNeeded` | geobed.go:175-179 | Defines the corrected rebuild test: any of the three loads failed, or the store is empty. |
| `Engine.RebuildNeededCovers` | geobed.go:176-183 | The corrected test rebuilds whenever the written one does, and also on a failed country load. It skips the rebuild exactly when all three snapshots loaded and the store is non-empty. |
| `Engine.GeoBed.New` | geobed.go:172-186 | Without a needed rebuild, the object holds the three restored tables. With one, it holds the restored tables plus the loaded feeds, sorted and indexed, and is `Valid()`. |
| `Forward.MakeQuery` | geobed.go:463-502 | Defines the query `Geocode` scores with: `n` trimmed of `" ,"`, the abbreviation of the space-trimmed text, the detected codes, and the words of `n` split at `' '`. |
| `Forward.FirstPairFrom` | geobed.go:472-473 | The result is the leftmost position at or after `i` where two non-space bytes start, or there is none. |
| `Forward.Abbreviation` | geobed.go:472-473 | Defines `FindStringSubmatch` with `[\S]{2,3}`: the greedy match at the leftmost pair of non-space bytes, or none. |
| `Forward.AbbreviationIsLeftmost` | geobed.go:472-473 | An abbreviation exists exactly when two non-space bytes are adjacent. It is the greedy 2- or 3-byte non-space match at the leftmost such place, and only that first match is used. |
| `Forward.AbbrevPoints` | geobed.go:575-593 | Defines +5 for the region and +3 for the country, when the abbreviation has exactly two bytes and equals the code case-insensitively. |
| `Forward.CodePoints` | geobed.go:596-615 | Defines +4 each for a detected country code and a detected state code equal to the record's. |
| `Forward.AltPoints` | geobed.go:618-637 | Defines, per alternate name, +3 for a case-insensitive match of `n` and +5 more for an exact one. |
| `Forward.TokenPoints` | geobed.go:648-670 | Defines, per word with its trailing comma dropped, +2 when the lower-cased name contains it and +1 when it equals the name case-insensitively. |
| `Forward.Points` | geobed.go:575-670 | Defines all the points one scanned record earns: abbreviation, codes, alternate names, +7 for a case-insensitive name match, and words. |
| `Forward.TokenPointsAppend` | geobed.go:648-670 | Word points are additive over the words of the query. |
| `Forward.AltPointsAppend` | geobed.go:618-637 | Alternate-name points are additive over the alternate names. |
| `Forward.EmptyTokenScoresTwo` | geobed.go:648-660 | An empty word is contained in every name, so it adds 2 points to any record with a name. |
| `Forward.ExactAltScoresEight` | geobed.go:618-637 | An alternate name equal to the query adds 8 points: 3 for the folded match and 5 for the exact one. |
| `Forward.SingleWordNameScoresTen` | geobed.go:639-670 | A one-word query equal to the record's name, ignoring case, earns at least 10 points: 7 for the name, 2 for containment and 1 for the word match. |
| `Forward.PrevKey` | geobed.go:725-727 | Defines `prev(fc)` as an index key: the code point one below, and no key when that is not a valid character. |
| `Forward.ScanRange` | geobed.go:513-537 | Defines the range of one word: from the last position of the previous byte's key (0 when missing) to that of the word's lower-cased first byte, replaced by `len(g.c)-1` when missing or 0. |
| `Forward.PrevKeyIsSmaller` | geobed.go:725-727 | `prev(fc)`, when it is a byte at all, is one byte below `fc`. |
| `Forward.ScanRangeBounds` | geobed.go:513-537 | Over a sorted, correctly indexed store, every scan range `{f, t}` satisfies `0 <= f <= t <= len(g.c)-1`, so `g.c[f:t]` never panics. |
| `Forward.ScanRangeCoversBucket` | geobed.go:513-537 | Every city whose name starts with the word's lower-cased first byte lies within `[f, t]`. The half-open scan `g.c[f:t]` never reaches position `t`. |
| `Forward.RangesValid` | geobed.go:512-537 | Every range computed from the words is valid. |
| `Forward.ComputeRanges` | geobed.go:512-537 | The range loop yields exactly `RangesOf` of the words, and all its ranges are valid. |
| `Forward.ScoreUpToAt` | geobed.go:543-546 | Scanning `g.c[f:t]` credits the points of position `i` under key `i+1`, for exactly the keys `f+1..t` with positive points. |
| `Forward.ScoreAllGet` | geobed.go:539-672 | The score under key `k` is the points of record `k-1` times the number of ranges that scan it; overlapping or repeated ranges add again. |
| `Forward.ScoreAllHas` | geobed.go:539-672 | A key is scored exactly when some range scans its record and that record earns points. |
| `Forward.ScoreKeysInRange` | geobed.go:543-546 | Every scored key lies in `[1, len(g.c)-1]` and has a positive score, so `g.c[k]` is in range despite the offset. |
| `Forward.StateHit` | geobed.go:549-553 | Defines the early-return test: a state code was detected, and `n` and the code equal the record's name and region case-insensitively. |
| `Forward.Interval` | geobed.go:545 | The positions a range visits are `lo, lo+1, ..., hi-1` in order. |
| `Forward.ScanOrderBounds` | geobed.go:541-545 | Every visited position lies in `[0, len(g.c)-2]`. |
| `Forward.FirstHitFound` | geobed.go:549-553 | A state hit with no earlier visited hit is the first hit of the whole visiting order. |
| `Forward.ScanOne` | geobed.go:541-672 | The inner loop returns the first state hit of its range, or else the range's scores added on top of the old ones. |
| `Forward.ScoreCandidates` | geobed.go:539-672 | The scan returns the first state hit in visiting order, or, with no hit at all, exactly `ScoreAll` of the ranges. |
| `Forward.ThousandBonus` | geobed.go:678-682 | Defines +1 to every scored key whose record has at least 1000 people. |
| `Forward.Bonus` | geobed.go:675-692 | Defines the bonus-adjusted map: the 1000-population point, then +1 for `hpk` when its record has a positive population, creating the key if needed. |
| `Forward.BonusPass` | geobed.go:675-689 | The bonus loop adds 1 to every key whose record has at least 1000 people. It leaves `hpk` at a scored key of highest positive population, or at 0 when no scored record has a positive population. |
| `Forward.AddPopulationBonus` | geobed.go:675-693 | The score map becomes `Bonus`: the 1000-population point, then one more point for `hpk`, given only when `g.c[hpk]` has a positive population. |
| `Forward.BonusKeys` | geobed.go:675-693 | The bonus keeps scores positive, adds no key but `hpk`, and never lowers a score. |
| `Forward.PickWinner` | geobed.go:695-722 | The winner loop returns 0 for an empty map. Otherwise it returns a key of maximal score such that no key of equal score has a strictly larger population. |
| `Forward.PopulationBreaksTies` | geobed.go:704-709 | Of two top-scoring keys, the one with strictly smaller population never wins. |
| `Forward.Rank` | geobed.go:675-722 | Without a detected country, the winner is chosen on the bonus-adjusted map; otherwise on the raw map. |
| `Forward.Scan` | geobed.go:463-537 | The query is built from the trimmed text, its abbreviation and its words. The ranges are `RangesOf` its words, and every one of them is valid. |
| `Forward.Geocode` | geobed.go:463-723 | As written: a blank query returns the zero city. Otherwise the result is the first visited state hit, or else `g.c[k]` for a winning key `k` of the scored map. |
| `Forward.Unshift` | geobed.go:543-546 | Moves every key of the score map down by one: key `k` is present exactly when key `k+1` was, with the same score. |
| `Forward.ScoreByPosition` | geobed.go:543-672 | With every key moved down by one, record `k` is scored exactly when some range scans it and it earns points. Its score is its own points times the number of ranges scanning it. |
| `Forward.UnshiftedKeysInRange` | geobed.go:543-546 | With the offset undone, every key is a position of the store with a positive score. |
| `Forward.Widen` | geobed.go:545 | Defines the corrected slice of each range: `g.c[f:t+1]` in place of `g.c[f:t]`. |
| `Forward.FixedScores` | geobed.go:539-672 | Defines the corrected score map: every word's widened slice, with each record under its own position. |
| `Forward.CoverageAt` | geobed.go:539-545 | A position inside some range is scanned at least once. |
| `Forward.RangeOfWord` | geobed.go:513-537 | Every non-empty word, with its trailing comma dropped, has its own scan range among the query's ranges. |
| `Forward.WordGroupCovered` | geobed.go:513-545 | In the corrected scan, every city whose name starts with the lower-cased first byte of some word is scanned. |
| `Forward.CoveredScored` | geobed.go:543-672 | With the offset undone, a scanned record is scored exactly when it earns points, and gets at least its own points. |
| `Forward.WordGroupScored` | geobed.go:513-672 | In the corrected lookup, every city of a word's first-byte group is scored exactly when it earns points, with at least its own points. No city of the group is missed, the last one included. |
| `Forward.ExactNameScored` | geobed.go:639-641 | In the corrected lookup, a city of a word's group whose name equals the query case-insensitively is scored with at least the 7 points of that rule. |
| `Forward.GeocodeFixed` | geobed.go:463-723 | A blank query returns the zero city. Otherwise every word scans `g.c[f:t+1]`. The result is the first visited state hit, or else the winner of the map in which every record is scored under its own position. Bonus, tie-break and result all read the record that earned the score. |
| `Forward.OneWordQuery` | geobed.go:466-502 | A query of one word without white space or commas is its own trimmed text and its only word. |
| `Forward.NoStateCodeNoHit` | geobed.go:549-553 | Without a state code no record is a state hit, so both lookups end in scoring. |
| `Forward.LoneKeyWins` | geobed.go:675-722 | With no population anywhere and no country detected, a lone scored key is the winner. |
| `Forward.TwoCitiesValid` | geobed.go:432-459 | The store of Austin and Boston is sorted and its prefix index is correct, so both lookups accept it. |
| `Forward.ExactNameReturnsNext` | geobed.go:543-546 | As written, the query "Austin" on that store returns Boston. |
| `Forward.ExactNameReturnsMatch` | geobed.go:721 | The corrected lookup returns Austin for the same query. |
| `Forward.FirstBytesApart` | geobed.go:639-660 | Two names of one length with different lower-cased first bytes neither match case-insensitively nor contain one another. |
| `Forward.OtherInitialScoresNothing` | geobed.go:575-670 | A one-word query earns nothing from a record whose name has the same length but another first letter. The record also has no alternate names, and the query no codes and no two-byte abbreviation. |
| `Forward.NothingScoredFirst` | geobed.go:695-721 | With nothing scored, no population and no country detected, the lookup returns `g.c[0]`. |
| `Forward.LastOfGroupMissed` | geobed.go:545 | As written, the query "Boston" on that store returns Austin, because the slice `g.c[0:1]` leaves Boston out. |
| `Forward.LastOfGroupFound` | geobed.go:545 | The corrected lookup returns Boston for the same query. |
| `Engine.GeoBed.Geocode` | geobed.go:463-723 | The corrected lookup (`GeocodeFixed`), on the object's store and index. |
| `Reverse.CommonPrefixLength` | geobed.go:747-751 | Two geohashes agree on exactly their first `n` bytes and differ at byte `n` if both have one. |
| `Reverse.PrefixMatchIff` | geobed.go:747-751 | `h[0:i] == gh[0:i]` holds exactly when `i` is at most the common prefix length. |
| `Reverse.Matched` | geobed.go:746-752 | Defines `matched` for a candidate: 1 plus the common prefix length of the two geohashes. |
| `Reverse.MatchLength` | geobed.go:746-752 | The counting loop yields 1 plus the common prefix length, which is between 3 and `len(gh)+1`. |
| `Reverse.Candidate` | geobed.go:745 | Defines the candidate test: the stored geohash agrees with the point's on the first two bytes. |
| `Reverse.WinsUpTo` | geobed.go:754-766 | Defines the winner among the first `n` records: a candidate of largest `matched`, then largest population, then the earliest position. |
| `Reverse.ReverseWinnerUnique` | geobed.go:754-766 | At most one record is the reverse winner, so the lookup is deterministic. |
| `Reverse.ReverseGeocode` | geobed.go:730-771 | The origin's geohash, or no candidate sharing the first two bytes, gives the zero city. Otherwise the result is the candidate with the longest common prefix, ties going to strictly larger population and then to the earliest position. |
| `Engine.GeoBed.ReverseGeocode` | geobed.go:730-771 | The same outcome, on the object's store. |

## Left out

- Downloading the feeds (`downloadDataSets`) is network and file I/O. Reading, unzipping and gunzipping the files is left out too: each feed is a given sequence of lines.
- `store()`, the gob dump and restore, is disk I/O and binary encoding. `NewGeobed` takes what the three restores returned as a `Snapshot`, with `None` for a failed load.
- `strconv.Atoi`, `strconv.ParseFloat` and `geohash.Encode` are foreign code with floating point. They are parameters of the model (`Parsers`), and a failed `Atoi` is whatever the parameter returns for that text. `ReverseGeocode` takes the point's geohash rather than its coordinates.
- Country-name and US-state stripping in `Geocode` rewrites `n` with regular expressions built from the country table and the `UsSateCodes` table. The model takes the stripped text and the detected `nCo` and `nSt` as inputs. The `UsSateCodes` table is not modelled.
- `strings.EqualFold` folds Unicode case; the model folds ASCII letters only.
- Bytes from 0x80 up are modelled as plain characters, so names and queries outside ASCII are not described faithfully. Go re-encodes such a byte as UTF-8 in three places:
  - In the index build (geobed.go:435), `string(v.CityLower[0])` turns a first byte from 0x80 up into a two-byte key. That key can collide with the two-byte prefix key of another name, so `IsNameIndex` does not describe the index for such names.
  - In the range computation, `string(ns[0])` and `prev` re-encode the first byte of a word in the same way.
  - The abbreviation pattern `[\S]{2,3}` (geobed.go:472) counts runes, while `len(av) == 2` (geobed.go:580) counts bytes. The model counts bytes in both places.
- Go map iteration order is not fixed. The model takes it as a parameter (`order`) or leaves it as a free choice, so it does not say which of several exactly tied keys wins.
- `sort.Sort` is not stable. `SortByName` is one particular sort, and every property used afterwards depends only on sortedness and permutation.
- In the source, `cityNameIdx` is a package-level variable shared by all `GeoBed` values. In the model it is a field of the object.
- `Engine.GeoBed.LoadCountryInfo`: it requires every line to be non-empty. The source reads `t[0]` and would panic on an empty line.
- `Reverse.ReverseGeocode`: it requires every stored geohash to be readable (`GeohashSafe`). The source indexes the first bytes of every geohash, and the empty geohash kept for records at the origin would panic.
- `Forward.Geocode`: it requires a non-empty store for a non-blank query. The source then indexes `g.c` unconditionally and would panic on an empty store.
- `Forward.GeocodeFixed`: it requires a non-empty store for a non-blank query, for the same reason.
- The lookups are stated on the model's own query record (`Query`); `MakeQuery` is that record as `Geocode` builds it.
- `Engine.GeoBed.New` models only the corrected rebuild test (see Findings). The rebuild's downloads and the final `store()` are left out.

## Findings

| source | as written | input that shows it | evidently intended | confidence | as-written member | corrected member |
|---|---|---|---|---|---|---|
| geobed.go:543-546 | The scan reads `g.c[f:t]`, and `currentKey++` runs before the record is scored. So the points of `g.c[i]` are stored under key `i+1`, and line 721 returns `g.c[k]` for the winning key `k`. The record at `t`, the last city of the word's own group, is never scored | a store of Austin and Boston, no population. Query "Austin": Austin earns 10 points under key 1, and `g.c[1]` is Boston. Query "Boston": the slice `g.c[0:1]` holds only Austin, which earns nothing, so `g.c[0]`, Austin, is returned | scan `g.c[f:t+1]` and score each record under its own position, so that the bonus, the tie-break and the returned record all read the record that earned the score | high (not executed) | `Forward.ExactNameReturnsNext`, `Forward.LastOfGroupMissed`, `Forward.Geocode` | `Forward.ExactNameReturnsMatch`, `Forward.LastOfGroupFound`, `Forward.WordGroupScored`, `Forward.GeocodeFixed`, `Forward.ScoreByPosition`, `Engine.GeoBed.Geocode` |
| geobed.go:175-179 | `err` is overwritten by each load, so only the index load's error reaches the rebuild test | city and index snapshots load, the country snapshot fails: no rebuild, `g.co` stays empty | rebuild when any snapshot failed to load or the store is empty | high (not executed) | `Engine.RebuildAsWritten`, `Engine.CountryLoadFailureIgnored` | `Engine.RebuildNeededCovers`, `Engine.GeoBed.New` |
