/** The forward-geocoding core of `Geocode`: abbreviation extraction, scan
    ranges from the prefix index, additive scoring into a position-to-score
    map, the population bonus and the choice of the winner. */
module Forward {
  import opened GoStrings
  import opened Records
  import opened Store

  // ---------------------------------------------------------------------
  // The abbreviation: the first match of `[\S]{2,3}`

  /** Two non-space bytes start at position `i`. */
  predicate PairAt(s: string, i: int) {
    0 <= i && i + 1 < |s| && s[i] !in RegexpSpace && s[i + 1] !in RegexpSpace
  }

  /** The greedy match at a position where two non-space bytes start. */
  function MatchAt(s: string, i: int): string
    requires PairAt(s, i)
  {
    if i + 2 < |s| && s[i + 2] !in RegexpSpace then s[i..i + 3] else s[i..i + 2]
  }

  /** The leftmost position at or after `i` where a match starts. */
  function FirstPairFrom(s: string, i: nat): (r: Option<nat>)
    ensures r.Some? ==> i <= r.value && PairAt(s, r.value)
    ensures r.Some? ==> forall j :: i <= j < r.value ==> !PairAt(s, j)
    ensures r.None? ==> forall j :: i <= j ==> !PairAt(s, j)
    decreases |s| - i
  {
    if i + 1 >= |s| then None
    else if PairAt(s, i) then Some(i)
    else FirstPairFrom(s, i + 1)
  }

  /** `FindStringSubmatch` with `[\S]{2,3}`: only the leftmost match is returned. */
  function Abbreviation(s: string): Option<string> {
    match FirstPairFrom(s, 0)
    case None => None
    case Some(i) => Some(MatchAt(s, i))
  }

  /** There is an abbreviation exactly when two non-space bytes are adjacent; it is
      the greedy match at the leftmost such place, 2 or 3 non-space bytes long. */
  lemma AbbreviationIsLeftmost(s: string)
    ensures Abbreviation(s).Some? <==> exists i :: PairAt(s, i)
    ensures Abbreviation(s).Some? ==>
      exists i :: PairAt(s, i) && Abbreviation(s).value == MatchAt(s, i)
        && (forall j :: 0 <= j < i ==> !PairAt(s, j))
        && 2 <= |MatchAt(s, i)| <= 3
        && forall ch :: ch in MatchAt(s, i) ==> ch !in RegexpSpace
  {
    var r := FirstPairFrom(s, 0);
    if r.Some? {
      var i := r.value;
      var m := MatchAt(s, i);
      assert PairAt(s, i) && Abbreviation(s).value == m;
      assert 2 <= |m| <= 3 && m == s[i..i + |m|];
      forall ch | ch in m
        ensures ch !in RegexpSpace
      {
        var k :| 0 <= k < |m| && m[k] == ch;
        assert ch == s[i + k];
      }
    }
  }

  // ---------------------------------------------------------------------
  // Scoring one record

  /** What one query contributes to scoring: the stripped text `n`, the
      abbreviation, the detected country and state codes, and the words of `n`. */
  datatype Query = Query(n: string, abbrev: Option<string>, nCo: string, nSt: string, tokens: seq<string>)

  /** The cut set of the final trim of the stripped query. */
  const SpaceComma: set<char> := {' ', ','}

  /** The query `Geocode` scores with, built from the raw text (for the
      abbreviation) and the text left after country and state stripping. */
  function MakeQuery(text: string, stripped: string, nCo: string, nSt: string): Query {
    var n := Trim(stripped, SpaceComma);
    Query(n, Abbreviation(TrimSpace(text)), nCo, nSt, Split(n, ' '))
  }

  /** +5 for the region and +3 for the country, when the abbreviation has exactly
      two bytes and equals the code case-insensitively. */
  function AbbrevPoints(v: GeobedCity, abbrev: Option<string>): nat {
    if abbrev.None? || |abbrev.value| != 2 then 0
    else
      var av := Lower(abbrev.value);
      (if EqualFold(v.Region, av) then 5 else 0) + (if EqualFold(v.Country, av) then 3 else 0)
  }

  /** +4 each for the detected country code and state code. */
  function CodePoints(v: GeobedCity, nCo: string, nSt: string): nat {
    (if nCo != "" && nCo == v.Country then 4 else 0) + (if nSt != "" && nSt == v.Region then 4 else 0)
  }

  /** Per alternate name: +3 for a case-insensitive match of `n`, +5 more for an exact one. */
  function AltPoints(alts: seq<string>, n: string): nat {
    if alts == [] then 0
    else (if EqualFold(alts[0], n) then 3 else 0) + (if alts[0] == n then 5 else 0) + AltPoints(alts[1..], n)
  }

  /** Per word (its trailing comma dropped): +2 when the lower-cased name contains
      it, +1 when it equals the name case-insensitively. */
  function TokenPoints(city: string, tokens: seq<string>): nat {
    if tokens == [] then 0
    else
      var t := TrimSuffix(tokens[0], ',');
      (if Contains(Lower(city), Lower(t)) then 2 else 0) + (if EqualFold(city, t) then 1 else 0)
        + TokenPoints(city, tokens[1..])
  }

  /** All points one scanned record earns. */
  function Points(v: GeobedCity, q: Query): nat {
    AbbrevPoints(v, q.abbrev)
      + CodePoints(v, q.nCo, q.nSt)
      + (if v.CityAlt != "" then AltPoints(Fields(v.CityAlt), q.n) else 0)
      + (if EqualFold(q.n, v.City) then 7 else 0)
      + TokenPoints(v.City, q.tokens)
  }

  lemma {:induction false} TokenPointsAppend(city: string, a: seq<string>, b: seq<string>)
    ensures TokenPoints(city, a + b) == TokenPoints(city, a) + TokenPoints(city, b)
  {
    if a != [] {
      assert (a + b)[1..] == a[1..] + b;
      TokenPointsAppend(city, a[1..], b);
    } else {
      assert a + b == b;
    }
  }

  lemma {:induction false} AltPointsAppend(a: seq<string>, b: seq<string>, n: string)
    ensures AltPoints(a + b, n) == AltPoints(a, n) + AltPoints(b, n)
  {
    if a != [] {
      assert (a + b)[1..] == a[1..] + b;
      AltPointsAppend(a[1..], b, n);
    } else {
      assert a + b == b;
    }
  }

  /** An empty word is contained in every name: it is worth 2 points to any
      record with a non-empty name. */
  lemma EmptyTokenScoresTwo(city: string, tokens: seq<string>)
    requires city != ""
    ensures TokenPoints(city, tokens + [""]) == TokenPoints(city, tokens) + 2
  {
    TokenPointsAppend(city, tokens, [""]);
    ContainsTrivial(Lower(city));
    assert TrimSuffix("", ',') == "";
    assert |Lower(city)| > 0;
  }

  /** An alternate name equal to `n` is worth 8 points: 3 for the folded match
      and 5 for the exact one. */
  lemma ExactAltScoresEight(alts: seq<string>, n: string)
    ensures AltPoints(alts + [n], n) == AltPoints(alts, n) + 8
  {
    AltPointsAppend(alts, [n], n);
  }

  /** A one-word query that equals the record's name case-insensitively earns at
      least 10 points: 7 for the name, 2 for containment, 1 for the word match. */
  lemma {:induction false} SingleWordNameScoresTen(v: GeobedCity, q: Query)
    requires q.n != "" && ' ' !in q.n && q.n[|q.n| - 1] != ','
    requires q.tokens == Split(q.n, ' ')
    requires EqualFold(q.n, v.City)
    ensures Points(v, q) >= 10
  {
    SplitNoSeparator(q.n, ' ');
    assert q.tokens == [q.n];
    assert TrimSuffix(q.n, ',') == q.n;
    ContainsTrivial(Lower(v.City));
    assert TokenPoints(v.City, q.tokens) == 3;
  }

  /** Two names of one length whose lower-cased first bytes differ neither
      match case-insensitively nor contain one another. */
  lemma FirstBytesApart(a: string, b: string)
    requires |a| == |b| > 0 && LowerChar(a[0]) != LowerChar(b[0])
    ensures !EqualFold(a, b) && !Contains(Lower(a), Lower(b))
  {
    assert Lower(a)[0] == LowerChar(a[0]) && Lower(b)[0] == LowerChar(b[0]);
    ContainsIff(Lower(a), Lower(b));
  }

  /** A one-word query with no code, no two-byte abbreviation and a name of the
      same length but another first letter earns a record without alternate
      names nothing. */
  lemma OtherInitialScoresNothing(v: GeobedCity, q: Query)
    requires q.tokens == [q.n] && TrimSuffix(q.n, ',') == q.n
    requires q.nCo == "" && q.nSt == "" && v.CityAlt == ""
    requires q.abbrev.None? || |q.abbrev.value| != 2
    requires |v.City| == |q.n| > 0 && LowerChar(v.City[0]) != LowerChar(q.n[0])
    ensures Points(v, q) == 0
  {
    FirstBytesApart(v.City, q.n);
    assert TokenPoints(v.City, q.tokens) == 0;
  }

  // ---------------------------------------------------------------------
  // Scan ranges from the prefix index

  datatype Range = Range(lo: int, hi: int)

  /** `prev(fc)` as an index key; the byte before 0 is no key at all. */
  function PrevKey(fc: char): Option<string> {
    var p := fc as int - 1;
    if 0 <= p < 0xD800 || 0xE000 <= p < 0x11_0000 then Some([p as char]) else None
  }

  /** The range for one non-empty word: from the last position of the previous
      byte's key (0 when missing) to the last position of the word's lower-cased
      first byte, which is replaced by `len(g.c)-1` when missing or 0. */
  function ScanRange(cs: seq<GeobedCity>, idx: map<string, int>, token: string): Range
    requires token != []
  {
    var fc := LowerChar(token[0]);
    var pk := PrevKey(fc);
    var lo := if pk.Some? && pk.value in idx then idx[pk.value] else 0;
    var hi := if [fc] in idx then idx[[fc]] else 0;
    Range(lo, if hi == 0 then |cs| - 1 else hi)
  }

  /** A slice `g.c[lo:hi]` Go accepts: within `[0, len]`. */
  predicate InStore(r: Range, n: int) {
    0 <= r.lo <= r.hi <= n
  }

  /** A range the scan `g.c[lo:hi]` can take without a panic, within `[0, len-1]`. */
  predicate ValidRange(r: Range, n: int) {
    InStore(r, n) && r.hi <= n - 1
  }

  lemma PrevKeyIsSmaller(fc: char)
    requires PrevKey(fc).Some?
    ensures |PrevKey(fc).value| == 1 && PrevKey(fc).value[0] < fc
  {
  }

  /** Over a sorted store with a correct index, every scan range lies within
      `[0, len(g.c)-1]` and starts no later than it ends. */
  lemma ScanRangeBounds(cs: seq<GeobedCity>, idx: map<string, int>, token: string)
    requires IsNameIndex(idx, cs) && SortedByName(cs) && |cs| > 0
    requires token != []
    ensures ValidRange(ScanRange(cs, idx, token), |cs|)
  {
    var fc := LowerChar(token[0]);
    var pk := PrevKey(fc);
    if pk.Some? && pk.value in idx && [fc] in idx && idx[[fc]] != 0 {
      PrevKeyIsSmaller(fc);
      IndexOrdered(idx, cs, pk.value[0], fc);
    }
  }

  /** Every city whose name starts with the word's lower-cased first byte lies in
      `[lo, hi]`. The half-open scan `g.c[lo:hi]` never reaches `hi`; the
      corrected lookup widens it (`Widen`). */
  lemma ScanRangeCoversBucket(cs: seq<GeobedCity>, idx: map<string, int>, token: string, p: int)
    requires IsNameIndex(idx, cs) && SortedByName(cs) && |cs| > 0
    requires token != [] && 0 <= p < |cs|
    requires cs[p].CityLower != [] && cs[p].CityLower[0] == LowerChar(token[0])
    ensures ScanRange(cs, idx, token).lo <= p <= ScanRange(cs, idx, token).hi
  {
    var fc := LowerChar(token[0]);
    var pk := PrevKey(fc);
    assert HasKey(cs[p], [fc]);
    assert [fc] in idx;
    if pk.Some? && pk.value in idx {
      PrevKeyIsSmaller(fc);
      var f := idx[pk.value];
      assert HasKey(cs[f], pk.value);
      FirstByteOrder(cs[f].CityLower, cs[p].CityLower);
      LessStrIrreflexive(cs[p].CityLower);
    }
  }

  /** The ranges of the non-empty words, in word order. */
  function RangesOf(cs: seq<GeobedCity>, idx: map<string, int>, tokens: seq<string>): seq<Range> {
    if tokens == [] then []
    else
      var t := TrimSuffix(tokens[|tokens| - 1], ',');
      RangesOf(cs, idx, tokens[..|tokens| - 1]) + (if |t| > 0 then [ScanRange(cs, idx, t)] else [])
  }

  lemma {:induction false} RangesValid(cs: seq<GeobedCity>, idx: map<string, int>, tokens: seq<string>)
    requires IsNameIndex(idx, cs) && SortedByName(cs) && |cs| > 0
    ensures forall i :: 0 <= i < |RangesOf(cs, idx, tokens)| ==> ValidRange(RangesOf(cs, idx, tokens)[i], |cs|)
  {
    if tokens != [] {
      RangesValid(cs, idx, tokens[..|tokens| - 1]);
      var t := TrimSuffix(tokens[|tokens| - 1], ',');
      if |t| > 0 {
        ScanRangeBounds(cs, idx, t);
      }
    }
  }

  /** The loop that turns the words into ranges. */
  method ComputeRanges(cs: seq<GeobedCity>, idx: map<string, int>, tokens: seq<string>) returns (rs: seq<Range>)
    requires IsNameIndex(idx, cs) && SortedByName(cs) && |cs| > 0
    ensures rs == RangesOf(cs, idx, tokens)
    ensures forall i :: 0 <= i < |rs| ==> ValidRange(rs[i], |cs|)
  {
    rs := [];
    for i := 0 to |tokens|
      invariant rs == RangesOf(cs, idx, tokens[..i])
    {
      assert tokens[..i + 1][..i] == tokens[..i];
      var ns := TrimSuffix(tokens[i], ',');
      if |ns| > 0 {
        var fc := LowerChar(ns[0]);
        var pik := PrevKey(fc);
        var fk := 0;
        var tk := 0;
        if pik.Some? && pik.value in idx {
          fk := idx[pik.value];
        }
        if [fc] in idx {
          tk := idx[[fc]];
        }
        if tk == 0 {
          tk := |cs| - 1;
        }
        assert Range(fk, tk) == ScanRange(cs, idx, ns);
        rs := rs + [Range(fk, tk)];
      }
    }
    assert tokens[..|tokens|] == tokens;
    RangesValid(cs, idx, tokens);
  }

  // ---------------------------------------------------------------------
  // Additive scoring

  /** The points of every record for one query, by position. */
  function PointsOf(cs: seq<GeobedCity>, q: Query): seq<nat> {
    seq(|cs|, i requires 0 <= i < |cs| => Points(cs[i], q))
  }

  function Get(m: map<int, int>, k: int): int {
    if k in m then m[k] else 0
  }

  /** Adds points under a key; no key is created for zero points. */
  function AddPoints(m: map<int, int>, key: int, pts: nat): map<int, int> {
    if pts == 0 then m else m[key := Get(m, key) + pts]
  }

  /** Scores positions `lo..hi-1` on top of `m`: the points of position `i` are
      credited under key `i+1`, as `currentKey` is incremented before use. */
  function ScoreUpTo(pts: seq<nat>, m: map<int, int>, lo: int, hi: int): map<int, int>
    requires 0 <= lo && hi <= |pts|
    decreases hi - lo
  {
    if hi <= lo then m
    else AddPoints(ScoreUpTo(pts, m, lo, hi - 1), hi, pts[hi - 1])
  }

  /** The score map after scanning every range in turn. */
  function ScoreAll(pts: seq<nat>, rs: seq<Range>): map<int, int>
    requires forall i :: 0 <= i < |rs| ==> InStore(rs[i], |pts|)
  {
    if rs == [] then map[]
    else
      var init, last := rs[..|rs| - 1], rs[|rs| - 1];
      assert forall i :: 0 <= i < |init| ==> init[i] == rs[i];
      assert InStore(last, |pts|);
      ScoreUpTo(pts, ScoreAll(pts, init), last.lo, last.hi)
  }

  /** How many ranges scan position `p`. */
  function Coverage(rs: seq<Range>, p: int): nat {
    if rs == [] then 0
    else Coverage(rs[..|rs| - 1], p) + (if rs[|rs| - 1].lo <= p < rs[|rs| - 1].hi then 1 else 0)
  }

  lemma {:induction false} ScoreUpToAt(pts: seq<nat>, m: map<int, int>, lo: int, hi: int, k: int)
    requires 0 <= lo && hi <= |pts|
    ensures Get(ScoreUpTo(pts, m, lo, hi), k) == Get(m, k) + (if lo < k <= hi then pts[k - 1] else 0)
    ensures k in ScoreUpTo(pts, m, lo, hi) <==> k in m || (lo < k <= hi && pts[k - 1] > 0)
    decreases hi - lo
  {
    if lo < hi {
      ScoreUpToAt(pts, m, lo, hi - 1, k);
    }
  }

  /** The score under key `k` is the points of position `k-1` times the number
      of ranges that scan it: overlapping or repeated ranges add their points again. */
  lemma {:induction false} ScoreAllGet(pts: seq<nat>, rs: seq<Range>, k: int)
    requires forall i :: 0 <= i < |rs| ==> InStore(rs[i], |pts|)
    requires 1 <= k <= |pts|
    ensures Get(ScoreAll(pts, rs), k) == Coverage(rs, k - 1) * pts[k - 1]
  {
    if rs != [] {
      var init, last := rs[..|rs| - 1], rs[|rs| - 1];
      assert forall i :: 0 <= i < |init| ==> init[i] == rs[i];
      ScoreAllGet(pts, init, k);
      ScoreUpToAt(pts, ScoreAll(pts, init), last.lo, last.hi, k);
      var c := Coverage(init, k - 1);
      if last.lo <= k - 1 < last.hi {
        assert (c + 1) * pts[k - 1] == c * pts[k - 1] + pts[k - 1];
      }
    }
  }

  /** A key is scored exactly when its position earns points and some range scans it. */
  lemma {:induction false} ScoreAllHas(pts: seq<nat>, rs: seq<Range>, k: int)
    requires forall i :: 0 <= i < |rs| ==> InStore(rs[i], |pts|)
    ensures k in ScoreAll(pts, rs) <==> 1 <= k <= |pts| && Coverage(rs, k - 1) > 0 && pts[k - 1] > 0
  {
    if rs != [] {
      var init, last := rs[..|rs| - 1], rs[|rs| - 1];
      assert forall i :: 0 <= i < |init| ==> init[i] == rs[i];
      ScoreAllHas(pts, init, k);
      ScoreUpToAt(pts, ScoreAll(pts, init), last.lo, last.hi, k);
    }
  }

  lemma {:induction false} CoverageBound(rs: seq<Range>, n: int, p: int)
    requires forall i :: 0 <= i < |rs| ==> ValidRange(rs[i], n)
    requires Coverage(rs, p) > 0
    ensures 0 <= p < n - 1
  {
    var init := rs[..|rs| - 1];
    if !(rs[|rs| - 1].lo <= p < rs[|rs| - 1].hi) {
      assert forall i :: 0 <= i < |init| ==> init[i] == rs[i];
      CoverageBound(init, n, p);
    }
  }

  /** Every scored key lies in `[1, len(g.c)-1]` and holds a positive score; so
      `g.c[k]` is always in range although keys are offset by one. */
  lemma ScoreKeysInRange(pts: seq<nat>, rs: seq<Range>)
    requires forall i :: 0 <= i < |rs| ==> InStore(rs[i], |pts|) && rs[i].hi <= |pts| - 1
    ensures forall k :: k in ScoreAll(pts, rs) ==> 1 <= k <= |pts| - 1 && ScoreAll(pts, rs)[k] > 0
  {
    forall k | k in ScoreAll(pts, rs)
      ensures 1 <= k <= |pts| - 1 && ScoreAll(pts, rs)[k] > 0
    {
      ScoreAllHas(pts, rs, k);
      ScoreAllGet(pts, rs, k);
      CoverageBound(rs, |pts|, k - 1);
      var c := Coverage(rs, k - 1);
      assert c * pts[k - 1] > 0;
    }
  }

  // ---------------------------------------------------------------------
  // The early return for a matching state

  /** With a state code stripped, a record whose name equals `n` and whose region
      equals the code (both case-insensitively) is returned at once. */
  predicate StateHit(v: GeobedCity, q: Query) {
    q.nSt != "" && EqualFold(q.n, v.City) && EqualFold(q.nSt, v.Region)
  }

  /** The positions `lo..hi-1`, in order. */
  function Interval(lo: int, hi: int): (r: seq<int>)
    ensures |r| == if hi <= lo then 0 else hi - lo
    ensures forall i :: 0 <= i < |r| ==> r[i] == lo + i
    decreases hi - lo
  {
    if hi <= lo then [] else Interval(lo, hi - 1) + [hi - 1]
  }

  /** The positions the scan visits, in visiting order. */
  function ScanOrder(rs: seq<Range>): seq<int> {
    if rs == [] then [] else ScanOrder(rs[..|rs| - 1]) + Interval(rs[|rs| - 1].lo, rs[|rs| - 1].hi)
  }

  lemma {:induction false} ScanOrderPrefix(rs: seq<Range>, j: nat)
    requires j <= |rs|
    ensures ScanOrder(rs[..j]) <= ScanOrder(rs)
  {
    if j < |rs| {
      var init := rs[..|rs| - 1];
      assert init[..j] == rs[..j];
      ScanOrderPrefix(init, j);
    } else {
      assert rs[..j] == rs;
    }
  }

  lemma {:induction false} ScanOrderBounds(rs: seq<Range>, n: int)
    requires forall i :: 0 <= i < |rs| ==> ValidRange(rs[i], n)
    ensures forall x :: 0 <= x < |ScanOrder(rs)| ==> 0 <= ScanOrder(rs)[x] < n - 1
  {
    if rs != [] {
      var init := rs[..|rs| - 1];
      assert forall i :: 0 <= i < |init| ==> init[i] == rs[i];
      ScanOrderBounds(init, n);
    }
  }

  /** Position `j` of the visiting order is the first record that is a state hit. */
  predicate FirstHitAt(cs: seq<GeobedCity>, q: Query, order: seq<int>, j: int) {
    && 0 <= j < |order|
    && 0 <= order[j] < |cs|
    && StateHit(cs[order[j]], q)
    && forall x :: 0 <= x < j && 0 <= order[x] < |cs| ==> !StateHit(cs[order[x]], q)
  }

  /** No visited record is a state hit. */
  predicate NoHit(cs: seq<GeobedCity>, q: Query, order: seq<int>) {
    forall x :: 0 <= x < |order| && 0 <= order[x] < |cs| ==> !StateHit(cs[order[x]], q)
  }

  /** A hit at position `i` of range `j`, with nothing visited before it a hit,
      is the first hit of the whole visiting order. */
  lemma FirstHitFound(cs: seq<GeobedCity>, q: Query, rs: seq<Range>, j: int, i: int)
    requires 0 <= j < |rs| && rs[j].lo <= i < rs[j].hi && 0 <= i < |cs|
    requires NoHit(cs, q, ScanOrder(rs[..j]) + Interval(rs[j].lo, i))
    requires StateHit(cs[i], q)
    ensures exists x :: FirstHitAt(cs, q, ScanOrder(rs), x) && ScanOrder(rs)[x] == i
  {
    var lo, hi := rs[j].lo, rs[j].hi;
    var done := ScanOrder(rs[..j]);
    var seen := done + Interval(lo, i);
    assert rs[..j + 1][..j] == rs[..j];
    assert done + Interval(lo, hi) == ScanOrder(rs[..j + 1]);
    ScanOrderPrefix(rs, j + 1);
    var order := ScanOrder(rs);
    assert order[|seen|] == Interval(lo, hi)[i - lo] == i;
    forall x | 0 <= x < |seen|
      ensures order[x] == seen[x]
    {
      if x >= |done| {
        assert seen[x] == Interval(lo, i)[x - |done|];
        assert order[x] == Interval(lo, hi)[x - |done|];
      }
    }
    assert FirstHitAt(cs, q, order, |seen|);
  }

  /** Finishing range `j` extends the visiting order and the score map by it. */
  lemma ScanStep(pts: seq<nat>, rs: seq<Range>, j: int)
    requires forall i :: 0 <= i < |rs| ==> InStore(rs[i], |pts|)
    requires 0 <= j < |rs|
    ensures ScanOrder(rs[..j + 1]) == ScanOrder(rs[..j]) + Interval(rs[j].lo, rs[j].hi)
    ensures ScoreAll(pts, rs[..j + 1]) == ScoreUpTo(pts, ScoreAll(pts, rs[..j]), rs[j].lo, rs[j].hi)
  {
    assert rs[..j + 1][..j] == rs[..j];
  }

  lemma NoHitAppend(cs: seq<GeobedCity>, q: Query, a: seq<int>, b: seq<int>)
    requires NoHit(cs, q, a) && NoHit(cs, q, b)
    ensures NoHit(cs, q, a + b)
  {
    forall x | 0 <= x < |a + b| && 0 <= (a + b)[x] < |cs|
      ensures !StateHit(cs[(a + b)[x]], q)
    {
      if x >= |a| {
        assert (a + b)[x] == b[x - |a|];
      }
    }
  }

  /** The inner loop over one range `g.c[lo:hi]`, on top of the scores so far. */
  method ScanOne(cs: seq<GeobedCity>, q: Query, lo: int, hi: int, base: map<int, int>)
    returns (hit: Option<int>, s: map<int, int>)
    requires 0 <= lo <= hi <= |cs|
    ensures hit.Some? ==> lo <= hit.value < hi && StateHit(cs[hit.value], q)
    ensures hit.Some? ==> NoHit(cs, q, Interval(lo, hit.value))
    ensures hit.None? ==> NoHit(cs, q, Interval(lo, hi)) && s == ScoreUpTo(PointsOf(cs, q), base, lo, hi)
  {
    ghost var pts := PointsOf(cs, q);
    s := base;
    hit := None;
    var currentKey := lo;
    var i := lo;
    while i < hi
      invariant lo <= i <= hi && currentKey == i
      invariant s == ScoreUpTo(pts, base, lo, i)
      invariant NoHit(cs, q, Interval(lo, i))
    {
      currentKey := currentKey + 1;
      var v := cs[i];
      if StateHit(v, q) {
        return Some(i), s;
      }
      NoHitExtend(cs, q, lo, i);
      var p := Points(v, q);
      PointsOfAt(cs, q, i);
      ScoreUpToStep(pts, base, lo, i);
      s := AddPoints(s, currentKey, p);
      i := i + 1;
    }
  }

  /** Scanning one more position credits its points under the next key. */
  lemma ScoreUpToStep(pts: seq<nat>, m: map<int, int>, lo: int, i: int)
    requires 0 <= lo <= i < |pts|
    ensures ScoreUpTo(pts, m, lo, i + 1) == AddPoints(ScoreUpTo(pts, m, lo, i), i + 1, pts[i])
  {
  }

  /** The points of one visited position. */
  lemma PointsOfAt(cs: seq<GeobedCity>, q: Query, i: int)
    requires 0 <= i < |cs|
    ensures PointsOf(cs, q)[i] == Points(cs[i], q)
  {
  }

  /** A position that is not a hit extends an interval without hits. */
  lemma NoHitExtend(cs: seq<GeobedCity>, q: Query, lo: int, i: int)
    requires 0 <= lo <= i < |cs|
    requires NoHit(cs, q, Interval(lo, i)) && !StateHit(cs[i], q)
    ensures NoHit(cs, q, Interval(lo, i + 1))
  {
    assert Interval(lo, i + 1) == Interval(lo, i) + [i];
  }

  /** The scan over all ranges: it either returns the first state hit or the
      score map of every visited record. */
  method ScoreCandidates(cs: seq<GeobedCity>, q: Query, rs: seq<Range>) returns (hit: Option<int>, s: map<int, int>)
    requires forall i :: 0 <= i < |rs| ==> InStore(rs[i], |cs|)
    ensures hit.Some? ==> 0 <= hit.value < |cs|
    ensures hit.Some? ==> exists j :: FirstHitAt(cs, q, ScanOrder(rs), j) && ScanOrder(rs)[j] == hit.value
    ensures hit.None? ==> NoHit(cs, q, ScanOrder(rs)) && s == ScoreAll(PointsOf(cs, q), rs)
  {
    ghost var pts := PointsOf(cs, q);
    s := map[];
    hit := None;
    for j := 0 to |rs|
      invariant s == ScoreAll(pts, rs[..j])
      invariant NoHit(cs, q, ScanOrder(rs[..j]))
    {
      var h, s' := ScanOne(cs, q, rs[j].lo, rs[j].hi, s);
      if h.Some? {
        NoHitAppend(cs, q, ScanOrder(rs[..j]), Interval(rs[j].lo, h.value));
        FirstHitFound(cs, q, rs, j, h.value);
        return h, s';
      }
      NoHitAppend(cs, q, ScanOrder(rs[..j]), Interval(rs[j].lo, rs[j].hi));
      ScanStep(pts, rs, j);
      s := s';
    }
    assert rs[..|rs|] == rs;
  }

  /** A non-empty set has an element: what lets the loops below pick one. */
  lemma NonEmptyHasElement(xs: set<int>)
    requires xs != {}
    ensures exists x :: x in xs
  {
    if forall x :: x !in xs {
      assert false;
    }
  }

  // ---------------------------------------------------------------------
  // The population bonus (only when no country was detected)

  /** `hpk` as the bonus loop leaves it: a scored key of strictly highest
      population when some scored record has a positive population, else 0. */
  ghost predicate HighestPopulationKey(cs: seq<GeobedCity>, s: map<int, int>, hpk: int) {
    && 0 <= hpk < |cs|
    && if exists k :: k in s && 0 <= k < |cs| && cs[k].Population > 0 then
         && hpk in s
         && forall k :: k in s && 0 <= k < |cs| ==> cs[k].Population <= cs[hpk].Population
       else hpk == 0
  }

  /** +1 to every key whose record has a population of at least 1000. */
  function ThousandBonus(cs: seq<GeobedCity>, s: map<int, int>): map<int, int> {
    map k | k in s :: s[k] + (if 0 <= k < |cs| && cs[k].Population >= 1000 then 1 else 0)
  }

  /** The 1000-population bonus, then +1 to `hpk` when its record has a positive
      population (creating key 0 if needed). */
  function Bonus(cs: seq<GeobedCity>, s: map<int, int>, hpk: int): map<int, int> {
    var b := ThousandBonus(cs, s);
    if 0 <= hpk < |cs| && cs[hpk].Population > 0 then b[hpk := Get(b, hpk) + 1] else b
  }

  /** The bonus loop proper: one pass over the keys, in an order Go leaves
      unspecified, adding the 1000-population bonus and tracking the key of the
      highest population seen (`hp` is 0 until a positive one is seen). */
  method BonusPass(cs: seq<GeobedCity>, s: map<int, int>) returns (s2: map<int, int>, hpk: int, hp: int)
    requires |cs| > 0
    requires forall k :: k in s ==> 0 <= k < |cs|
    ensures s2 == ThousandBonus(cs, s)
    ensures 0 <= hpk < |cs| && 0 <= hp
    ensures hp == 0 ==> hpk == 0 && forall k :: k in s ==> cs[k].Population <= 0
    ensures hp > 0 ==> hpk in s && cs[hpk].Population == hp
    ensures hp > 0 ==> forall k :: k in s ==> cs[k].Population <= hp
  {
    hp := 0;
    hpk := 0;
    s2 := s;
    var todo := s.Keys;
    while todo != {}
      invariant todo <= s.Keys && s2.Keys == s.Keys
      invariant forall k :: k in s ==>
        s2[k] == s[k] + (if k !in todo && cs[k].Population >= 1000 then 1 else 0)
      invariant 0 <= hpk < |cs| && 0 <= hp
      invariant hp == 0 ==> hpk == 0 && forall k :: k in s && k !in todo ==> cs[k].Population <= 0
      invariant hp > 0 ==> hpk in s && hpk !in todo && cs[hpk].Population == hp
      invariant hp > 0 ==> forall k :: k in s && k !in todo ==> cs[k].Population <= hp
      decreases |todo|
    {
      NonEmptyHasElement(todo);
      var k :| k in todo;
      var v := s2[k];
      if cs[k].Population >= 1000 {
        s2 := s2[k := v + 1];
      }
      if cs[k].Population > hp {
        hpk := k;
        hp := cs[k].Population;
      }
      todo := todo - {k};
    }
  }

  /** The bonus loop over the score map, then the extra point for `hpk`. */
  method AddPopulationBonus(cs: seq<GeobedCity>, s: map<int, int>) returns (s2: map<int, int>, hpk: int)
    requires |cs| > 0
    requires forall k :: k in s ==> 0 <= k < |cs|
    ensures HighestPopulationKey(cs, s, hpk)
    ensures s2 == Bonus(cs, s, hpk)
  {
    var hp;
    s2, hpk, hp := BonusPass(cs, s);
    if cs[hpk].Population > 0 {
      s2 := s2[hpk := Get(s2, hpk) + 1];
    }
  }

  /** The bonus keeps every score positive, adds no key but `hpk`, and keeps
      keys within the store. */
  lemma BonusKeys(cs: seq<GeobedCity>, s: map<int, int>, hpk: int)
    requires forall k :: k in s ==> 0 <= k < |cs| && s[k] > 0
    requires 0 <= hpk < |cs|
    ensures forall k :: k in Bonus(cs, s, hpk) ==> (k in s || k == hpk) && 0 <= k < |cs| && Bonus(cs, s, hpk)[k] > 0
    ensures forall k :: k in s ==> Bonus(cs, s, hpk)[k] >= s[k]
  {
  }

  // ---------------------------------------------------------------------
  // The winner

  /** `best` as the final loop leaves it: 0 for an empty map, otherwise a key of
      maximal score such that no key of equal score has a strictly larger
      population. */
  ghost predicate IsWinner(cs: seq<GeobedCity>, s: map<int, int>, best: int) {
    && 0 <= best < |cs|
    && (s == map[] ==> best == 0)
    && (s != map[] ==>
         && best in s
         && forall k :: k in s && 0 <= k < |cs| ==>
              s[k] <= s[best] && (s[k] == s[best] ==> cs[k].Population <= cs[best].Population))
  }

  /** The winner loop over the score map, in an order Go leaves unspecified. */
  method PickWinner(cs: seq<GeobedCity>, s: map<int, int>) returns (best: int)
    requires |cs| > 0
    requires forall k :: k in s ==> 0 <= k < |cs| && s[k] > 0
    ensures IsWinner(cs, s, best)
  {
    var m := 0;
    best := 0;
    var todo := s.Keys;
    while todo != {}
      invariant todo <= s.Keys && 0 <= best < |cs| && 0 <= m
      invariant m == 0 ==> best == 0 && todo == s.Keys
      invariant m > 0 ==> best in s && best !in todo && m == s[best]
      invariant m > 0 ==> forall k :: k in s && k !in todo ==>
        s[k] <= m && (s[k] == m ==> cs[k].Population <= cs[best].Population)
      decreases |todo|
    {
      NonEmptyHasElement(todo);
      var k :| k in todo;
      var v := s[k];
      if v > m {
        m := v;
        best := k;
      }
      if v == m {
        if cs[k].Population > cs[best].Population {
          best := k;
        }
      }
      todo := todo - {k};
    }
    if s != map[] {
      NonEmptyHasElement(s.Keys);
    }
  }

  /** Of two keys with the top score, one with strictly smaller population never wins. */
  lemma PopulationBreaksTies(cs: seq<GeobedCity>, s: map<int, int>, best: int, a: int, b: int)
    requires IsWinner(cs, s, best)
    requires a in s && b in s && 0 <= a < |cs| && 0 <= b < |cs|
    requires s[a] == s[b] && forall k :: k in s ==> s[k] <= s[a]
    requires cs[a].Population > cs[b].Population
    ensures best != b
  {
  }

  // ---------------------------------------------------------------------
  // The whole lookup

  /** The outcome of a lookup once scoring has run without a state hit. */
  ghost predicate ScoredOutcome(cs: seq<GeobedCity>, q: Query, s: map<int, int>, r: GeobedCity) {
    if q.nCo == "" then
      exists hpk, best :: HighestPopulationKey(cs, s, hpk) && IsWinner(cs, Bonus(cs, s, hpk), best) && r == cs[best]
    else
      exists best :: IsWinner(cs, s, best) && r == cs[best]
  }

  /** What `Geocode` returns for a query that is not blank: the first visited
      state hit, or else `g.c[k]` for a winning key `k` of the (bonus-adjusted)
      score map. */
  ghost predicate GeocodeOutcome(cs: seq<GeobedCity>, idx: map<string, int>, q: Query, r: GeobedCity) {
    var rs := RangesOf(cs, idx, q.tokens);
    && (forall i :: 0 <= i < |rs| ==> ValidRange(rs[i], |cs|))
    && ((exists j :: FirstHitAt(cs, q, ScanOrder(rs), j) && r == cs[ScanOrder(rs)[j]])
        || (NoHit(cs, q, ScanOrder(rs)) && ScoredOutcome(cs, q, ScoreAll(PointsOf(cs, q), rs), r)))
  }

  /** The bonus (when no country was detected) and the winner, on a score map
      whose keys are positions of the store with positive scores. */
  method Rank(cs: seq<GeobedCity>, q: Query, s: map<int, int>) returns (r: GeobedCity)
    requires |cs| > 0
    requires forall k :: k in s ==> 0 <= k < |cs| && s[k] > 0
    ensures ScoredOutcome(cs, q, s, r)
  {
    if q.nCo == "" {
      var s2, hpk := AddPopulationBonus(cs, s);
      BonusKeys(cs, s, hpk);
      var best := PickWinner(cs, s2);
      r := cs[best];
      assert HighestPopulationKey(cs, s, hpk) && IsWinner(cs, Bonus(cs, s, hpk), best);
    } else {
      var best := PickWinner(cs, s);
      r := cs[best];
    }
  }

  /** The part of the lookup both winners share: the query as `Geocode` builds
      it and the scan range of each of its words. */
  method Scan(cs: seq<GeobedCity>, idx: map<string, int>, text: string, stripped: string, nCo: string, nSt: string)
    returns (q: Query, rs: seq<Range>)
    requires IsNameIndex(idx, cs) && SortedByName(cs) && |cs| > 0
    ensures q == MakeQuery(text, stripped, nCo, nSt) && rs == RangesOf(cs, idx, q.tokens)
    ensures forall i :: 0 <= i < |rs| ==> ValidRange(rs[i], |cs|)
  {
    var abbrev := Abbreviation(TrimSpace(text));
    var query := Trim(stripped, SpaceComma);
    var tokens := Split(query, ' ');
    q := Query(query, abbrev, nCo, nSt, tokens);
    rs := ComputeRanges(cs, idx, tokens);
  }

  /** `Geocode(n)` as written, given the raw text, the text left after country
      and state stripping, and the detected country and state codes. */
  method Geocode(cs: seq<GeobedCity>, idx: map<string, int>, text: string, stripped: string, nCo: string, nSt: string)
    returns (r: GeobedCity)
    requires IsNameIndex(idx, cs) && SortedByName(cs)
    requires TrimSpace(text) != "" ==> |cs| > 0
    ensures TrimSpace(text) == "" ==> r == ZeroCity
    ensures TrimSpace(text) != "" ==> GeocodeOutcome(cs, idx, MakeQuery(text, stripped, nCo, nSt), r)
  {
    if TrimSpace(text) == "" {
      return ZeroCity;
    }
    var q, rs := Scan(cs, idx, text, stripped, nCo, nSt);
    var hit, s := ScoreCandidates(cs, q, rs);
    if hit.Some? {
      r := cs[hit.value];
      return;
    }
    ScoreKeysInRange(PointsOf(cs, q), rs);
    r := Rank(cs, q, s);
  }

  // ---------------------------------------------------------------------
  // The key offset, and the lookup with it undone

  /** The score map with every key moved down by one, so that the points of
      position `k` sit under key `k`. */
  function Unshift(s: map<int, int>): (r: map<int, int>)
    ensures forall k :: k in r <==> k + 1 in s
    ensures forall k :: k in r ==> r[k] == s[k + 1]
  {
    map k | k in Down(s.Keys) :: s[k + 1]
  }

  /** Every element of a set of integers, less one. */
  function Down(xs: set<int>): (r: set<int>)
    ensures forall k :: k in r <==> k + 1 in xs
  {
    set j | j in xs :: j - 1
  }

  /** Every range `{f, t}` widened to the slice `g.c[f:t+1]`, which takes in
      position `t`, the last city of the word's own first-byte group. */
  function Widen(rs: seq<Range>): (r: seq<Range>)
    ensures |r| == |rs|
    ensures forall i :: 0 <= i < |rs| ==> r[i] == Range(rs[i].lo, rs[i].hi + 1)
  {
    seq(|rs|, i requires 0 <= i < |rs| => Range(rs[i].lo, rs[i].hi + 1))
  }

  /** A widened valid range is still a slice Go accepts. */
  lemma WidenInStore(rs: seq<Range>, n: int)
    requires forall i :: 0 <= i < |rs| ==> ValidRange(rs[i], n)
    ensures forall i :: 0 <= i < |Widen(rs)| ==> InStore(Widen(rs)[i], n)
  {
  }

  /** With the offset undone, record `k` is scored exactly when it earns points
      and some range scans it, and its score is its own points times the number
      of ranges that scan it. */
  lemma ScoreByPosition(pts: seq<nat>, rs: seq<Range>, k: int)
    requires forall i :: 0 <= i < |rs| ==> InStore(rs[i], |pts|)
    ensures k in Unshift(ScoreAll(pts, rs)) <==> 0 <= k < |pts| && Coverage(rs, k) > 0 && pts[k] > 0
    ensures k in Unshift(ScoreAll(pts, rs)) ==> Unshift(ScoreAll(pts, rs))[k] == Coverage(rs, k) * pts[k]
  {
    var s := ScoreAll(pts, rs);
    ScoreAllHas(pts, rs, k + 1);
    assert k in Unshift(s) <==> k + 1 in s;
    if k in Unshift(s) {
      ScoreAllGet(pts, rs, k + 1);
      assert Unshift(s)[k] == s[k + 1] == Get(s, k + 1);
    }
  }

  lemma UnshiftSingle(k: int, v: int)
    ensures Unshift(map[k := v]) == map[k - 1 := v]
  {
    assert Unshift(map[k := v]).Keys == {k - 1};
  }

  /** Every key of the unshifted map is a position of the store with a positive score. */
  lemma UnshiftedKeysInRange(pts: seq<nat>, rs: seq<Range>)
    requires forall i :: 0 <= i < |rs| ==> InStore(rs[i], |pts|)
    ensures forall k :: k in Unshift(ScoreAll(pts, rs)) ==> 0 <= k < |pts| && Unshift(ScoreAll(pts, rs))[k] > 0
  {
    forall k | k in Unshift(ScoreAll(pts, rs))
      ensures 0 <= k < |pts| && Unshift(ScoreAll(pts, rs))[k] > 0
    {
      ScoreByPosition(pts, rs, k);
      var c := Coverage(rs, k);
      assert c * pts[k] > 0;
    }
  }

  /** The score map of the corrected lookup: every word's slice `g.c[f:t+1]`,
      each record under its own position. */
  function FixedScores(cs: seq<GeobedCity>, idx: map<string, int>, q: Query): map<int, int>
    requires IsNameIndex(idx, cs) && SortedByName(cs) && |cs| > 0
  {
    RangesValid(cs, idx, q.tokens);
    WidenInStore(RangesOf(cs, idx, q.tokens), |cs|);
    Unshift(ScoreAll(PointsOf(cs, q), Widen(RangesOf(cs, idx, q.tokens))))
  }

  /** A range that holds `p` gives `p` a positive coverage. */
  lemma {:induction false} CoverageAt(rs: seq<Range>, j: int, p: int)
    requires 0 <= j < |rs| && rs[j].lo <= p < rs[j].hi
    ensures Coverage(rs, p) > 0
  {
    if j < |rs| - 1 {
      var init := rs[..|rs| - 1];
      assert init[j] == rs[j];
      CoverageAt(init, j, p);
    }
  }

  /** Every non-empty word, with its trailing comma removed, has its scan range
      among the query's ranges. */
  lemma {:induction false} RangeOfWord(cs: seq<GeobedCity>, idx: map<string, int>, tokens: seq<string>, w: int)
    requires 0 <= w < |tokens| && TrimSuffix(tokens[w], ',') != []
    ensures exists j :: 0 <= j < |RangesOf(cs, idx, tokens)|
                     && RangesOf(cs, idx, tokens)[j] == ScanRange(cs, idx, TrimSuffix(tokens[w], ','))
  {
    var init := tokens[..|tokens| - 1];
    var t := TrimSuffix(tokens[|tokens| - 1], ',');
    var rs := RangesOf(cs, idx, tokens);
    assert rs == RangesOf(cs, idx, init) + (if |t| > 0 then [ScanRange(cs, idx, t)] else []);
    if w == |tokens| - 1 {
      assert rs[|rs| - 1] == ScanRange(cs, idx, t);
    } else {
      assert init[w] == tokens[w];
      RangeOfWord(cs, idx, init, w);
      var j :| 0 <= j < |RangesOf(cs, idx, init)| && RangesOf(cs, idx, init)[j] == ScanRange(cs, idx, TrimSuffix(tokens[w], ','));
      assert rs[j] == RangesOf(cs, idx, init)[j];
    }
  }

  /** Every city whose lower-cased name starts with the lower-cased first byte
      of some word lies in that word's widened slice `g.c[f:t+1]`. */
  lemma WordGroupCovered(cs: seq<GeobedCity>, idx: map<string, int>, tokens: seq<string>, w: int, p: int)
    requires IsNameIndex(idx, cs) && SortedByName(cs) && |cs| > 0
    requires 0 <= w < |tokens| && TrimSuffix(tokens[w], ',') != []
    requires 0 <= p < |cs| && cs[p].CityLower != []
    requires cs[p].CityLower[0] == LowerChar(TrimSuffix(tokens[w], ',')[0])
    ensures Coverage(Widen(RangesOf(cs, idx, tokens)), p) > 0
  {
    var t := TrimSuffix(tokens[w], ',');
    var rs := RangesOf(cs, idx, tokens);
    RangeOfWord(cs, idx, tokens, w);
    var j :| 0 <= j < |rs| && rs[j] == ScanRange(cs, idx, t);
    ScanRangeCoversBucket(cs, idx, t, p);
    CoverageAt(Widen(rs), j, p);
  }

  /** A position some range scans is scored, under its own key, exactly when
      it earns points, and with at least its own points. */
  lemma CoveredScored(pts: seq<nat>, rs: seq<Range>, p: int)
    requires forall i :: 0 <= i < |rs| ==> InStore(rs[i], |pts|)
    requires 0 <= p < |pts| && Coverage(rs, p) > 0
    ensures p in Unshift(ScoreAll(pts, rs)) <==> pts[p] > 0
    ensures p in Unshift(ScoreAll(pts, rs)) ==> Unshift(ScoreAll(pts, rs))[p] >= pts[p]
  {
    ScoreByPosition(pts, rs, p);
    MulAtLeast(Coverage(rs, p), pts[p]);
  }

  lemma MulAtLeast(c: nat, x: nat)
    requires c > 0
    ensures c * x >= x
  {
  }

  /** The corrected lookup never misses a city of a word's first-byte group:
      every such city is scored exactly when it earns points, and gets at
      least its own points. */
  lemma WordGroupScored(cs: seq<GeobedCity>, idx: map<string, int>, q: Query, w: int, p: int)
    requires IsNameIndex(idx, cs) && SortedByName(cs) && |cs| > 0
    requires 0 <= w < |q.tokens| && TrimSuffix(q.tokens[w], ',') != []
    requires 0 <= p < |cs| && cs[p].CityLower != []
    requires cs[p].CityLower[0] == LowerChar(TrimSuffix(q.tokens[w], ',')[0])
    ensures p in FixedScores(cs, idx, q) <==> Points(cs[p], q) > 0
    ensures p in FixedScores(cs, idx, q) ==> FixedScores(cs, idx, q)[p] >= Points(cs[p], q)
  {
    var rs := RangesOf(cs, idx, q.tokens);
    WordGroupCovered(cs, idx, q.tokens, w, p);
    RangesValid(cs, idx, q.tokens);
    WidenInStore(rs, |cs|);
    PointsOfAt(cs, q, p);
    CoveredScored(PointsOf(cs, q), Widen(rs), p);
  }

  /** In particular a city whose name equals the query case-insensitively, in
      the group of one of its words, holds at least the 7 points of that rule. */
  lemma ExactNameScored(cs: seq<GeobedCity>, idx: map<string, int>, q: Query, w: int, p: int)
    requires IsNameIndex(idx, cs) && SortedByName(cs) && |cs| > 0
    requires 0 <= w < |q.tokens| && TrimSuffix(q.tokens[w], ',') != []
    requires 0 <= p < |cs| && cs[p].CityLower != []
    requires cs[p].CityLower[0] == LowerChar(TrimSuffix(q.tokens[w], ',')[0])
    requires EqualFold(q.n, cs[p].City)
    ensures p in FixedScores(cs, idx, q) && FixedScores(cs, idx, q)[p] >= 7
  {
    assert Points(cs[p], q) >= 7;
    WordGroupScored(cs, idx, q, w, p);
  }

  /** The outcome of the lookup with every word's slice widened to `g.c[f:t+1]`
      and every record scored under its own position. */
  ghost predicate GeocodeOutcomeFixed(cs: seq<GeobedCity>, idx: map<string, int>, q: Query, r: GeobedCity) {
    var rs := RangesOf(cs, idx, q.tokens);
    var ws := Widen(rs);
    && (forall i :: 0 <= i < |rs| ==> ValidRange(rs[i], |cs|))
    && ((exists j :: FirstHitAt(cs, q, ScanOrder(ws), j) && r == cs[ScanOrder(ws)[j]])
        || (NoHit(cs, q, ScanOrder(ws)) && ScoredOutcome(cs, q, Unshift(ScoreAll(PointsOf(cs, q), ws)), r)))
  }

  /** `Geocode(n)` corrected: each word scans `g.c[f:t+1]`, so the last city of
      its own first-byte group is scanned too, and every record is scored
      under its own position, so that the population bonus, the tie-break and
      the returned record all read the record that earned the score. */
  method GeocodeFixed(cs: seq<GeobedCity>, idx: map<string, int>, text: string, stripped: string, nCo: string, nSt: string)
    returns (r: GeobedCity)
    requires IsNameIndex(idx, cs) && SortedByName(cs)
    requires TrimSpace(text) != "" ==> |cs| > 0
    ensures TrimSpace(text) == "" ==> r == ZeroCity
    ensures TrimSpace(text) != "" ==> GeocodeOutcomeFixed(cs, idx, MakeQuery(text, stripped, nCo, nSt), r)
  {
    if TrimSpace(text) == "" {
      return ZeroCity;
    }
    var q, rs := Scan(cs, idx, text, stripped, nCo, nSt);
    var ws := Widen(rs);
    WidenInStore(rs, |cs|);
    var hit, s := ScoreCandidates(cs, q, ws);
    if hit.Some? {
      r := cs[hit.value];
      return;
    }
    UnshiftedKeysInRange(PointsOf(cs, q), ws);
    r := Rank(cs, q, Unshift(s));
  }

  /** A store of two cities without population, "Austin" and "Boston". */
  const TwoCities: seq<GeobedCity> := [
    GeobedCity("Austin", "austin", "", "", "", 0.0, 0.0, 0, ""),
    GeobedCity("Boston", "boston", "", "", "", 0.0, 0.0, 0, "")]

  /** Its prefix index. */
  const TwoCitiesIndex: map<string, int> := map["a" := 0, "au" := 0, "b" := 1, "bo" := 1]

  /** The two-city store is sorted and its index is correct, so both lookups accept it. */
  lemma TwoCitiesValid()
    ensures IsNameIndex(TwoCitiesIndex, TwoCities) && SortedByName(TwoCities)
  {
    var cs, idx := TwoCities, TwoCitiesIndex;
    assert cs[0].CityLower[..1] == "a" && cs[0].CityLower[..2] == "au";
    assert cs[1].CityLower[..1] == "b" && cs[1].CityLower[..2] == "bo";
    assert HasKey(cs[0], "a") && HasKey(cs[0], "au") && HasKey(cs[1], "b") && HasKey(cs[1], "bo");
    assert !HasKey(cs[1], "a") && !HasKey(cs[1], "au");
    assert !LessStr(cs[1].CityLower, cs[0].CityLower);
  }

  /** A one-word query with nothing stripped or detected: the text is its own
      trimmed form and its only word. */
  lemma OneWordQuery(w: string)
    requires w != [] && forall ch :: ch in w ==> ch !in Whitespace && ch != ','
    ensures MakeQuery(w, w, "", "") == Query(w, Abbreviation(w), "", "", [w])
  {
    assert w[0] in w && w[|w| - 1] in w;
    TrimUnchanged(w, SpaceComma);
    TrimUnchanged(w, Whitespace);
    SplitNoSeparator(w, ' ');
  }

  /** The query built from the text "Austin". */
  const AustinQuery: Query := Query("Austin", Some("Aus"), "", "", ["Austin"])

  lemma AustinQueryBuilt(text: string)
    requires text == "Austin"
    ensures MakeQuery(text, text, "", "") == AustinQuery
  {
    AustinIsOneWord(text);
    OneWordQuery(text);
    AustinAbbreviation(text);
  }

  lemma AustinIsOneWord(text: string)
    requires text == "Austin"
    ensures text != [] && forall ch :: ch in text ==> ch !in Whitespace && ch != ','
  {
  }

  lemma AustinAbbreviation(text: string)
    requires text == "Austin"
    ensures Abbreviation(text) == Some("Aus")
  {
    assert PairAt(text, 0);
    assert text[0..3] == "Aus";
  }

  /** Austin earns 10 points for it (7 for the name, 2 for containment, 1 for
      the word); the abbreviation "Aus" is not two bytes and earns nothing. */
  lemma AustinPoints()
    ensures PointsOf(TwoCities, AustinQuery)[0] == 10
  {
    var v, q := TwoCities[0], AustinQuery;
    assert TrimSuffix("Austin", ',') == "Austin";
    ContainsTrivial(Lower("Austin"));
    assert TokenPoints(v.City, q.tokens) == 3;
    assert Points(v, q) == 10;
  }

  /** It scans one range, over position 0. */
  lemma AustinRanges()
    ensures RangesOf(TwoCities, TwoCitiesIndex, AustinQuery.tokens) == [Range(0, 1)]
  {
    assert TrimSuffix("Austin", ',') == "Austin";
    assert PrevKey('a') == Some(['`']);
    assert ScanRange(TwoCities, TwoCitiesIndex, "Austin") == Range(0, 1);
    assert RangesOf(TwoCities, TwoCitiesIndex, ["Austin"]) == RangesOf(TwoCities, TwoCitiesIndex, []) + [Range(0, 1)];
  }

  /** Austin's points land under key 1. */
  lemma AustinScoreMap()
    ensures ScoreAll(PointsOf(TwoCities, AustinQuery), [Range(0, 1)]) == map[1 := 10]
  {
    var pts := PointsOf(TwoCities, AustinQuery);
    AustinPoints();
    assert ScoreAll(pts, [Range(0, 1)]) == ScoreUpTo(pts, map[], 0, 1);
  }

  /** Without a state code no record is a state hit, so both lookups end in scoring. */
  lemma NoStateCodeNoHit(cs: seq<GeobedCity>, idx: map<string, int>, q: Query, r: GeobedCity)
    requires q.nSt == ""
    ensures GeocodeOutcome(cs, idx, q, r) ==>
      ScoredOutcome(cs, q, ScoreAll(PointsOf(cs, q), RangesOf(cs, idx, q.tokens)), r)
    ensures GeocodeOutcomeFixed(cs, idx, q, r) ==>
      ScoredOutcome(cs, q, Unshift(ScoreAll(PointsOf(cs, q), Widen(RangesOf(cs, idx, q.tokens)))), r)
  {
    forall order: seq<int>, j | FirstHitAt(cs, q, order, j)
      ensures false
    {
    }
  }

  /** With no population anywhere and no country detected, a lone scored key wins. */
  lemma LoneKeyWins(cs: seq<GeobedCity>, q: Query, s: map<int, int>, k: int, v: int, r: GeobedCity)
    requires 0 <= k < |cs| && v > 0 && q.nCo == "" && s == map[k := v]
    requires forall j :: 0 <= j < |cs| ==> cs[j].Population == 0
    ensures ScoredOutcome(cs, q, s, r) ==> r == cs[k]
  {
    assert k in s && s != map[];
    assert ThousandBonus(cs, s) == s by {
      assert ThousandBonus(cs, s).Keys == s.Keys;
    }
    if ScoredOutcome(cs, q, s, r) {
      var hpk, best :| HighestPopulationKey(cs, s, hpk) && IsWinner(cs, Bonus(cs, s, hpk), best) && r == cs[best];
      assert Bonus(cs, s, hpk) == s;
      assert best in s;
    }
  }

  lemma TwoCitiesUnpopulated(cs: seq<GeobedCity>)
    requires cs == TwoCities
    ensures |cs| == 2 && forall j :: 0 <= j < |cs| ==> cs[j].Population == 0
  {
  }

  /** The whole score map of the query: Austin's 10 points under key 1. */
  lemma AustinScored(cs: seq<GeobedCity>, idx: map<string, int>, q: Query)
    requires cs == TwoCities && idx == TwoCitiesIndex && q == AustinQuery
    ensures ScoreAll(PointsOf(cs, q), RangesOf(cs, idx, q.tokens)) == map[1 := 10]
  {
    AustinRanges();
    AustinScoreMap();
  }

  /** Scored as written, the lone key is 1. */
  lemma AustinWinnerAsWritten(cs: seq<GeobedCity>, idx: map<string, int>, q: Query, r: GeobedCity)
    requires cs == TwoCities && idx == TwoCitiesIndex && q == AustinQuery
    ensures ScoredOutcome(cs, q, ScoreAll(PointsOf(cs, q), RangesOf(cs, idx, q.tokens)), r) ==> r == cs[1]
  {
    AustinScored(cs, idx, q);
    TwoCitiesUnpopulated(cs);
    LoneKeyWins(cs, q, map[1 := 10], 1, 10, r);
  }

  /** Boston earns nothing for the query "Austin". */
  lemma AustinMissesBoston(v: GeobedCity, q: Query)
    requires v == TwoCities[1] && q == AustinQuery
    ensures Points(v, q) == 0
  {
    assert TrimSuffix("Austin", ',') == "Austin";
    OtherInitialScoresNothing(v, q);
  }

  /** A one-range list widened. */
  lemma WidenOne(lo: int, hi: int)
    ensures Widen([Range(lo, hi)]) == [Range(lo, hi + 1)]
  {
  }

  /** Widened to `g.c[0:2]`, the scan still credits only Austin's 10 points, under key 1. */
  lemma AustinWideScoreMap(pts: seq<nat>)
    requires pts == PointsOf(TwoCities, AustinQuery)
    ensures ScoreAll(pts, [Range(0, 2)]) == map[1 := 10]
  {
    AustinPoints();
    PointsOfAt(TwoCities, AustinQuery, 1);
    AustinMissesBoston(TwoCities[1], AustinQuery);
    WideScoreMap(pts);
  }

  /** Over a store of two, the slice `g.c[0:1]` credits position 0 under key 1. */
  lemma NarrowScoreMap(pts: seq<nat>)
    requires |pts| == 2
    ensures ScoreAll(pts, [Range(0, 1)]) == AddPoints(map[], 1, pts[0])
  {
    assert ScoreAll(pts, [Range(0, 1)]) == ScoreUpTo(pts, map[], 0, 1);
  }

  /** Over a store of two, the slice `g.c[0:2]` credits positions 0 and 1 under keys 1 and 2. */
  lemma WideScoreMap(pts: seq<nat>)
    requires |pts| == 2
    ensures ScoreAll(pts, [Range(0, 2)]) == AddPoints(AddPoints(map[], 1, pts[0]), 2, pts[1])
  {
    assert ScoreAll(pts, [Range(0, 2)]) == ScoreUpTo(pts, map[], 0, 2);
  }

  /** In the corrected lookup Austin's 10 points sit under key 0. */
  lemma AustinUnshifted(cs: seq<GeobedCity>, idx: map<string, int>, q: Query)
    requires cs == TwoCities && idx == TwoCitiesIndex && q == AustinQuery
    ensures Unshift(ScoreAll(PointsOf(cs, q), Widen(RangesOf(cs, idx, q.tokens)))) == map[0 := 10]
  {
    AustinRanges();
    WidenOne(0, 1);
    AustinWideScoreMap(PointsOf(cs, q));
    UnshiftSingle(1, 10);
  }

  /** Scored with the offset undone, the lone key is 0. */
  lemma AustinWinnerFixed(cs: seq<GeobedCity>, q: Query, s: map<int, int>, r: GeobedCity)
    requires cs == TwoCities && q == AustinQuery && s == map[0 := 10]
    ensures ScoredOutcome(cs, q, s, r) ==> r == cs[0]
  {
    TwoCitiesUnpopulated(cs);
    LoneKeyWins(cs, q, s, 0, 10, r);
  }

  /** As written, the query "Austin" on that store returns Boston: Austin's 10
      points are stored under key 1, and `g.c[1]` is Boston. */
  lemma ExactNameReturnsNext(cs: seq<GeobedCity>, idx: map<string, int>, text: string, r: GeobedCity)
    requires cs == TwoCities && idx == TwoCitiesIndex && text == "Austin"
    ensures GeocodeOutcome(cs, idx, MakeQuery(text, text, "", ""), r) ==> r == cs[1]
  {
    AustinQueryBuilt(text);
    NoStateCodeNoHit(cs, idx, AustinQuery, r);
    AustinWinnerAsWritten(cs, idx, AustinQuery, r);
  }

  /** The corrected lookup returns Austin for the same query. */
  lemma ExactNameReturnsMatch(cs: seq<GeobedCity>, idx: map<string, int>, text: string, r: GeobedCity)
    requires cs == TwoCities && idx == TwoCitiesIndex && text == "Austin"
    ensures GeocodeOutcomeFixed(cs, idx, MakeQuery(text, text, "", ""), r) ==> r == cs[0]
  {
    AustinQueryBuilt(text);
    NoStateCodeNoHit(cs, idx, AustinQuery, r);
    AustinUnshifted(cs, idx, AustinQuery);
    AustinWinnerFixed(cs, AustinQuery, map[0 := 10], r);
  }

  /** The query built from the text "Boston". */
  const BostonQuery: Query := Query("Boston", Some("Bos"), "", "", ["Boston"])

  lemma BostonQueryBuilt(text: string)
    requires text == "Boston"
    ensures MakeQuery(text, text, "", "") == BostonQuery
  {
    BostonIsOneWord(text);
    OneWordQuery(text);
    BostonAbbreviation(text);
  }

  lemma BostonIsOneWord(text: string)
    requires text == "Boston"
    ensures text != [] && forall ch :: ch in text ==> ch !in Whitespace && ch != ','
  {
  }

  lemma BostonAbbreviation(text: string)
    requires text == "Boston"
    ensures Abbreviation(text) == Some("Bos")
  {
    assert PairAt(text, 0);
    assert text[0..3] == "Bos";
  }

  /** For the query "Boston", Austin earns nothing and Boston earns 10 points. */
  lemma BostonPoints(pts: seq<nat>)
    requires pts == PointsOf(TwoCities, BostonQuery)
    ensures pts[0] == 0 && pts[1] == 10
  {
    var a, b, q := TwoCities[0], TwoCities[1], BostonQuery;
    PointsOfAt(TwoCities, q, 0);
    PointsOfAt(TwoCities, q, 1);
    assert TrimSuffix("Boston", ',') == "Boston";
    OtherInitialScoresNothing(a, q);
    ContainsTrivial(Lower("Boston"));
    assert TokenPoints(b.City, q.tokens) == 3;
  }

  /** The word "Boston" scans `g.c[0:1]`: the slice ends at Boston, the last
      (and only) city of the group "b", and leaves it out. */
  lemma BostonRanges()
    ensures RangesOf(TwoCities, TwoCitiesIndex, BostonQuery.tokens) == [Range(0, 1)]
  {
    assert TrimSuffix("Boston", ',') == "Boston";
    assert PrevKey('b') == Some(['a']);
    assert ScanRange(TwoCities, TwoCitiesIndex, "Boston") == Range(0, 1);
    assert RangesOf(TwoCities, TwoCitiesIndex, ["Boston"]) == RangesOf(TwoCities, TwoCitiesIndex, []) + [Range(0, 1)];
  }

  /** With nothing scored, no population and no country, the lookup returns `g.c[0]`. */
  lemma NothingScoredFirst(cs: seq<GeobedCity>, q: Query, r: GeobedCity)
    requires |cs| > 0 && cs[0].Population == 0 && q.nCo == ""
    ensures ScoredOutcome(cs, q, map[], r) ==> r == cs[0]
  {
    if ScoredOutcome(cs, q, map[], r) {
      var hpk, best :| HighestPopulationKey(cs, map[], hpk) && IsWinner(cs, Bonus(cs, map[], hpk), best) && r == cs[best];
      assert Bonus(cs, map[], hpk) == map[];
    }
  }

  /** The slice `g.c[0:1]` scores nothing for "Boston". */
  lemma BostonNarrowMap(pts: seq<nat>)
    requires pts == PointsOf(TwoCities, BostonQuery)
    ensures ScoreAll(pts, [Range(0, 1)]) == map[]
  {
    BostonPoints(pts);
    NarrowScoreMap(pts);
  }

  /** The slice `g.c[0:2]` credits Boston's 10 points under key 2. */
  lemma BostonWideMap(pts: seq<nat>)
    requires pts == PointsOf(TwoCities, BostonQuery)
    ensures ScoreAll(pts, [Range(0, 2)]) == map[2 := 10]
  {
    BostonPoints(pts);
    WideScoreMap(pts);
  }

  /** As written, no key is scored for "Boston". */
  lemma BostonScored(cs: seq<GeobedCity>, idx: map<string, int>, q: Query)
    requires cs == TwoCities && idx == TwoCitiesIndex && q == BostonQuery
    ensures ScoreAll(PointsOf(cs, q), RangesOf(cs, idx, q.tokens)) == map[]
  {
    BostonRanges();
    BostonNarrowMap(PointsOf(cs, q));
  }

  /** In the corrected lookup Boston's 10 points sit under its own key 1. */
  lemma BostonUnshifted(cs: seq<GeobedCity>, idx: map<string, int>, q: Query)
    requires cs == TwoCities && idx == TwoCitiesIndex && q == BostonQuery
    ensures Unshift(ScoreAll(PointsOf(cs, q), Widen(RangesOf(cs, idx, q.tokens)))) == map[1 := 10]
  {
    BostonRanges();
    WidenOne(0, 1);
    BostonWideMap(PointsOf(cs, q));
    UnshiftSingle(2, 10);
  }

  /** As written, the query "Boston" returns Austin: the slice `g.c[0:1]` scans
      only Austin, which earns nothing, so no key is scored. */
  lemma LastOfGroupMissed(cs: seq<GeobedCity>, idx: map<string, int>, text: string, r: GeobedCity)
    requires cs == TwoCities && idx == TwoCitiesIndex && text == "Boston"
    ensures GeocodeOutcome(cs, idx, MakeQuery(text, text, "", ""), r) ==> r == cs[0]
  {
    BostonQueryBuilt(text);
    NoStateCodeNoHit(cs, idx, BostonQuery, r);
    BostonScored(cs, idx, BostonQuery);
    TwoCitiesUnpopulated(cs);
    NothingScoredFirst(cs, BostonQuery, r);
  }

  /** The corrected lookup returns Boston: the widened slice `g.c[0:2]` takes
      in Boston, whose 10 points sit under its own key 1. */
  lemma LastOfGroupFound(cs: seq<GeobedCity>, idx: map<string, int>, text: string, r: GeobedCity)
    requires cs == TwoCities && idx == TwoCitiesIndex && text == "Boston"
    ensures GeocodeOutcomeFixed(cs, idx, MakeQuery(text, text, "", ""), r) ==> r == cs[1]
  {
    BostonQueryBuilt(text);
    NoStateCodeNoHit(cs, idx, BostonQuery, r);
    BostonUnshifted(cs, idx, BostonQuery);
    BostonWinnerFixed(cs, BostonQuery, map[1 := 10], r);
  }

  /** Scored in the corrected lookup, the lone key is 1. */
  lemma BostonWinnerFixed(cs: seq<GeobedCity>, q: Query, s: map<int, int>, r: GeobedCity)
    requires cs == TwoCities && q == BostonQuery && s == map[1 := 10]
    ensures ScoredOutcome(cs, q, s, r) ==> r == cs[1]
  {
    TwoCitiesUnpopulated(cs);
    LoneKeyWins(cs, q, s, 1, 10, r);
  }
}
