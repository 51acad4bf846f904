/** `ReverseGeocode`: the stored record whose geohash shares the longest prefix
    with the query point's geohash, ties going to the larger population. */
module Reverse {
  import opened GoStrings
  import opened Records

  /** The length of the geohashes the encoder produces. */
  const GeohashLength := 12

  /** The number of leading bytes two strings share. */
  function CommonPrefixLength(a: string, b: string): (n: nat)
    ensures n <= |a| && n <= |b| && a[..n] == b[..n]
    ensures n < |a| && n < |b| ==> a[n] != b[n]
  {
    if a == [] || b == [] || a[0] != b[0] then 0
    else 1 + CommonPrefixLength(a[1..], b[1..])
  }

  /** The prefixes of length `i` agree exactly up to the common prefix length. */
  lemma PrefixMatchIff(a: string, b: string, i: int)
    requires 0 <= i <= |a| && i <= |b|
    ensures a[..i] == b[..i] <==> i <= CommonPrefixLength(a, b)
  {
    var n := CommonPrefixLength(a, b);
    if i <= n {
      assert a[..i] == a[..n][..i] && b[..i] == b[..n][..i];
    } else {
      assert a[..i][n] == a[n] && b[..i][n] == b[n];
    }
  }

  /** A stored geohash the loop looks at: its first two bytes are the query's. */
  predicate Candidate(h: string, gh: string) {
    |h| >= 2 && |gh| >= 2 && h[0] == gh[0] && h[1] == gh[1]
  }

  /** A stored geohash the loop can read without a panic: one byte always, the
      second when the first agrees, and as many as the query has when the first
      two agree. An empty geohash (a record at the origin) is not safe. */
  predicate GeohashSafe(h: string, gh: string) {
    && |h| >= 1
    && (|gh| >= 1 && h[0] == gh[0] ==> |h| >= 2)
    && (Candidate(h, gh) ==> |h| >= |gh|)
  }

  /** The `matched` count of a candidate: 2, plus one per prefix length
      `2..len(gh)` on which the two geohashes agree. */
  function Matched(h: string, gh: string): int {
    1 + CommonPrefixLength(h, gh)
  }

  /** The inner loop that counts matching prefixes. */
  method MatchLength(h: string, gh: string) returns (matched: int)
    requires Candidate(h, gh) && |h| >= |gh|
    ensures matched == Matched(h, gh)
    ensures 3 <= matched <= |gh| + 1
  {
    ghost var n := CommonPrefixLength(h, gh);
    assert h[..2] == gh[..2];
    PrefixMatchIff(h, gh, 2);
    matched := 2;
    var i := 2;
    while i <= |gh|
      invariant 2 <= i <= |gh| + 1
      invariant matched == 1 + Min(i - 1, n)
    {
      PrefixMatchIff(h, gh, i);
      if h[..i] == gh[..i] {
        matched := matched + 1;
      }
      i := i + 1;
    }
  }

  /** Position `b` wins among the first `n` records: a candidate with the largest
      `matched`, then the largest population, then the earliest position. */
  ghost predicate WinsUpTo(cs: seq<GeobedCity>, gh: string, b: int, n: int) {
    && 0 <= b < n <= |cs|
    && Candidate(cs[b].Geohash, gh)
    && forall k :: 0 <= k < n && Candidate(cs[k].Geohash, gh) ==>
         && Matched(cs[k].Geohash, gh) <= Matched(cs[b].Geohash, gh)
         && (Matched(cs[k].Geohash, gh) == Matched(cs[b].Geohash, gh) ==>
               cs[k].Population <= cs[b].Population
               && (k < b ==> cs[k].Population < cs[b].Population))
  }

  /** Position `b` wins over the whole store. */
  ghost predicate IsReverseWinner(cs: seq<GeobedCity>, gh: string, b: int) {
    WinsUpTo(cs, gh, b, |cs|)
  }

  /** The winner is unique, so the lookup is deterministic. */
  lemma ReverseWinnerUnique(cs: seq<GeobedCity>, gh: string, a: int, b: int)
    requires IsReverseWinner(cs, gh, a) && IsReverseWinner(cs, gh, b)
    ensures a == b
  {
    assert Matched(cs[a].Geohash, gh) == Matched(cs[b].Geohash, gh);
    assert cs[a].Population == cs[b].Population;
  }

  /** No record is a candidate: `ReverseGeocode` returns the empty city. */
  predicate NoCandidate(cs: seq<GeobedCity>, gh: string) {
    forall k :: 0 <= k < |cs| ==> !Candidate(cs[k].Geohash, gh)
  }

  /** `ReverseGeocode(lat, lng)`, given the encoder's geohash of the point. */
  method ReverseGeocode(cs: seq<GeobedCity>, gh: string) returns (c: GeobedCity)
    requires |gh| == GeohashLength
    requires gh != OriginGeohash ==> forall k :: 0 <= k < |cs| ==> GeohashSafe(cs[k].Geohash, gh)
    ensures gh == OriginGeohash ==> c == ZeroCity
    ensures gh != OriginGeohash && NoCandidate(cs, gh) ==> c == ZeroCity
    ensures gh != OriginGeohash && !NoCandidate(cs, gh) ==>
      exists b :: IsReverseWinner(cs, gh, b) && c == cs[b]
  {
    c := ZeroCity;
    if gh == OriginGeohash {
      return;
    }
    var mostMatched := 0;
    ghost var b := 0;
    for k := 0 to |cs|
      invariant mostMatched == 0 ==> c == ZeroCity
      invariant mostMatched == 0 ==> forall j :: 0 <= j < k ==> !Candidate(cs[j].Geohash, gh)
      invariant mostMatched != 0 ==> WinsUpTo(cs, gh, b, k) && c == cs[b]
      invariant mostMatched != 0 ==> mostMatched == Matched(cs[b].Geohash, gh)
    {
      var v := cs[k];
      if v.Geohash[0] == gh[0] && v.Geohash[1] == gh[1] {
        var matched := MatchLength(v.Geohash, gh);
        if matched == mostMatched && cs[k].Population > c.Population {
          c := cs[k];
          b := k;
        }
        if matched > mostMatched {
          c := cs[k];
          b := k;
          mostMatched := matched;
        }
      }
    }
    if mostMatched != 0 {
      assert IsReverseWinner(cs, gh, b);
    }
  }
}
