/** The city store: ordering by `CityLower` (`Cities.Less`), the sort, and the
    1- and 2-byte prefix index `cityNameIdx`. */
module Store {
  import opened GoStrings
  import opened Records

  /** Go's `<` on strings: byte-wise lexicographic order. */
  predicate LessStr(a: string, b: string)
    decreases |a|
  {
    if a == [] then b != []
    else if b == [] then false
    else if a[0] != b[0] then a[0] < b[0]
    else LessStr(a[1..], b[1..])
  }

  lemma {:induction false} LessStrIrreflexive(a: string)
    ensures !LessStr(a, a)
  {
    if a != [] {
      LessStrIrreflexive(a[1..]);
    }
  }

  lemma {:induction false} LessStrTransitive(a: string, b: string, c: string)
    requires LessStr(a, b) && LessStr(b, c)
    ensures LessStr(a, c)
    decreases |a|
  {
    if a != [] && b != [] && c != [] && a[0] == b[0] && b[0] == c[0] {
      LessStrTransitive(a[1..], b[1..], c[1..]);
    }
  }

  lemma {:induction false} LessStrAsymmetric(a: string, b: string)
    requires LessStr(a, b)
    ensures !LessStr(b, a)
    decreases |a|
  {
    if a != [] && b != [] && a[0] == b[0] {
      LessStrAsymmetric(a[1..], b[1..]);
    }
  }

  lemma {:induction false} LessStrTotal(a: string, b: string)
    ensures a == b || LessStr(a, b) || LessStr(b, a)
    decreases |a|
  {
    if a != [] && b != [] && a[0] == b[0] {
      LessStrTotal(a[1..], b[1..]);
      if a[1..] == b[1..] {
        assert a == [a[0]] + a[1..] && b == [b[0]] + b[1..];
      }
    }
  }

  /** Strings in order whose first bytes differ are ordered by those bytes. */
  lemma FirstByteOrder(a: string, b: string)
    requires a != [] && b != [] && a[0] < b[0]
    ensures LessStr(a, b) && !LessStr(b, a)
  {
  }

  /** `Cities.Less`. */
  predicate CityLess(x: GeobedCity, y: GeobedCity) {
    LessStr(x.CityLower, y.CityLower)
  }

  /** Non-decreasing by `CityLower`: no later city is less than an earlier one. */
  predicate SortedByName(cs: seq<GeobedCity>) {
    forall i, j :: 0 <= i < j < |cs| ==> !CityLess(cs[j], cs[i])
  }

  /** Puts `x` in front of the first city that is not less than it. */
  function Insert(x: GeobedCity, cs: seq<GeobedCity>): (r: seq<GeobedCity>)
    requires SortedByName(cs)
    ensures SortedByName(r)
    ensures multiset(r) == multiset(cs) + multiset{x}
  {
    if cs == [] then [x]
    else if !CityLess(cs[0], x) then
      InsertFrontSorted(x, cs);
      [x] + cs
    else
      var rest := Insert(x, cs[1..]);
      InsertBehindSorted(cs, x, rest);
      [cs[0]] + rest
  }

  lemma InsertFrontSorted(x: GeobedCity, cs: seq<GeobedCity>)
    requires SortedByName(cs) && cs != [] && !CityLess(cs[0], x)
    ensures SortedByName([x] + cs)
  {
    var r := [x] + cs;
    forall i, j | 0 <= i < j < |r| ensures !CityLess(r[j], r[i]) {
      if i == 0 && j > 1 {
        if CityLess(r[j], x) {
          LessStrTotal(cs[0].CityLower, r[j].CityLower);
          if LessStr(cs[0].CityLower, r[j].CityLower) {
            LessStrTransitive(cs[0].CityLower, r[j].CityLower, x.CityLower);
          }
        }
      }
    }
  }

  lemma InsertBehindSorted(cs: seq<GeobedCity>, x: GeobedCity, rest: seq<GeobedCity>)
    requires SortedByName(cs) && cs != [] && CityLess(cs[0], x)
    requires SortedByName(rest) && multiset(rest) == multiset(cs[1..]) + multiset{x}
    ensures SortedByName([cs[0]] + rest)
    ensures multiset([cs[0]] + rest) == multiset(cs) + multiset{x}
  {
    var y := cs[0];
    var r := [y] + rest;
    assert cs == [y] + cs[1..];
    LessStrAsymmetric(y.CityLower, x.CityLower);
    forall j | 1 <= j < |r| ensures !CityLess(r[j], y) {
      assert r[j] == rest[j - 1];
      assert rest[j - 1] in multiset(rest);
      if r[j] != x {
        assert r[j] in multiset(cs[1..]);
        var k :| 0 <= k < |cs[1..]| && cs[1..][k] == r[j];
        assert cs[k + 1] == r[j];
      }
    }
  }

  /** `sort.Sort(g.c)`: the result is sorted by `CityLower` and a permutation of the
      input. The sort is not stable, so only these two facts are promised. */
  function SortByName(cs: seq<GeobedCity>): (r: seq<GeobedCity>)
    ensures SortedByName(r)
    ensures multiset(r) == multiset(cs)
  {
    if cs == [] then []
    else
      assert cs == cs[..|cs| - 1] + [cs[|cs| - 1]];
      Insert(cs[|cs| - 1], SortByName(cs[..|cs| - 1]))
  }

  // ---------------------------------------------------------------------
  // The prefix index

  /** `p` is one of the index keys of city `c`: its first byte, or its first two. */
  predicate HasKey(c: GeobedCity, p: string) {
    && c.CityLower != []
    && (p == c.CityLower[..1] || (|c.CityLower| >= 2 && p == c.CityLower[..2]))
  }

  /** `idx` maps exactly the keys of the first `n` cities to the greatest
      position below `n` holding each key. */
  ghost predicate IndexUpTo(idx: map<string, int>, cs: seq<GeobedCity>, n: int)
    requires 0 <= n <= |cs|
  {
    && (forall p :: p in idx <==> exists k :: 0 <= k < n && HasKey(cs[k], p))
    && (forall p :: p in idx ==>
          && 0 <= idx[p] < n
          && HasKey(cs[idx[p]], p)
          && forall j :: idx[p] < j < n ==> !HasKey(cs[j], p))
  }

  /** `idx` maps exactly the keys of the cities to the greatest position holding
      each key. */
  ghost predicate IsNameIndex(idx: map<string, int>, cs: seq<GeobedCity>) {
    IndexUpTo(idx, cs, |cs|)
  }

  /** Every city has a non-empty search key (a loader invariant). */
  predicate NamesNonEmpty(cs: seq<GeobedCity>) {
    forall k :: 0 <= k < |cs| ==> cs[k].CityLower != []
  }

  /** In a sorted store the last position of a 1-byte key comes before the last
      position of any greater 1-byte key. */
  lemma {:induction false} IndexOrdered(idx: map<string, int>, cs: seq<GeobedCity>, a: char, b: char)
    requires IsNameIndex(idx, cs) && SortedByName(cs)
    requires a < b && [a] in idx && [b] in idx
    ensures idx[[a]] < idx[[b]]
  {
    var i, j := idx[[a]], idx[[b]];
    assert HasKey(cs[i], [a]) && HasKey(cs[j], [b]);
    assert cs[i].CityLower[0] == a && cs[j].CityLower[0] == b;
    FirstByteOrder(cs[i].CityLower, cs[j].CityLower);
    SortedOrder(cs, i, j);
  }

  /** In a sorted store a strictly smaller name sits at a strictly smaller position. */
  lemma SortedOrder(cs: seq<GeobedCity>, i: int, j: int)
    requires SortedByName(cs) && 0 <= i < |cs| && 0 <= j < |cs|
    requires CityLess(cs[i], cs[j])
    ensures i < j
  {
    var x, y := cs[i], cs[j];
    LessStrIrreflexive(x.CityLower);
    LessStrAsymmetric(x.CityLower, y.CityLower);
    assert j < i ==> !CityLess(x, y);
  }
}
