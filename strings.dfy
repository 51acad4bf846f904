/** The Go string operations the engine relies on, at the level of bytes.
    A `char` stands for one byte of a Go string, so the model is exact for
    ASCII text; Unicode-aware behaviour of the Go library is not modelled. */
module GoStrings {

  /** ASCII white space as `unicode.IsSpace` sees it (used by `strings.TrimSpace`
      and `strings.Fields`). */
  const Whitespace: set<char> := {' ', '\t', '\n', '\U{0B}', '\U{0C}', '\r'}

  /** The class `\s` of Go's regular expressions; unlike `Whitespace` it has no
      vertical tab. */
  const RegexpSpace: set<char> := {' ', '\t', '\n', '\U{0C}', '\r'}

  function Min(a: int, b: int): int {
    if a <= b then a else b
  }

  function LowerChar(ch: char): char {
    if 'A' <= ch <= 'Z' then (ch as int + ('a' as int - 'A' as int)) as char else ch
  }

  function UpperChar(ch: char): char {
    if 'a' <= ch <= 'z' then (ch as int - ('a' as int - 'A' as int)) as char else ch
  }

  /** The value computed by the engine's `toLower`: the same length, and only the
      bytes 'A'..'Z' change, each to its lower-case letter. */
  function Lower(s: string): (r: string)
    ensures |r| == |s|
    ensures forall i :: 0 <= i < |s| ==>
      if 'A' <= s[i] <= 'Z' then r[i] as int == s[i] as int + 32 else r[i] == s[i]
  {
    if s == [] then [] else [LowerChar(s[0])] + Lower(s[1..])
  }

  /** The value computed by the engine's `toUpper`: the same length, and only the
      bytes 'a'..'z' change, each to its upper-case letter. */
  function Upper(s: string): (r: string)
    ensures |r| == |s|
    ensures forall i :: 0 <= i < |s| ==>
      if 'a' <= s[i] <= 'z' then r[i] as int == s[i] as int - 32 else r[i] == s[i]
  {
    if s == [] then [] else [UpperChar(s[0])] + Upper(s[1..])
  }

  /** `toLower`: fills a byte buffer of the input's length, one byte at a time. */
  method ToLower(s: string) returns (r: string)
    ensures r == Lower(s)
  {
    var b := new char[|s|];
    for i := 0 to |s|
      invariant forall j :: 0 <= j < i ==> b[j] == LowerChar(s[j])
    {
      var ch := s[i];
      if 'A' <= ch <= 'Z' {
        ch := (ch as int + ('a' as int - 'A' as int)) as char;
      }
      b[i] := ch;
    }
    r := b[..];
  }

  /** `toUpper`: fills a byte buffer of the input's length, one byte at a time. */
  method ToUpper(s: string) returns (r: string)
    ensures r == Upper(s)
  {
    var b := new char[|s|];
    for i := 0 to |s|
      invariant forall j :: 0 <= j < i ==> b[j] == UpperChar(s[j])
    {
      var ch := s[i];
      if 'a' <= ch <= 'z' {
        ch := (ch as int - ('a' as int - 'A' as int)) as char;
      }
      b[i] := ch;
    }
    r := b[..];
  }

  lemma LowerIdempotent(s: string)
    ensures Lower(Lower(s)) == Lower(s)
  {
  }

  /** `strings.EqualFold`, restricted to ASCII case folding. */
  predicate EqualFold(a: string, b: string) {
    Lower(a) == Lower(b)
  }

  /** Lower-casing one side first does not change a case-insensitive comparison. */
  lemma EqualFoldLower(a: string, b: string)
    ensures EqualFold(a, Lower(b)) <==> EqualFold(a, b)
  {
    LowerIdempotent(b);
  }

  /** `strings.Contains`. */
  predicate Contains(s: string, sub: string)
    decreases |s|
  {
    sub <= s || (s != [] && Contains(s[1..], sub))
  }

  /** `Contains` holds exactly when `sub` occurs at some position of `s`. */
  lemma {:induction false} ContainsIff(s: string, sub: string)
    ensures Contains(s, sub) <==> exists i :: 0 <= i <= |s| && sub <= s[i..]
  {
    if s == [] {
      if Contains(s, sub) {
        assert sub <= s[0..];
      }
    } else {
      ContainsIff(s[1..], sub);
      if Contains(s, sub) {
        if sub <= s {
          assert sub <= s[0..];
        } else {
          var i :| 0 <= i <= |s[1..]| && sub <= s[1..][i..];
          assert s[1..][i..] == s[i + 1..];
        }
      }
      if exists i :: 0 <= i <= |s| && sub <= s[i..] {
        var i :| 0 <= i <= |s| && sub <= s[i..];
        if i > 0 {
          assert s[1..][i - 1..] == s[i..];
        }
      }
    }
  }

  /** A one-byte string is contained exactly when the byte occurs. */
  lemma {:induction false} ContainsByte(s: string, ch: char)
    ensures Contains(s, [ch]) <==> ch in s
  {
    if s != [] {
      ContainsByte(s[1..], ch);
      assert ch in s <==> s[0] == ch || ch in s[1..];
    }
  }

  /** The empty string is contained in every string, and every string in itself. */
  lemma ContainsTrivial(s: string)
    ensures Contains(s, "") && Contains(s, s)
  {
  }

  /** `strings.TrimLeft` with a cut set: drops the leading bytes that are in `cut`. */
  function TrimLeft(s: string, cut: set<char>): (r: string)
    ensures |r| <= |s| && r == s[|s| - |r|..]
    ensures r == [] || r[0] !in cut
    ensures forall i :: 0 <= i < |s| - |r| ==> s[i] in cut
    decreases |s|
  {
    if s != [] && s[0] in cut then TrimLeft(s[1..], cut) else s
  }

  /** `strings.TrimRight` with a cut set: drops the trailing bytes that are in `cut`. */
  function TrimRight(s: string, cut: set<char>): (r: string)
    ensures |r| <= |s| && r == s[..|r|]
    ensures r == [] || r[|r| - 1] !in cut
    ensures forall i :: |r| <= i < |s| ==> s[i] in cut
    decreases |s|
  {
    if s != [] && s[|s| - 1] in cut then TrimRight(s[..|s| - 1], cut) else s
  }

  /** `strings.Trim(s, cutset)`. */
  function Trim(s: string, cut: set<char>): string {
    TrimRight(TrimLeft(s, cut), cut)
  }

  /** A string that neither starts nor ends with a byte of the cut set is its own trim. */
  lemma TrimUnchanged(s: string, cut: set<char>)
    requires s != [] && s[0] !in cut && s[|s| - 1] !in cut
    ensures Trim(s, cut) == s
  {
    assert TrimLeft(s, cut) == s;
  }

  /** Where what `TrimLeft` keeps starts. */
  function TrimStart(s: string, cut: set<char>): nat {
    |s| - |TrimLeft(s, cut)|
  }

  /** What `Trim` leaves is a piece of `s` that neither starts nor ends with a
      byte of `cut`, and everything it dropped is in `cut`. */
  lemma TrimShape(s: string, cut: set<char>)
    ensures var r, i := Trim(s, cut), TrimStart(s, cut);
      && i + |r| <= |s| && r == s[i..i + |r|]
      && (forall j :: 0 <= j < i ==> s[j] in cut)
      && (forall j :: i + |r| <= j < |s| ==> s[j] in cut)
      && (r == [] || (r[0] !in cut && r[|r| - 1] !in cut))
  {
    var l := TrimLeft(s, cut);
    var r := TrimRight(l, cut);
    var i := |s| - |l|;
    assert r == s[i..i + |r|];
    forall j | i + |r| <= j < |s| ensures s[j] in cut {
      assert s[j] == l[j - i];
    }
    if r != [] {
      assert r[0] == l[0];
    }
  }

  /** Trimming twice is the same as trimming once. */
  lemma TrimIdempotent(s: string, cut: set<char>)
    ensures Trim(Trim(s, cut), cut) == Trim(s, cut)
  {
    TrimShape(s, cut);
    var r := Trim(s, cut);
    if r != [] {
      assert r[0] !in cut && r[|r| - 1] !in cut;
      assert TrimLeft(r, cut) == r;
      assert TrimRight(r, cut) == r;
    }
  }

  /** Trimming gives the empty string exactly when every byte is in the cut set. */
  lemma TrimEmptyIff(s: string, cut: set<char>)
    ensures Trim(s, cut) == [] <==> forall i :: 0 <= i < |s| ==> s[i] in cut
  {
    var l := TrimLeft(s, cut);
    if Trim(s, cut) == [] {
      assert l == [];
    }
  }

  /** `strings.TrimSpace`. */
  function TrimSpace(s: string): string {
    Trim(s, Whitespace)
  }

  /** `strings.TrimSuffix(s, string(suffix))` for a one-byte suffix. */
  function TrimSuffix(s: string, suffix: char): string {
    if s != [] && s[|s| - 1] == suffix then s[..|s| - 1] else s
  }

  /** Joins pieces with one separator byte between neighbours (`strings.Join`). */
  function Join(parts: seq<string>, sep: char): string {
    if parts == [] then ""
    else if |parts| == 1 then parts[0]
    else parts[0] + [sep] + Join(parts[1..], sep)
  }

  /** `strings.Split(s, string(sep))` for a one-byte separator: one piece more
      than there are separators, and no piece holds the separator. */
  function Split(s: string, sep: char): (r: seq<string>)
    ensures |r| == multiset(s)[sep] + 1
    ensures forall i :: 0 <= i < |r| ==> sep !in r[i]
  {
    if s == [] then [""]
    else
      assert s == [s[0]] + s[1..];
      var rest := Split(s[1..], sep);
      if s[0] == sep then [""] + rest else [[s[0]] + rest[0]] + rest[1..]
  }

  /** Splitting with a limit, as `regexp.MustCompile("\t").Split(s, n)` does for a
      one-byte pattern: at most `n` pieces, the last of which keeps every byte
      after the `n-1`-th separator. */
  function SplitN(s: string, sep: char, n: nat): (r: seq<string>)
    requires n >= 1
    ensures |r| == Min(multiset(s)[sep] + 1, n)
    ensures forall i :: 0 <= i < |r| - 1 ==> sep !in r[i]
    decreases |s|
  {
    if n == 1 then [s]
    else if s == [] then [""]
    else
      assert s == [s[0]] + s[1..];
      if s[0] == sep then [""] + SplitN(s[1..], sep, n - 1)
      else
        var rest := SplitN(s[1..], sep, n);
        [[s[0]] + rest[0]] + rest[1..]
  }

  lemma JoinPrepend(ch: char, rest: seq<string>, sep: char)
    requires rest != []
    ensures Join([[ch] + rest[0]] + rest[1..], sep) == [ch] + Join(rest, sep)
  {
    var r := [[ch] + rest[0]] + rest[1..];
    assert r[1..] == rest[1..];
    if |rest| > 1 {
      assert Join(r, sep) == [ch] + rest[0] + [sep] + Join(rest[1..], sep);
    }
  }

  lemma JoinEmptyFirst(rest: seq<string>, sep: char)
    requires rest != []
    ensures Join([""] + rest, sep) == [sep] + Join(rest, sep)
  {
    assert ([""] + rest)[1..] == rest;
  }

  /** Joining the pieces of `Split` gives back the string. */
  lemma {:induction false} SplitJoin(s: string, sep: char)
    ensures Join(Split(s, sep), sep) == s
  {
    if s != [] {
      var rest := Split(s[1..], sep);
      SplitJoin(s[1..], sep);
      if s[0] == sep {
        assert Split(s, sep) == [""] + rest;
        JoinEmptyFirst(rest, sep);
      } else {
        assert Split(s, sep) == [[s[0]] + rest[0]] + rest[1..];
        JoinPrepend(s[0], rest, sep);
      }
      assert s == [s[0]] + s[1..];
    }
  }

  /** Joining the pieces of `SplitN` gives back the string. */
  lemma {:induction false} SplitNJoin(s: string, sep: char, n: nat)
    requires n >= 1
    ensures Join(SplitN(s, sep, n), sep) == s
    decreases |s|
  {
    if n > 1 && s != [] {
      if s[0] == sep {
        var rest := SplitN(s[1..], sep, n - 1);
        assert SplitN(s, sep, n) == [""] + rest;
        SplitNJoin(s[1..], sep, n - 1);
        JoinEmptyFirst(rest, sep);
      } else {
        var rest := SplitN(s[1..], sep, n);
        assert SplitN(s, sep, n) == [[s[0]] + rest[0]] + rest[1..];
        SplitNJoin(s[1..], sep, n);
        JoinPrepend(s[0], rest, sep);
      }
      assert s == [s[0]] + s[1..];
    }
  }


  /** A string without the separator splits into itself. */
  lemma {:induction false} SplitNoSeparator(s: string, sep: char)
    requires sep !in s
    ensures Split(s, sep) == [s]
  {
    if s != [] {
      SplitNoSeparator(s[1..], sep);
      assert s == [s[0]] + s[1..];
    }
  }

  /** Below the limit the limited split is the plain split. */
  lemma {:induction false} SplitNUnderLimit(s: string, sep: char, n: nat)
    requires n > multiset(s)[sep]
    ensures SplitN(s, sep, n) == Split(s, sep)
    decreases |s|
  {
    if n == 1 {
      assert multiset(s)[sep] == 0;
      SplitNoSeparator(s, sep);
    } else if s != [] {
      assert s == [s[0]] + s[1..];
      if s[0] == sep {
        SplitNUnderLimit(s[1..], sep, n - 1);
      } else {
        SplitNUnderLimit(s[1..], sep, n);
      }
    }
  }

  /** The longest prefix of `s` without white space. */
  function Word(s: string): (w: string)
    ensures w <= s
    ensures forall ch :: ch in w ==> ch !in Whitespace
    ensures |w| < |s| ==> s[|w|] in Whitespace
  {
    if s == [] || s[0] in Whitespace then "" else [s[0]] + Word(s[1..])
  }

  /** `strings.Fields`: the maximal runs of bytes outside `Whitespace`. */
  function Fields(s: string): (r: seq<string>)
    ensures forall i :: 0 <= i < |r| ==> r[i] != [] && forall ch :: ch in r[i] ==> ch !in Whitespace
    decreases |s|
  {
    if s == [] then []
    else if s[0] in Whitespace then Fields(s[1..])
    else
      var w := Word(s);
      [w] + Fields(s[|w|..])
  }

  /** The bytes of `s` outside `Whitespace`, in order. */
  function NonSpace(s: string): string {
    if s == [] then "" else (if s[0] in Whitespace then "" else [s[0]]) + NonSpace(s[1..])
  }

  function Concat(parts: seq<string>): string {
    if parts == [] then "" else parts[0] + Concat(parts[1..])
  }

  lemma {:induction false} NonSpaceAppend(a: string, b: string)
    ensures NonSpace(a + b) == NonSpace(a) + NonSpace(b)
  {
    if a != [] {
      assert (a + b)[1..] == a[1..] + b;
      NonSpaceAppend(a[1..], b);
    } else {
      assert a + b == b;
    }
  }

  lemma {:induction false} NonSpaceOfWord(w: string)
    requires forall ch :: ch in w ==> ch !in Whitespace
    ensures NonSpace(w) == w
  {
    if w != [] {
      assert w[0] in w;
      NonSpaceOfWord(w[1..]);
    }
  }

  /** The fields, concatenated, are the string with its white space removed. */
  lemma {:induction false} FieldsConcat(s: string)
    ensures Concat(Fields(s)) == NonSpace(s)
    decreases |s|
  {
    if s != [] {
      if s[0] in Whitespace {
        FieldsConcat(s[1..]);
      } else {
        var w := Word(s);
        var rest := s[|w|..];
        FieldsConcat(rest);
        assert s == w + rest;
        NonSpaceAppend(w, rest);
        NonSpaceOfWord(w);
        assert ([w] + Fields(rest))[1..] == Fields(rest);
      }
    }
  }

  /** Splitting at every byte of `seps`, empty pieces included. */
  function SplitAny(s: string, seps: set<char>): (r: seq<string>)
    ensures |r| >= 1
  {
    if s == [] then [""]
    else
      var rest := SplitAny(s[1..], seps);
      if s[0] in seps then [""] + rest else [[s[0]] + rest[0]] + rest[1..]
  }

  /** The pieces that are not empty, in order. */
  function NonEmptyPieces(parts: seq<string>): seq<string> {
    if parts == [] then []
    else (if parts[0] == "" then [] else [parts[0]]) + NonEmptyPieces(parts[1..])
  }

  /** A separator-free prefix joins the first piece of what follows it. */
  lemma {:induction false} SplitAnyWord(w: string, t: string, seps: set<char>)
    requires forall ch :: ch in w ==> ch !in seps
    ensures SplitAny(w + t, seps) == [w + SplitAny(t, seps)[0]] + SplitAny(t, seps)[1..]
  {
    var r := SplitAny(t, seps);
    if w == [] {
      assert w + t == t && w + r[0] == r[0];
      assert r == [r[0]] + r[1..];
    } else {
      assert (w + t)[1..] == w[1..] + t;
      assert w[0] in w;
      SplitAnyWord(w[1..], t, seps);
      assert [w[0]] + (w[1..] + r[0]) == w + r[0];
    }
  }

  /** `strings.Fields` splits at every white-space byte and drops the empty
      pieces: its fields are exactly the maximal runs of non-white-space bytes. */
  lemma {:induction false} FieldsSplitsAtWhitespace(s: string)
    ensures Fields(s) == NonEmptyPieces(SplitAny(s, Whitespace))
    decreases |s|
  {
    if s != [] {
      if s[0] in Whitespace {
        FieldsSplitsAtWhitespace(s[1..]);
        var r := SplitAny(s[1..], Whitespace);
        assert SplitAny(s, Whitespace) == [""] + r;
        assert ([""] + r)[1..] == r;
      } else {
        var w := Word(s);
        var rest := s[|w|..];
        assert s == w + rest;
        SplitAnyWord(w, rest, Whitespace);
        assert Fields(s) == [w] + Fields(rest);
        if rest == [] {
          assert SplitAny(rest, Whitespace) == [""] && w + "" == w;
          assert SplitAny(s, Whitespace) == [w];
        } else {
          var r := SplitAny(rest[1..], Whitespace);
          assert SplitAny(rest, Whitespace) == [""] + r;
          assert ([""] + r)[0] == "" && w + "" == w;
          assert SplitAny(s, Whitespace) == [w] + r;
          FieldsSplitsAtWhitespace(rest);
          assert ([""] + r)[1..] == r;
          assert ([w] + r)[1..] == r;
        }
      }
    }
  }
}
