/** The `System.String` operations the calculator calls: `IndexOf(char)`, `Split(char[])` and
    `TrimEnd(char)`. Strings are sequences of Unicode scalar values, so a character outside the
    Basic Multilingual Plane is one `char` here where .NET has two UTF-16 code units. */
module Strings {

  /** `s.IndexOf(c)`: the position of the first `c` in `s` (an ordinal comparison), or -1. */
  function IndexOf(s: string, c: char): (r: int)
    ensures -1 <= r < |s|
    ensures r == -1 ==> forall m :: 0 <= m < |s| ==> s[m] != c
    ensures 0 <= r ==> s[r] == c && forall m :: 0 <= m < r ==> s[m] != c
  {
    if s == [] then -1
    else if s[0] == c then 0
    else
      var t := IndexOf(s[1..], c);
      if t == -1 then -1 else t + 1
  }

  /** The delimiter characters of `s`, in the order they occur. */
  function Separators(s: string, delims: seq<char>): seq<char> {
    if s == [] then []
    else if s[0] in delims then [s[0]] + Separators(s[1..], delims)
    else Separators(s[1..], delims)
  }

  /** `s.Split(delims)`: cut `s` at every occurrence of any character of `delims` (a character
      class, not a substring), keeping the empty pieces. */
  function Split(s: string, delims: seq<char>): (r: seq<string>)
    ensures |r| == |Separators(s, delims)| + 1
    ensures forall p, m :: 0 <= p < |r| && 0 <= m < |r[p]| ==> r[p][m] !in delims
  {
    if s == [] then [""]
    else
      var rest := Split(s[1..], delims);
      if s[0] in delims then [""] + rest
      else [[s[0]] + rest[0]] + rest[1..]
  }

  /** The pieces put back together with a separator between each two of them. */
  function Interleave(pieces: seq<string>, seps: seq<char>): string
    requires |pieces| == |seps| + 1
  {
    if seps == [] then pieces[0]
    else pieces[0] + [seps[0]] + Interleave(pieces[1..], seps[1..])
  }

  /** Nothing is lost by splitting: the pieces and the separators that cut them rebuild `s`. */
  lemma {:induction false} SplitRebuilds(s: string, delims: seq<char>)
    ensures Interleave(Split(s, delims), Separators(s, delims)) == s
  {
    if s != [] {
      var rest := Split(s[1..], delims);
      var seps := Separators(s[1..], delims);
      SplitRebuilds(s[1..], delims);
      if s[0] in delims {
        RebuildSeparator(s, rest, seps);
      } else {
        RebuildOrdinary(s, rest, seps);
      }
    }
  }

  lemma RebuildSeparator(s: string, rest: seq<string>, seps: seq<char>)
    requires |s| > 0 && |rest| == |seps| + 1
    requires Interleave(rest, seps) == s[1..]
    ensures Interleave([""] + rest, [s[0]] + seps) == s
  {
    assert ([""] + rest)[1..] == rest;
    assert ([s[0]] + seps)[1..] == seps;
  }

  lemma RebuildOrdinary(s: string, rest: seq<string>, seps: seq<char>)
    requires |s| > 0 && |rest| == |seps| + 1
    requires Interleave(rest, seps) == s[1..]
    ensures Interleave([[s[0]] + rest[0]] + rest[1..], seps) == s
  {
    var c := s[0];
    InterleaveFirst(c, rest, seps);
    assert s == [c] + s[1..];
  }

  /** Prefixing the first piece prefixes the whole. */
  lemma InterleaveFirst(c: char, pieces: seq<string>, seps: seq<char>)
    requires |pieces| == |seps| + 1
    ensures Interleave([[c] + pieces[0]] + pieces[1..], seps) == [c] + Interleave(pieces, seps)
  {
    var longer := [[c] + pieces[0]] + pieces[1..];
    if seps != [] {
      assert longer[1..] == pieces[1..];
      var tail := Interleave(pieces[1..], seps[1..]);
      assert ([c] + pieces[0]) + [seps[0]] + tail == [c] + (pieces[0] + [seps[0]] + tail);
    }
  }

  /** A string without delimiters is one piece: itself. */
  lemma {:induction false} SplitWithoutSeparators(s: string, delims: seq<char>)
    requires forall m :: 0 <= m < |s| ==> s[m] !in delims
    ensures Split(s, delims) == [s]
  {
    if s != [] {
      SplitWithoutSeparators(s[1..], delims);
      assert [s[0]] + s[1..] == s;
    }
  }

  /** The first piece begins with the first character whenever that is not a delimiter. */
  lemma SplitFirstPiece(s: string, delims: seq<char>)
    requires |s| > 0 && s[0] !in delims
    ensures |Split(s, delims)[0]| > 0 && Split(s, delims)[0][0] == s[0]
  {
  }

  /** `s.TrimEnd(c)`: `s` without the run of `c` characters at its end. */
  function TrimEnd(s: string, c: char): (r: string)
    ensures r <= s
    ensures |r| == 0 || r[|r| - 1] != c
    ensures forall m :: |r| <= m < |s| ==> s[m] == c
  {
    if |s| > 0 && s[|s| - 1] == c then TrimEnd(s[..|s| - 1], c) else s
  }
}
