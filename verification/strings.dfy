/** Text helpers: splitting at a separator character and ASCII lower-casing. */
module Strings {

  /** Number of occurrences of `c` in `s`. */
  function Count(s: string, c: char): nat {
    if |s| == 0 then 0 else (if s[0] == c then 1 else 0) + Count(s[1..], c)
  }

  lemma {:induction false} CountAppend(a: string, b: string, c: char)
    ensures Count(a + b, c) == Count(a, c) + Count(b, c)
    decreases |a|
  {
    if |a| == 0 {
      assert a + b == b;
    } else {
      assert (a + b)[1..] == a[1..] + b;
      CountAppend(a[1..], b, c);
    }
  }

  lemma {:induction false} CountAbsent(s: string, c: char)
    requires c !in s
    ensures Count(s, c) == 0
    decreases |s|
  {
    if |s| > 0 {
      assert c !in s[1..];
      CountAbsent(s[1..], c);
    }
  }

  /** `s.find(c, from)`: the first position at or after `from` holding
      `c`, or -1 for `npos`. */
  function FindFrom(s: string, c: char, from: nat): (r: int)
    requires from <= |s|
    ensures r == -1 || from <= r < |s|
    ensures r == -1 ==> c !in s[from..]
    ensures r >= 0 ==> s[r] == c && c !in s[from..r]
    decreases |s| - from
  {
    if from == |s| then -1
    else if s[from] == c then from
    else
      var r := FindFrom(s, c, from + 1);
      assert s[from..] == [s[from]] + s[from + 1..];
      if r >= 0 then
        assert s[from..r] == [s[from]] + s[from + 1..r];
        r
      else
        r
  }

  /** Pieces joined back with the separator between them. */
  function Join(pieces: seq<string>, sep: char): string
    requires |pieces| > 0
  {
    if |pieces| == 1 then pieces[0] else pieces[0] + [sep] + Join(pieces[1..], sep)
  }

  /** The loop of `SplitString` from a given `prev_pos`: the text up to
      the next separator is one piece, and the text after the last
      separator is the final piece (which is empty when the string ends
      with a separator). There is one piece more than there are
      separators, no piece holds a separator, and joining the pieces with
      the separator gives the text back. */
  function SplitFrom(s: string, sep: char, prev: nat): (r: seq<string>)
    requires prev <= |s|
    ensures |r| == Count(s[prev..], sep) + 1
    ensures forall k :: 0 <= k < |r| ==> sep !in r[k]
    ensures Join(r, sep) == s[prev..]
    decreases |s| - prev
  {
    var pos := FindFrom(s, sep, prev);
    if pos < 0 then
      CountAbsent(s[prev..], sep);
      [s[prev..]]
    else
      var rest := SplitFrom(s, sep, pos + 1);
      SplitStep(s, sep, prev, pos, rest);
      [s[prev..pos]] + rest
  }

  lemma SplitStep(s: string, sep: char, prev: nat, pos: nat, rest: seq<string>)
    requires prev <= pos < |s| && s[pos] == sep && sep !in s[prev..pos]
    requires |rest| == Count(s[pos + 1..], sep) + 1
    requires Join(rest, sep) == s[pos + 1..]
    ensures |[s[prev..pos]] + rest| == Count(s[prev..], sep) + 1
    ensures Join([s[prev..pos]] + rest, sep) == s[prev..]
  {
    var all := [s[prev..pos]] + rest;
    assert all[1..] == rest;
    assert s[prev..] == s[prev..pos] + [sep] + s[pos + 1..];
    CountAbsent(s[prev..pos], sep);
    CountAppend(s[prev..pos] + [sep], s[pos + 1..], sep);
    CountAppend(s[prev..pos], [sep], sep);
    assert Count([sep], sep) == 1 by {
      assert [sep][1..] == [];
    }
  }

  /** `SplitString`: the pieces of `s` between occurrences of `separator`. */
  function SplitString(s: string, separator: char): (r: seq<string>)
    ensures |r| == Count(s, separator) + 1
    ensures forall k :: 0 <= k < |r| ==> separator !in r[k]
    ensures Join(r, separator) == s
  {
    assert s[0..] == s;
    SplitFrom(s, separator, 0)
  }

  /** Splitting is the inverse of joining: pieces free of the separator,
      joined and split again, come back unchanged. With the contract of
      `SplitString`, splitting and joining are inverse bijections between
      strings and non-empty separator-free piece lists. */
  lemma SplitJoin(pieces: seq<string>, sep: char)
    requires |pieces| > 0
    requires forall k :: 0 <= k < |pieces| ==> sep !in pieces[k]
    ensures SplitString(Join(pieces, sep), sep) == pieces
  {
    var s := Join(pieces, sep);
    assert s[0..] == s;
    SplitFromJoin(s, sep, 0, pieces);
  }

  lemma {:induction false} SplitFromJoin(s: string, sep: char, start: nat, pieces: seq<string>)
    requires start <= |s| && |pieces| > 0
    requires forall k :: 0 <= k < |pieces| ==> sep !in pieces[k]
    requires s[start..] == Join(pieces, sep)
    ensures SplitFrom(s, sep, start) == pieces
    decreases |pieces|
  {
    var p := pieces[0];
    if |pieces| == 1 {
      SplitFromLast(s, sep, start);
    } else {
      var pos := start + |p|;
      JoinParts(s, sep, start, pieces);
      SplitFromJoin(s, sep, pos + 1, pieces[1..]);
      SplitFromAt(s, sep, start, pos);
      assert pieces == [p] + pieces[1..];
    }
  }

  /** Text starting with a piece and the separator is split there. */
  lemma JoinParts(s: string, sep: char, start: nat, pieces: seq<string>)
    requires start <= |s| && |pieces| > 1 && sep !in pieces[0]
    requires s[start..] == Join(pieces, sep)
    ensures start + |pieces[0]| < |s|
    ensures s[start..start + |pieces[0]|] == pieces[0] && s[start + |pieces[0]|] == sep
    ensures s[start + |pieces[0]| + 1..] == Join(pieces[1..], sep)
  {
    var p, t := pieces[0], Join(pieces[1..], sep);
    assert s[start..] == p + [sep] + t;
    assert s[start..][..|p|] == p;
    assert s[start..][|p|] == sep;
    assert s[start..][|p| + 1..] == t;
  }

  lemma SplitFromLast(s: string, sep: char, start: nat)
    requires start <= |s| && sep !in s[start..]
    ensures SplitFrom(s, sep, start) == [s[start..]]
  {
  }

  lemma SplitFromAt(s: string, sep: char, start: nat, pos: nat)
    requires start <= pos < |s| && s[pos] == sep && sep !in s[start..pos]
    ensures SplitFrom(s, sep, start) == [s[start..pos]] + SplitFrom(s, sep, pos + 1)
  {
    FindAt(s, sep, start, pos);
    SplitFromUnfold(s, sep, start);
  }

  lemma SplitFromUnfold(s: string, sep: char, start: nat)
    requires start <= |s|
    ensures var pos := FindFrom(s, sep, start);
            pos >= 0 ==> SplitFrom(s, sep, start) == [s[start..pos]] + SplitFrom(s, sep, pos + 1)
  {
  }

  lemma {:induction false} FindAt(s: string, sep: char, start: nat, pos: nat)
    requires start <= pos < |s| && s[pos] == sep && sep !in s[start..pos]
    ensures FindFrom(s, sep, start) == pos
    decreases pos - start
  {
    if start < pos {
      assert s[start] == s[start..pos][0];
      assert sep !in s[start + 1..pos];
      FindAt(s, sep, start + 1, pos);
    }
  }

  /** ASCII lower-casing of one character: `A`..`Z` become `a`..`z`,
      everything else is kept. The locale of the source is not modelled. */
  function ToLowerChar(c: char): (r: char)
    ensures 'A' <= c <= 'Z' ==> 'a' <= r <= 'z' && r as int - c as int == 'a' as int - 'A' as int
    ensures !('A' <= c <= 'Z') ==> r == c
  {
    if 'A' <= c <= 'Z' then (c as int - 'A' as int + 'a' as int) as char else c
  }

  /** `ToLower`: every character lower-cased, positions kept. */
  function ToLower(s: string): (r: string)
    ensures |r| == |s|
    ensures forall k :: 0 <= k < |s| ==> r[k] == ToLowerChar(s[k])
    ensures forall k :: 0 <= k < |r| ==> !('A' <= r[k] <= 'Z')
  {
    seq(|s|, k requires 0 <= k < |s| => ToLowerChar(s[k]))
  }

  /** Lower-casing twice is lower-casing once. */
  lemma ToLowerIdempotent(s: string)
    ensures ToLower(ToLower(s)) == ToLower(s)
  {
    var once := ToLower(s);
    forall k | 0 <= k < |once|
      ensures ToLower(once)[k] == once[k]
    {
      assert !('A' <= once[k] <= 'Z');
    }
  }

  /** Text without upper-case letters is left as it is. */
  lemma ToLowerKeepsLowerCase(s: string)
    requires forall k :: 0 <= k < |s| ==> !('A' <= s[k] <= 'Z')
    ensures ToLower(s) == s
  {
  }
}
