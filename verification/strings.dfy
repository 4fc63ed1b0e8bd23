/** The handful of Python `str` operations the bot relies on: `strip()`,
    `split(sep)` with `sep.join`, and `split(sep)[-1]`. */
module Strings {

  /** Whitespace as Python's `str.isspace` (and so `str.strip()` with no
      argument) sees it: the ASCII controls TAB..CR and FS..US, SPACE,
      NEL, NO-BREAK SPACE and the Unicode space separators. */
  const SpaceChars: set<char> := {
    '\t', '\n', '\U{0B}', '\U{0C}', '\r', '\U{1C}', '\U{1D}', '\U{1E}', '\U{1F}', ' ',
    '\U{85}', '\U{A0}', '\U{1680}',
    '\U{2000}', '\U{2001}', '\U{2002}', '\U{2003}', '\U{2004}', '\U{2005}', '\U{2006}',
    '\U{2007}', '\U{2008}', '\U{2009}', '\U{200A}',
    '\U{2028}', '\U{2029}', '\U{202F}', '\U{205F}', '\U{3000}'
  }

  predicate IsSpace(c: char)
  {
    c in SpaceChars
  }

  /** Every character of `s[lo..hi]` is whitespace. */
  predicate SpaceBetween(s: string, lo: int, hi: int)
    requires 0 <= lo <= hi <= |s|
  {
    forall k :: lo <= k < hi ==> IsSpace(s[k])
  }

  predicate AllSpace(s: string)
  {
    SpaceBetween(s, 0, |s|)
  }

  /** No whitespace at either end (the empty string included). */
  predicate IsTrimmed(s: string)
  {
    s == [] || (!IsSpace(s[0]) && !IsSpace(s[|s| - 1]))
  }

  /** `r` is `s[i..i + |r|]`, and only whitespace surrounds it in `s`. */
  predicate StrippedAt(s: string, r: string, i: int)
  {
    0 <= i <= |s| - |r| && s[i..i + |r|] == r
    && SpaceBetween(s, 0, i) && SpaceBetween(s, i + |r|, |s|)
  }

  /** `r` is `s` with a run of whitespace removed from each end. */
  ghost predicate StrippedFrom(s: string, r: string)
  {
    exists i :: StrippedAt(s, r, i)
  }

  /** `s.lstrip()`: the longest suffix of `s` that does not start with whitespace. */
  function TrimLeft(s: string): (r: string)
    ensures |r| <= |s| && r == s[|s| - |r|..]
    ensures SpaceBetween(s, 0, |s| - |r|)
    ensures r == [] || !IsSpace(r[0])
  {
    if |s| > 0 && IsSpace(s[0]) then
      var r := TrimLeft(s[1..]);
      assert forall k :: 0 < k < |s| ==> s[k] == s[1..][k - 1];
      r
    else
      s
  }

  /** `s.rstrip()`: the longest prefix of `s` that does not end with whitespace. */
  function TrimRight(s: string): (r: string)
    ensures |r| <= |s| && r == s[..|r|]
    ensures SpaceBetween(s, |r|, |s|)
    ensures r == [] || !IsSpace(r[|r| - 1])
  {
    if |s| > 0 && IsSpace(s[|s| - 1]) then TrimRight(s[..|s| - 1]) else s
  }

  /** `s.strip()`: whitespace removed from both ends, nothing else touched. */
  function Strip(s: string): (r: string)
    ensures IsTrimmed(r)
    ensures StrippedFrom(s, r)
    ensures r == [] <==> AllSpace(s)
  {
    var t := TrimRight(s);
    var r := TrimLeft(t);
    TrimBothEnds(s, t, r);
    r
  }

  /** The facts `Strip` promises, from those `TrimRight` and `TrimLeft` give. */
  lemma TrimBothEnds(s: string, t: string, r: string)
    requires |t| <= |s| && t == s[..|t|] && SpaceBetween(s, |t|, |s|)
    requires |r| <= |t| && r == t[|t| - |r|..] && SpaceBetween(t, 0, |t| - |r|)
    requires t == [] || !IsSpace(t[|t| - 1])
    requires r == [] || !IsSpace(r[0])
    ensures IsTrimmed(r)
    ensures StrippedFrom(s, r)
    ensures r == [] <==> AllSpace(s)
  {
    var i := |t| - |r|;
    assert r == [] || r[|r| - 1] == t[|t| - 1];
    assert s[i..i + |r|] == r;
    assert forall k :: 0 <= k < |t| ==> s[k] == t[k];
    assert SpaceBetween(s, 0, i);
    assert StrippedAt(s, r, i);
    if r != [] {
      assert s[i] == r[0];
    }
  }

  /** Right-trimming a string whose last non-space is `s[j - 1]`. */
  lemma TrimRightAt(s: string, j: nat)
    requires 0 < j <= |s| && !IsSpace(s[j - 1]) && SpaceBetween(s, j, |s|)
    ensures TrimRight(s) == s[..j]
  {
    var t := TrimRight(s);
    assert |t| >= j;
    assert |t| == 0 || s[|t| - 1] == t[|t| - 1];
  }

  /** Left-trimming a string whose first non-space is `t[i]`. */
  lemma TrimLeftAt(t: string, i: nat)
    requires i < |t| && !IsSpace(t[i]) && SpaceBetween(t, 0, i)
    ensures TrimLeft(t) == t[i..]
  {
    var l := TrimLeft(t);
    var k := |t| - |l|;
    assert k <= i;
    assert k == |t| || t[k] == l[0];
  }

  /** Stripping a string whose first and last non-space characters are
      `s[i]` and `s[j - 1]` (or that is all whitespace, when `i == j`). */
  lemma StripAt(s: string, i: nat, j: nat)
    requires i <= j <= |s|
    requires i < j ==> !IsSpace(s[i]) && !IsSpace(s[j - 1])
    requires SpaceBetween(s, 0, i) && SpaceBetween(s, j, |s|)
    ensures Strip(s) == s[i..j]
  {
    if i == j {
      assert AllSpace(s);
    } else {
      TrimRightAt(s, j);
      var t := s[..j];
      assert forall k :: 0 <= k < j ==> t[k] == s[k];
      TrimLeftAt(t, i);
    }
  }

  /** Stripping is characterised by `IsTrimmed` and `StrippedFrom`: any
      trimmed `r` cut out of `s` by removing whitespace runs is `Strip(s)`. */
  lemma StripUnique(s: string, r: string)
    requires IsTrimmed(r) && StrippedFrom(s, r)
    ensures r == Strip(s)
  {
    var i :| StrippedAt(s, r, i);
    assert r != [] ==> s[i] == r[0] && s[i + |r| - 1] == r[|r| - 1];
    StripAt(s, i, i + |r|);
  }

  /** `s.strip().strip() == s.strip()`. */
  lemma StripIdempotent(s: string)
    ensures Strip(Strip(s)) == Strip(s)
  {
    StripTrimmed(Strip(s));
  }

  /** A string without whitespace at either end is its own `strip()`. */
  lemma StripTrimmed(r: string)
    requires IsTrimmed(r)
    ensures Strip(r) == r
  {
    StripAt(r, 0, |r|);
    assert r[0..|r|] == r;
  }

  /** No occurrence of `c` in `s`. */
  predicate Lacks(s: string, c: char)
  {
    forall k :: 0 <= k < |s| ==> s[k] != c
  }

  /** Index of the first `sep` at or after `from`, or `|s|` when there is none. */
  function NextSep(s: string, sep: char, from: nat): (i: nat)
    requires from <= |s|
    ensures from <= i <= |s|
    ensures i < |s| ==> s[i] == sep
    ensures forall k :: from <= k < i ==> s[k] != sep
    decreases |s| - from
  {
    if from == |s| || s[from] == sep then from else NextSep(s, sep, from + 1)
  }

  /** The pieces of `s[from..]` between occurrences of `sep`. */
  function SplitFrom(s: string, sep: char, from: nat): (parts: seq<string>)
    requires from <= |s|
    ensures |parts| >= 1
    ensures forall k :: 0 <= k < |parts| ==> Lacks(parts[k], sep)
    decreases |s| - from
  {
    var i := NextSep(s, sep, from);
    if i == |s| then
      assert forall k :: 0 <= k < |s| - from ==> s[from..][k] == s[from + k];
      [s[from..]]
    else
      var rest := SplitFrom(s, sep, i + 1);
      assert forall k :: 0 <= k < i - from ==> s[from..i][k] == s[from + k];
      assert forall k :: 1 <= k < |rest| + 1 ==> ([s[from..i]] + rest)[k] == rest[k - 1];
      [s[from..i]] + rest
  }

  /** `s.split(sep)` for a one-character separator: the pieces of `s`
      between occurrences of `sep`, empty pieces included. No piece holds
      `sep`, and joining them with `sep` gives `s` back (`JoinSplit`);
      `SplitJoin` shows these two facts determine the pieces. */
  function Split(s: string, sep: char): (parts: seq<string>)
    ensures |parts| >= 1
    ensures forall k :: 0 <= k < |parts| ==> Lacks(parts[k], sep)
  {
    SplitFrom(s, sep, 0)
  }

  /** `sep.join(parts)`. */
  function Join(parts: seq<string>, sep: char): string
  {
    if |parts| == 0 then ""
    else if |parts| == 1 then parts[0]
    else parts[0] + [sep] + Join(parts[1..], sep)
  }

  /** `s[from..]` is `s[from..i]`, then `s[i]`, then `s[i + 1..]`. */
  lemma SliceAround(s: string, from: nat, i: nat)
    requires from <= i < |s|
    ensures s[from..] == s[from..i] + [s[i]] + s[i + 1..]
  {
    assert s[from..] == s[from..i] + s[i..];
    assert s[i..] == [s[i]] + s[i + 1..];
  }

  lemma JoinCons(first: string, rest: seq<string>, sep: char)
    requires |rest| >= 1
    ensures Join([first] + rest, sep) == first + [sep] + Join(rest, sep)
  {
    assert ([first] + rest)[1..] == rest;
  }

  lemma {:induction false} JoinSplitFrom(s: string, sep: char, from: nat)
    requires from <= |s|
    ensures Join(SplitFrom(s, sep, from), sep) == s[from..]
    decreases |s| - from
  {
    var i := NextSep(s, sep, from);
    if i < |s| {
      var rest := SplitFrom(s, sep, i + 1);
      assert SplitFrom(s, sep, from) == [s[from..i]] + rest;
      JoinCons(s[from..i], rest, sep);
      JoinSplitFrom(s, sep, i + 1);
      SliceAround(s, from, i);
    }
  }

  /** Joining the pieces of a split with the same separator gives the input back. */
  lemma JoinSplit(s: string, sep: char)
    ensures Join(Split(s, sep), sep) == s
  {
    JoinSplitFrom(s, sep, 0);
  }

  /** `NextSep` finds the first separator at or after `from`. */
  lemma {:induction false} NextSepAt(s: string, sep: char, from: nat, i: nat)
    requires from <= i <= |s|
    requires forall k :: from <= k < i ==> s[k] != sep
    requires i < |s| ==> s[i] == sep
    ensures NextSep(s, sep, from) == i
    decreases i - from
  {
    if from < i {
      NextSepAt(s, sep, from + 1, i);
    }
  }

  /** Reading `s[from..] == p + [sep] + tail` back as slices of `s`. */
  lemma SlicesOfCons(s: string, from: nat, p: string, sep: char, tail: string)
    requires from <= |s| && s[from..] == p + [sep] + tail
    ensures from + |p| < |s| && s[from..from + |p|] == p && s[from + |p|] == sep
    ensures s[from + |p| + 1..] == tail
  {
    var t := s[from..];
    assert t[..|p|] == p && t[|p|] == sep && t[|p| + 1..] == tail;
    assert s[from..from + |p|] == t[..|p|];
    assert s[from + |p| + 1..] == t[|p| + 1..];
  }

  lemma {:induction false} SplitJoinFrom(s: string, sep: char, from: nat, parts: seq<string>)
    requires from <= |s| && |parts| >= 1
    requires forall k :: 0 <= k < |parts| ==> Lacks(parts[k], sep)
    requires s[from..] == Join(parts, sep)
    ensures SplitFrom(s, sep, from) == parts
    decreases |parts|
  {
    var p := parts[0];
    if |parts| == 1 {
      assert forall k :: from <= k < |s| ==> s[k] == s[from..][k - from];
      NextSepAt(s, sep, from, |s|);
    } else {
      var i := from + |p|;
      SlicesOfCons(s, from, p, sep, Join(parts[1..], sep));
      assert forall k :: from <= k < i ==> s[k] == s[from..i][k - from];
      NextSepAt(s, sep, from, i);
      assert forall k :: 0 <= k < |parts| - 1 ==> parts[1..][k] == parts[k + 1];
      SplitJoinFrom(s, sep, i + 1, parts[1..]);
      assert parts == [p] + parts[1..];
    }
  }

  /** Splitting a join of separator-free pieces gives the pieces back: with
      `JoinSplit`, the only separator-free pieces that join to `s` are
      `Split(s, sep)`. */
  lemma SplitJoin(parts: seq<string>, sep: char)
    requires |parts| >= 1
    requires forall k :: 0 <= k < |parts| ==> Lacks(parts[k], sep)
    ensures Split(Join(parts, sep), sep) == parts
  {
    SplitJoinFrom(Join(parts, sep), sep, 0, parts);
  }

  /** Index just after the last `sep` in `s[..n]`, or 0 when there is none. */
  function AfterLastSep(s: string, sep: char, n: nat): (i: nat)
    requires n <= |s|
    ensures i <= n
    ensures i > 0 ==> s[i - 1] == sep
    ensures forall k :: i <= k < n ==> s[k] != sep
  {
    if n == 0 || s[n - 1] == sep then n else AfterLastSep(s, sep, n - 1)
  }

  /** `r` is the part of `s` after its last `sep`: a suffix of `s` holding
      no `sep`, preceded in `s` by a `sep` or by nothing. */
  predicate IsLastSegment(r: string, s: string, sep: char)
  {
    |r| <= |s| && r == s[|s| - |r|..] && Lacks(r, sep)
    && (|r| == |s| || s[|s| - |r| - 1] == sep)
  }

  /** The piece of `s` after its last `sep`, the whole of `s` when `sep`
      does not occur. */
  function LastSegment(s: string, sep: char): (r: string)
    ensures IsLastSegment(r, s, sep)
    ensures Lacks(s, sep) ==> r == s
  {
    var i := AfterLastSep(s, sep, |s|);
    assert forall k :: 0 <= k < |s| - i ==> s[i..][k] == s[i + k];
    s[i..]
  }

  /** `IsLastSegment` determines `LastSegment`: no other string is so
      related to `s`. */
  lemma LastSegmentUnique(s: string, sep: char, r: string)
    requires IsLastSegment(r, s, sep)
    ensures r == LastSegment(s, sep)
  {
    var i := AfterLastSep(s, sep, |s|);
    var j := |s| - |r|;
    assert forall k :: j <= k < |s| ==> s[k] == r[k - j];
    assert i <= j;
    assert i >= j;
  }

  lemma {:induction false} LastPieceFrom(s: string, sep: char, from: nat)
    requires from <= |s|
    ensures var parts := SplitFrom(s, sep, from);
            var e := AfterLastSep(s, sep, |s|);
            parts[|parts| - 1] == s[if e < from then from else e..]
    decreases |s| - from
  {
    var i := NextSep(s, sep, from);
    if i < |s| {
      var rest := SplitFrom(s, sep, i + 1);
      var all := [s[from..i]] + rest;
      assert SplitFrom(s, sep, from) == all;
      assert all[|all| - 1] == rest[|rest| - 1];
      LastPieceFrom(s, sep, i + 1);
    }
  }

  /** `LastSegment` agrees with taking the last piece of `Split`. */
  lemma LastSegmentIsLastPiece(s: string, sep: char)
    ensures LastSegment(s, sep) == Split(s, sep)[|Split(s, sep)| - 1]
  {
    LastPieceFrom(s, sep, 0);
  }
}
