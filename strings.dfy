/** The parts of Go's `strings` package the core relies on: `Index`,
    `Contains` and `Split` with a one-byte separator. A `string` here is a
    byte string: each `char` stands for one byte, so lengths and indices count
    bytes as they do in Go. */
module Strings {

  /** `t` occurs in `s` starting at byte `i`. */
  predicate OccursAt(s: string, t: string, i: int)
  {
    0 <= i && i + |t| <= |s| && s[i..i + |t|] == t
  }

  /** `i` is the first byte at which `t` occurs in `s`. */
  predicate FirstOccurrence(s: string, t: string, i: int)
  {
    OccursAt(s, t, i) && forall j :: 0 <= j < i ==> !OccursAt(s, t, j)
  }

  /** The first occurrence of `t` in `s` at or after `k`, or -1. */
  function IndexFrom(s: string, t: string, k: nat): (r: int)
    ensures r == -1 || (k <= r && OccursAt(s, t, r))
    ensures r == -1 ==> forall i :: k <= i ==> !OccursAt(s, t, i)
    ensures r != -1 ==> forall i :: k <= i < r ==> !OccursAt(s, t, i)
    decreases |s| - k
  {
    if k + |t| > |s| then -1
    else if s[k..k + |t|] == t then k
    else IndexFrom(s, t, k + 1)
  }

  /** Go's strings.Index: the first occurrence of `t` in `s`, or -1. */
  function Index(s: string, t: string): (r: int)
    ensures r == -1 <==> forall i :: !OccursAt(s, t, i)
    ensures r != -1 ==> FirstOccurrence(s, t, r)
  {
    IndexFrom(s, t, 0)
  }

  /** Go's strings.Contains, which Go defines as Index(s, t) >= 0. */
  predicate Contains(s: string, t: string)
    ensures Contains(s, t) <==> exists i :: OccursAt(s, t, i)
  {
    Index(s, t) != -1
  }

  /** An occurrence inside the slice s[lo..hi] is an occurrence in `s` that
      ends by `hi`. */
  lemma OccursInSlice(s: string, lo: int, hi: int, t: string, j: int)
    requires 0 <= lo <= hi <= |s|
    ensures OccursAt(s[lo..hi], t, j) <==> (OccursAt(s, t, lo + j) && j >= 0 && lo + j + |t| <= hi)
  {
    if 0 <= j && j + |t| <= hi - lo {
      var w := s[lo..hi];
      assert forall k :: j <= k < j + |t| ==> w[k] == s[lo + k];
      assert w[j..j + |t|] == s[lo + j..lo + j + |t|];
    }
  }

  /** The position of the first `c` in `s`. */
  function FirstIndexOf(s: string, c: char): (i: nat)
    requires c in s
    ensures i < |s| && s[i] == c && c !in s[..i]
  {
    if s[0] == c then 0
    else
      var i := 1 + FirstIndexOf(s[1..], c);
      assert s[..i] == [s[0]] + s[1..][..i - 1];
      i
  }

  /** The parts joined back together with `sep` between consecutive parts. */
  function Join(parts: seq<string>, sep: char): string
  {
    if |parts| == 0 then ""
    else if |parts| == 1 then parts[0]
    else parts[0] + [sep] + Join(parts[1..], sep)
  }

  /** The number of bytes of `s` equal to `c`. */
  function Count(s: string, c: char): nat
  {
    if |s| == 0 then 0 else (if s[0] == c then 1 else 0) + Count(s[1..], c)
  }

  lemma {:induction false} CountAppend(a: string, b: string, c: char)
    ensures Count(a + b, c) == Count(a, c) + Count(b, c)
  {
    if |a| > 0 {
      assert (a + b)[1..] == a[1..] + b;
      CountAppend(a[1..], b, c);
    } else {
      assert a + b == b;
    }
  }

  lemma {:induction false} CountAbsent(s: string, c: char)
    requires c !in s
    ensures Count(s, c) == 0
  {
    if |s| > 0 {
      assert c !in s[1..];
      CountAbsent(s[1..], c);
    }
  }

  /** Go's strings.Split(s, sep) for a one-byte separator: the maximal pieces
      of `s` between separators, one more piece than there are separators. */
  function Split(s: string, sep: char): (parts: seq<string>)
    ensures |parts| == Count(s, sep) + 1
    ensures forall k :: 0 <= k < |parts| ==> sep !in parts[k]
    ensures Join(parts, sep) == s
    decreases |s|
  {
    if sep !in s then
      CountAbsent(s, sep);
      [s]
    else
      var i := FirstIndexOf(s, sep);
      var rest := Split(s[i + 1..], sep);
      SplitAtFirst(s, sep, i);
      var parts := [s[..i]] + rest;
      assert parts[1..] == rest;
      assert Join(parts, sep) == s[..i] + [sep] + Join(rest, sep);
      parts
  }

  /** Cutting `s` at its first separator, at byte i: the pieces around it
      give back `s`, and `s` holds one separator more than what follows. */
  lemma SplitAtFirst(s: string, sep: char, i: nat)
    requires i < |s| && s[i] == sep && sep !in s[..i]
    ensures s == s[..i] + [sep] + s[i + 1..]
    ensures Count(s, sep) == Count(s[i + 1..], sep) + 1
  {
    assert s == s[..i] + [sep] + s[i + 1..];
    CountAppend(s[..i] + [sep], s[i + 1..], sep);
    CountAppend(s[..i], [sep], sep);
    CountAbsent(s[..i], sep);
    assert Count([sep], sep) == 1 by { assert [sep][1..] == []; }
  }

  /** Splitting undoes joining, when no part holds the separator. */
  lemma {:induction false} SplitJoin(parts: seq<string>, sep: char)
    requires |parts| >= 1
    requires forall k :: 0 <= k < |parts| ==> sep !in parts[k]
    ensures Split(Join(parts, sep), sep) == parts
  {
    if |parts| == 1 {
      assert Join(parts, sep) == parts[0];
    } else {
      var s := Join(parts, sep);
      var p0 := parts[0];
      assert s == p0 + [sep] + Join(parts[1..], sep);
      assert s[|p0|] == sep;
      assert s[..|p0|] == p0;
      var i := FirstIndexOf(s, sep);
      assert i == |p0|;
      assert s[i + 1..] == Join(parts[1..], sep);
      SplitJoin(parts[1..], sep);
      assert Split(s, sep) == [p0] + parts[1..];
    }
  }
}
