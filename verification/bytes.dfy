/** Byte strings as the forensic core handles them (Python `bytes`), with the
    prefix, suffix and search primitives that the signature registry and the
    carving engine are built on. The search functions are generic so that the
    same definitions serve for byte strings and for text. */
module Bytes {

  /** One octet of a disk image or of a file. */
  type Byte = b: int | 0 <= b < 256

  /** `s.startswith(p)`. */
  predicate IsPrefix<T(==)>(p: seq<T>, s: seq<T>) {
    |p| <= |s| && s[..|p|] == p
  }

  /** `s.endswith(p)`. */
  predicate IsSuffix<T(==)>(p: seq<T>, s: seq<T>) {
    |p| <= |s| && s[|s| - |p|..] == p
  }

  /** `pat` occurs in `s` at index `i`. */
  predicate OccursAt<T(==)>(pat: seq<T>, s: seq<T>, i: int) {
    0 <= i && i + |pat| <= |s| && s[i..i + |pat|] == pat
  }

  /** `s.find(pat, from)`: the least index at or after `from` where `pat`
      occurs, or -1 when there is none. */
  function FindFrom<T(==)>(s: seq<T>, pat: seq<T>, from: nat): (r: int)
    ensures r == -1 || (from <= r && OccursAt(pat, s, r))
    ensures r >= 0 ==> forall i :: from <= i < r ==> !OccursAt(pat, s, i)
    ensures r == -1 ==> forall i :: from <= i ==> !OccursAt(pat, s, i)
    decreases |s| - from
  {
    if from + |pat| > |s| then -1
    else if s[from..from + |pat|] == pat then from
    else FindFrom(s, pat, from + 1)
  }

  /** The slice `s[:n]`, with Python's meaning for a negative `n`. */
  function Take<T>(s: seq<T>, n: int): (r: seq<T>)
    ensures IsPrefix(r, s)
    ensures n >= 0 ==> |r| == if n <= |s| then n else |s|
    ensures n < 0 ==> |r| == if |s| + n >= 0 then |s| + n else 0
  {
    if n >= 0 then s[..if n <= |s| then n else |s|]
    else s[..if |s| + n >= 0 then |s| + n else 0]
  }

  /** `s.find(pat)`. */
  function Find<T(==)>(s: seq<T>, pat: seq<T>): int {
    FindFrom(s, pat, 0)
  }

  /** Searching a longer string that begins with `d` finds the same first
      occurrence as searching `d`, once `d` holds one. */
  lemma FindInExtension<T>(d: seq<T>, w: seq<T>, pat: seq<T>)
    requires IsPrefix(d, w)
    requires Find(d, pat) >= 0
    ensures Find(w, pat) == Find(d, pat)
  {
    var p := Find(d, pat);
    assert forall k :: 0 <= k < |d| ==> w[k] == d[k] by {
      assert w[..|d|] == d;
    }
    assert w[p..p + |pat|] == d[p..p + |pat|];
    assert OccursAt(pat, w, p);
    forall i | 0 <= i < p
      ensures !OccursAt(pat, w, i)
    {
      assert !OccursAt(pat, d, i);
      assert w[i..i + |pat|] == d[i..i + |pat|];
    }
  }

  /** A string with no occurrence of `pat` has none in any of its prefixes. */
  lemma FindAbsentInPrefix<T>(d: seq<T>, w: seq<T>, pat: seq<T>)
    requires IsPrefix(d, w)
    requires Find(w, pat) == -1
    ensures Find(d, pat) == -1
  {
    if Find(d, pat) >= 0 {
      FindInExtension(d, w, pat);
    }
  }

  lemma SliceOfSlice<T>(s: seq<T>, lo: nat, hi: nat, a: nat, b: nat)
    requires lo <= hi <= |s| && a <= b <= hi - lo
    ensures s[lo..hi][a..b] == s[lo + a..lo + b]
  {
    forall i | 0 <= i < b - a
      ensures s[lo..hi][a..b][i] == s[lo + a..lo + b][i]
    {
    }
  }

  /** Adjacent slices concatenate to the slice spanning both. */
  lemma SplitSlice<T>(s: seq<T>, a: nat, b: nat, c: nat)
    requires a <= b <= c <= |s|
    ensures s[a..b] + s[b..c] == s[a..c]
  {
  }

  /** Concatenation is associative. */
  lemma AppendAssoc<T>(a: seq<T>, b: seq<T>, c: seq<T>)
    ensures a + (b + c) == (a + b) + c
  {
  }

  /** Cutting a string just after the first occurrence of `pat` keeps that
      occurrence first. */
  lemma FindInPrefix<T>(d: seq<T>, w: seq<T>, pat: seq<T>)
    requires Find(w, pat) >= 0 && d == w[..Find(w, pat) + |pat|]
    ensures Find(d, pat) == Find(w, pat)
  {
    var p := Find(w, pat);
    assert d[p..p + |pat|] == w[p..p + |pat|];
    assert OccursAt(pat, d, p);
    FindInExtension(d, w, pat);
  }
}
