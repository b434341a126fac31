/** Case bookkeeping (core/case_manager.py): turning a case name into a
    directory name, and the recent-cases list kept in a JSON file, read
    back without duplicate paths and updated by moving a case to the front
    of a list of at most ten. */
module CaseManager {
  import opened Wrappers
  import opened Bytes
  import opened Text

  // Sanitising case names

  /** The characters a case name keeps before spaces are replaced. */
  predicate KeptChar(c: char) {
    IsAlnum(c) || c == ' ' || c == '.' || c == '_'
  }

  /** The characters a directory name may contain. */
  predicate SafeChar(c: char) {
    IsAlnum(c) || c == '.' || c == '_'
  }

  function KeepChars(s: string): (r: string)
    ensures |r| <= |s|
    ensures forall c :: c in r <==> c in s && KeptChar(c)
  {
    if s == [] then []
    else
      assert forall c :: c in s <==> c == s[0] || c in s[1..];
      (if KeptChar(s[0]) then [s[0]] else []) + KeepChars(s[1..])
  }

  /** Filtering keeps the order of the name: it distributes over
      concatenation. */
  lemma {:induction false} KeepCharsAppend(a: string, b: string)
    ensures KeepChars(a + b) == KeepChars(a) + KeepChars(b)
  {
    if a == [] {
      assert a + b == b;
    } else {
      var head := if KeptChar(a[0]) then [a[0]] else [];
      var x, y := KeepChars(a[1..]), KeepChars(b);
      assert (a + b)[0] == a[0];
      assert (a + b)[1..] == a[1..] + b;
      assert KeepChars(a + b) == head + KeepChars(a[1..] + b);
      KeepCharsAppend(a[1..], b);
      assert head + (x + y) == (head + x) + y;
    }
  }

  /** `s.replace(' ', '_')`. */
  function SpacesToUnderscores(s: string): (r: string)
    ensures |r| == |s|
    ensures forall i :: 0 <= i < |s| ==> r[i] == (if s[i] == ' ' then '_' else s[i])
  {
    seq(|s|, i requires 0 <= i < |s| => if s[i] == ' ' then '_' else s[i])
  }

  /** `_sanitize_case_name`: keep letters, digits, spaces, dots and
      underscores, strip trailing spaces, then turn spaces into
      underscores. */
  function SanitizeCaseName(name: string): (r: string)
    ensures |r| <= |name|
    ensures forall i :: 0 <= i < |r| ==> SafeChar(r[i])
    ensures forall c :: c in r && c != '_' ==> c in name
  {
    var kept := KeepChars(name);
    var stripped := RStrip(kept, ' ');
    assert forall i :: 0 <= i < |stripped| ==> stripped[i] in kept;
    SpacesToUnderscores(stripped)
  }

  /** A name made only of safe characters is left as it is, and only such
      a name is. */
  lemma SanitizeFixedPoint(name: string)
    ensures SanitizeCaseName(name) == name <==> forall i :: 0 <= i < |name| ==> SafeChar(name[i])
  {
    if forall i :: 0 <= i < |name| ==> SafeChar(name[i]) {
      KeepSafe(name);
      assert ' ' !in name;
      assert RStrip(name, ' ') == name;
      assert SpacesToUnderscores(name) == name;
    }
  }

  lemma {:induction false} KeepSafe(s: string)
    requires forall i :: 0 <= i < |s| ==> SafeChar(s[i])
    ensures KeepChars(s) == s
  {
    if s != [] {
      KeepSafe(s[1..]);
    }
  }

  /** Sanitising twice is sanitising once. */
  lemma SanitizeIdempotent(name: string)
    ensures SanitizeCaseName(SanitizeCaseName(name)) == SanitizeCaseName(name)
  {
    SanitizeFixedPoint(SanitizeCaseName(name));
  }

  /** Trailing spaces never turn into trailing underscores: a name without
      underscores sanitises to one that does not end with one. */
  lemma NoTrailingUnderscore(name: string)
    requires '_' !in name
    ensures var r := SanitizeCaseName(name); r == [] || r[|r| - 1] != '_'
  {
    var kept := KeepChars(name);
    var stripped := RStrip(kept, ' ');
    if stripped != [] {
      assert stripped[|stripped| - 1] in kept;
    }
  }

  // The recent-cases list

  /** One entry of the recent-cases file; `timestamp` is the ISO text the
      clock gave when the case was added. */
  datatype RecentCase = RecentCase(name: string, path: string, timestamp: string)

  const MAX_RECENT: nat := 10

  function Paths(s: seq<RecentCase>): (r: set<string>)
    ensures forall p :: p in r <==> exists i :: 0 <= i < |s| && s[i].path == p
  {
    set i | 0 <= i < |s| :: s[i].path
  }

  predicate DistinctPaths(s: seq<RecentCase>) {
    forall i, j :: 0 <= i < j < |s| ==> s[i].path != s[j].path
  }

  /** Reference definition of the de-duplicated list: an entry is kept
      exactly when no earlier entry has its path. */
  function FirstOccurrences(s: seq<RecentCase>): seq<RecentCase> {
    if s == [] then []
    else
      var init := s[..|s| - 1];
      if s[|s| - 1].path in Paths(init) then FirstOccurrences(init)
      else FirstOccurrences(init) + [s[|s| - 1]]
  }

  /** Whether position `k` of `s` holds the first entry with its path. */
  predicate IsFirst(s: seq<RecentCase>, k: int)
    requires 0 <= k < |s|
  {
    forall j :: 0 <= j < k ==> s[j].path != s[k].path
  }

  /** The positions `FirstOccurrences` keeps. */
  function FirstPositions(s: seq<RecentCase>): seq<nat> {
    if s == [] then []
    else
      var init := s[..|s| - 1];
      if s[|s| - 1].path in Paths(init) then FirstPositions(init)
      else FirstPositions(init) + [|s| - 1]
  }

  lemma PathsAppend(a: seq<RecentCase>, b: seq<RecentCase>)
    ensures Paths(a + b) == Paths(a) + Paths(b)
  {
    forall p | p in Paths(a + b) ensures p in Paths(a) + Paths(b) {
      var i :| 0 <= i < |a + b| && (a + b)[i].path == p;
      if i >= |a| {
        assert b[i - |a|].path == p;
      }
    }
    forall p | p in Paths(a) + Paths(b) ensures p in Paths(a + b) {
      if p in Paths(a) {
        var i :| 0 <= i < |a| && a[i].path == p;
        assert (a + b)[i].path == p;
      } else {
        var i :| 0 <= i < |b| && b[i].path == p;
        assert (a + b)[|a| + i].path == p;
      }
    }
  }

  lemma {:induction false} FirstOccurrencesPaths(s: seq<RecentCase>)
    ensures DistinctPaths(FirstOccurrences(s))
    ensures Paths(FirstOccurrences(s)) == Paths(s)
  {
    if s != [] {
      var init := s[..|s| - 1];
      var last := s[|s| - 1];
      FirstOccurrencesPaths(init);
      assert s == init + [last];
      PathsAppend(init, [last]);
      var r := FirstOccurrences(init);
      if last.path !in Paths(init) {
        PathsAppend(r, [last]);
        forall i | 0 <= i < |r| ensures r[i].path != last.path {
          assert r[i].path in Paths(r);
        }
      }
    }
  }

  /** The de-duplicated list is the entries of `s` at increasing positions,
      each the first with its path. */
  lemma {:induction false} FirstPositionsSound(s: seq<RecentCase>)
    ensures var idx := FirstPositions(s);
      && |idx| == |FirstOccurrences(s)|
      && (forall i :: 0 <= i < |idx| ==> idx[i] < |s| && IsFirst(s, idx[i]) && FirstOccurrences(s)[i] == s[idx[i]])
      && (forall i, j :: 0 <= i < j < |idx| ==> idx[i] < idx[j])
  {
    if s != [] {
      var init := s[..|s| - 1];
      var last := s[|s| - 1];
      FirstPositionsSound(init);
      var idx := FirstPositions(init);
      forall i | 0 <= i < |idx| ensures IsFirst(s, idx[i]) && s[idx[i]] == init[idx[i]] {
        assert IsFirst(init, idx[i]);
      }
      if last.path !in Paths(init) {
        assert IsFirst(s, |s| - 1);
      }
    }
  }

  /** Every first occurrence is kept. */
  lemma {:induction false} FirstPositionsComplete(s: seq<RecentCase>, k: nat)
    requires k < |s| && IsFirst(s, k)
    ensures k in FirstPositions(s)
  {
    var init := s[..|s| - 1];
    if k < |s| - 1 {
      assert IsFirst(init, k);
      FirstPositionsComplete(init, k);
    } else {
      assert s[|s| - 1].path !in Paths(init);
    }
  }

  /** A list with distinct paths is its own de-duplication. */
  lemma {:induction false} FirstOccurrencesOfDistinct(s: seq<RecentCase>)
    requires DistinctPaths(s)
    ensures FirstOccurrences(s) == s
  {
    if s != [] {
      var init := s[..|s| - 1];
      FirstOccurrencesOfDistinct(init);
      assert s[|s| - 1].path !in Paths(init);
    }
  }

  lemma FirstOccurrencesSnoc(s: seq<RecentCase>, x: RecentCase)
    ensures FirstOccurrences(s + [x]) == if x.path in Paths(s) then FirstOccurrences(s) else FirstOccurrences(s) + [x]
  {
    assert (s + [x])[..|s + [x]| - 1] == s;
  }

  /** `get_recent_cases`: `stored` is the parsed file, None when it is
      missing or not valid JSON; a file holding other JSON is outside the
      model. */
  method GetRecentCases(stored: Option<seq<RecentCase>>) returns (unique: seq<RecentCase>)
    ensures stored.None? ==> unique == []
    ensures stored.Some? ==> unique == FirstOccurrences(stored.value)
    ensures DistinctPaths(unique)
  {
    unique := [];
    if stored.None? {
      return;
    }
    var cases := stored.value;
    var seen: set<string> := {};
    var k := 0;
    while k < |cases|
      invariant 0 <= k <= |cases|
      invariant unique == FirstOccurrences(cases[..k])
      invariant seen == Paths(cases[..k])
    {
      var c := cases[k];
      var pre := cases[..k];
      assert cases[..k + 1] == pre + [c];
      PathsAppend(pre, [c]);
      assert Paths([c]) == {c.path};
      FirstOccurrencesSnoc(pre, c);
      if c.path !in seen {
        unique := unique + [c];
        seen := seen + {c.path};
      }
      k := k + 1;
    }
    assert cases[..k] == cases;
    FirstOccurrencesPaths(cases);
  }

  /** The list without entries for `path`. */
  function Without(s: seq<RecentCase>, path: string): (r: seq<RecentCase>)
    ensures |r| <= |s|
    ensures forall c :: c in r <==> c in s && c.path != path
  {
    if s == [] then []
    else
      assert forall c :: c in s <==> c == s[0] || c in s[1..];
      (if s[0].path == path then [] else [s[0]]) + Without(s[1..], path)
  }

  /** Removing a path keeps the order of what remains: it distributes over
      concatenation. */
  lemma {:induction false} WithoutAppend(a: seq<RecentCase>, b: seq<RecentCase>, path: string)
    ensures Without(a + b, path) == Without(a, path) + Without(b, path)
  {
    if a == [] {
      assert a + b == b;
    } else {
      assert (a + b)[1..] == a[1..] + b;
      WithoutAppend(a[1..], b, path);
    }
  }

  lemma {:induction false} WithoutDistinct(s: seq<RecentCase>, path: string)
    requires DistinctPaths(s)
    ensures DistinctPaths(Without(s, path))
  {
    if s != [] {
      WithoutDistinct(s[1..], path);
      var rest := Without(s[1..], path);
      if s[0].path != path {
        forall j | 0 <= j < |rest| ensures s[0].path != rest[j].path {
          assert rest[j] in s[1..];
        }
      }
    }
  }

  function Min(a: int, b: int): int {
    if a <= b then a else b
  }

  /** `_add_to_recent_cases`: the stored list, de-duplicated, without the
      case's path, behind the new entry, cut to ten; the result is what
      the file holds afterwards. */
  function AddToRecentCases(stored: Option<seq<RecentCase>>, name: string, path: string, timestamp: string): (r: seq<RecentCase>)
    ensures 1 <= |r| <= MAX_RECENT
    ensures r[0] == RecentCase(name, path, timestamp)
    ensures forall i :: 1 <= i < |r| ==> r[i].path != path
    ensures stored.None? ==> r == [RecentCase(name, path, timestamp)]
  {
    var recent := if stored.None? then [] else FirstOccurrences(stored.value);
    var others := Without(recent, path);
    ([RecentCase(name, path, timestamp)] + others)[..Min(MAX_RECENT, 1 + |others|)]
  }

  /** The entries after the new one are the first ones of the
      de-duplicated list without the case's path, in the same order. */
  lemma AddToRecentCasesKeepsOthers(stored: Option<seq<RecentCase>>, name: string, path: string, timestamp: string)
    ensures var r := AddToRecentCases(stored, name, path, timestamp);
      var recent := if stored.None? then [] else FirstOccurrences(stored.value);
      |r| == Min(MAX_RECENT, 1 + |Without(recent, path)|) &&
      IsPrefix(r[1..], Without(recent, path))
  {
    var recent := if stored.None? then [] else FirstOccurrences(stored.value);
    var others := Without(recent, path);
    var all := [RecentCase(name, path, timestamp)] + others;
    var r := all[..Min(MAX_RECENT, 1 + |others|)];
    assert r == AddToRecentCases(stored, name, path, timestamp);
    assert r[1..] == others[..|r| - 1];
  }

  lemma ConsDistinct(x: RecentCase, s: seq<RecentCase>)
    requires DistinctPaths(s) && forall i :: 0 <= i < |s| ==> s[i].path != x.path
    ensures DistinctPaths([x] + s)
  {
    var r := [x] + s;
    forall i, j | 0 <= i < j < |r| ensures r[i].path != r[j].path {
      assert r[j] == s[j - 1];
      if i > 0 {
        assert r[i] == s[i - 1];
      }
    }
  }

  /** The updated list has no duplicate path and so reads back unchanged. */
  lemma AddToRecentCasesDistinct(stored: Option<seq<RecentCase>>, name: string, path: string, timestamp: string)
    ensures var r := AddToRecentCases(stored, name, path, timestamp);
      DistinctPaths(r) && FirstOccurrences(r) == r
  {
    var recent := if stored.None? then [] else FirstOccurrences(stored.value);
    if stored.Some? {
      FirstOccurrencesPaths(stored.value);
    }
    var others := Without(recent, path);
    WithoutDistinct(recent, path);
    var newest := RecentCase(name, path, timestamp);
    assert forall i :: 0 <= i < |others| ==> others[i] in others;
    ConsDistinct(newest, others);
    var all := [newest] + others;
    var r := all[..Min(MAX_RECENT, 1 + |others|)];
    assert r == AddToRecentCases(stored, name, path, timestamp);
    assert DistinctPaths(r) by {
      forall i, j | 0 <= i < j < |r| ensures r[i].path != r[j].path {
        assert r[i] == all[i] && r[j] == all[j];
      }
    }
    FirstOccurrencesOfDistinct(r);
  }
}
