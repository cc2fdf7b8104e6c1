/** findFiles of src/executor/adapters/fs-search.ts: name patterns over the walk, with a result cap. */
module FindFiles {
  import opened Text
  import opened Sequences
  import opened Sorting
  import opened Discovery
  import opened DiscoveryReach

  const MAX_SEARCH_DEPTH: nat := 8
  const MAX_PATTERN_CHARS: nat := 128

  // ---- patterns ----

  function Stars(p: Str): nat {
    if p == [] then 0 else (if p[0] == STAR then 1 else 0) + Stars(p[1..])
  }

  /** The class [A-Za-z0-9._-] */
  predicate PatternUnit(u: CodeUnit) {
    IsDigit(u) || 0x41 <= u <= 0x5A || 0x61 <= u <= 0x7A || u == DOT || u == 0x5F || u == 0x2D
  }

  lemma PatternLetters(u: CodeUnit)
    ensures PatternUnit(u) <==> u in LOWER_CASE || u in UPPER_CASE || u in DIGITS || u in Ascii("._-")
  {
    LowerLetters(u);
    UpperLetters(u);
    DigitLetters(u);
    assert Ascii("._-") == [DOT, 0x5F, 0x2D];
  }

  predicate ValidPattern(p: Str) {
    && 0 < |p| <= MAX_PATTERN_CHARS
    && (p == [STAR]
        || ((forall i | 0 <= i < |p| :: PatternUnit(p[i]) || p[i] == STAR)
            && Stars(p) <= 1 && (Stars(p) == 1 ==> p[0] == STAR)))
  }

  predicate PatternMatches(p: Str, name: Str) {
    if p == [STAR] then true
    else if [STAR] <= p then |p| - 1 < |name| && name[|name| - (|p| - 1)..] == p[1..]
    else name == p
  }

  lemma {:induction false} StarFree(p: Str)
    ensures Stars(p) == 0 <==> STAR !in p
  {
    if p == [] {
    } else {
      StarFree(p[1..]);
      assert p == [p[0]] + p[1..];
    }
  }

  /** A pattern is literal but for one star at its start, which stands for at least one unit. */
  lemma PatternMeaning(p: Str, name: Str)
    ensures ValidPattern(p) <==>
              0 < |p| <= 128 && (p[0] == STAR || PatternUnit(p[0])) && forall i | 1 <= i < |p| :: PatternUnit(p[i])
    ensures |p| > 1 && p[0] == STAR ==>
              (PatternMatches(p, name) <==> exists stem: Str :: stem != [] && name == stem + p[1..])
    ensures ValidPattern(p) && p[0] != STAR ==> (PatternMatches(p, name) <==> name == p)
  {
    if p != [] {
      StarFree(p[1..]);
      StarFree(p);
      if ValidPattern(p) {
        forall i | 1 <= i < |p| ensures PatternUnit(p[i]) {
          assert p[i] == p[1..][i - 1];
        }
      }
      if (p[0] == STAR || PatternUnit(p[0])) && forall i | 1 <= i < |p| :: PatternUnit(p[i]) {
        assert STAR !in p[1..];
      }
      if |p| > 1 && p[0] == STAR && PatternMatches(p, name) {
        var stem := name[..|name| - (|p| - 1)];
        assert name == stem + p[1..];
      }
    }
  }

  // ---- the filter ----

  function LastName(path: Str): Str {
    if path == [] || path[|path| - 1] == SLASH then []
    else LastName(path[..|path| - 1]) + [path[|path| - 1]]
  }

  lemma {:induction false} LastNameUnder(path: Str, name: Str)
    requires SLASH !in name
    ensures LastName(Under(path, name)) == name
    decreases |name|
  {
    var n := |name| - 1;
    if n >= 0 {
      LastNameUnder(path, name[..n]);
      assert Under(path, name)[..|path| + 1 + n] == Under(path, name[..n]);
    }
  }

  predicate Selected(v: View, pattern: Str, f: Found) {
    v.contained(f.path) && PatternMatches(pattern, LastName(f.path))
  }

  /** An entry is selected when its path is contained and its name is the pattern, read as text with at most a leading star. */
  lemma SelectedExactly(v: View, pattern: Str, directory: Str, name: Str, depth: nat)
    requires ValidPattern(pattern) && SLASH !in name
    ensures Selected(v, pattern, Found(directory + [SLASH] + name, depth)) <==>
              && v.contained(directory + [SLASH] + name)
              && (|| pattern == Ascii("*")
                  || (pattern[0] == '*' as int && exists stem: Str :: stem != [] && name == stem + pattern[1..])
                  || (pattern[0] != '*' as int && name == pattern))
  {
    LastNameUnder(directory, name);
    assert Ascii("*") == [STAR];
    PatternMeaning(pattern, name);
    hide PatternMatches, ValidPattern, LastName;
    if |pattern| > 1 {
    } else {
      OneUnit(pattern, name);
    }
  }

  lemma OneUnit(pattern: Str, name: Str)
    requires ValidPattern(pattern) && |pattern| == 1
    ensures pattern[0] == STAR ==> PatternMatches(pattern, name) && pattern == [STAR]
  {
  }

  function Matching(v: View, pattern: Str, walked: seq<Found>): seq<Found> {
    if walked == [] then []
    else
      var last := walked[|walked| - 1];
      Matching(v, pattern, walked[..|walked| - 1]) + if Selected(v, pattern, last) then [last] else []
  }

  function Escapes(v: View, walked: seq<Found>): nat {
    if walked == [] then 0
    else Escapes(v, walked[..|walked| - 1]) + if v.contained(walked[|walked| - 1].path) then 0 else 1
  }

  /** The places of a walk that lie outside the root. */
  function Outside(v: View, walked: seq<Found>): set<int> { set i | 0 <= i < |walked| && !v.contained(walked[i].path) }

  /** The entries of the walk that are counted as pruned are those outside the root. */
  lemma {:induction false} EscapesExactly(v: View, walked: seq<Found>)
    ensures Escapes(v, walked) == |Outside(v, walked)|
  {
    if walked == [] {
      assert Outside(v, walked) == {};
    } else {
      var n := |walked| - 1;
      EscapesExactly(v, walked[..n]);
      hide Escapes;
      EscapesLast(v, walked);
      assert Outside(v, walked) == Outside(v, walked[..n]) + if v.contained(walked[n].path) then {} else {n};
    }
  }

  lemma EscapesLast(v: View, walked: seq<Found>)
    requires walked != []
    ensures Escapes(v, walked) == Escapes(v, walked[..|walked| - 1]) + if v.contained(walked[|walked| - 1].path) then 0 else 1
  {
  }

  lemma {:induction false} MatchingGrows(v: View, pattern: Str, walked: seq<Found>, k: nat)
    requires k <= |walked|
    ensures Matching(v, pattern, walked[..k]) <= Matching(v, pattern, walked)
    decreases |walked|
  {
    if k < |walked| {
      var front := walked[..|walked| - 1];
      MatchingGrows(v, pattern, front, k);
      assert front[..k] == walked[..k];
    } else {
      assert walked[..k] == walked;
    }
  }

  lemma {:induction false} MatchingCounts(v: View, pattern: Str, walked: seq<Found>, f: Found)
    ensures multiset(Matching(v, pattern, walked))[f] == if Selected(v, pattern, f) then multiset(walked)[f] else 0
  {
    hide Selected;
    if walked == [] {
    } else {
      var front, last := walked[..|walked| - 1], walked[|walked| - 1];
      MatchingCounts(v, pattern, front, f);
      assert walked == front + [last];
    }
  }

  lemma {:induction false} MatchingStrict(v: View, pattern: Str, walked: seq<Found>)
    requires StrictlySorted(walked)
    ensures StrictlySorted(Matching(v, pattern, walked))
    ensures forall f | f in Matching(v, pattern, walked) :: f in walked && Selected(v, pattern, f)
  {
    if walked == [] {
    } else {
      var front := walked[..|walked| - 1];
      MatchingStrict(v, pattern, front);
      forall f | f in Matching(v, pattern, front)
        ensures Le(f.path, walked[|walked| - 1].path) && f.path != walked[|walked| - 1].path
      {
        var k :| 0 <= k < |front| && front[k] == f;
        assert walked[k] == f;
      }
    }
  }

  datatype Findings = Findings(entries: seq<Found>, pruned: nat, truncated: bool)

  /** The cap on results was reached before the last entry of the walk, whether or not that one matches. */
  predicate CapReached(v: View, pattern: Str, walked: seq<Found>) {
    walked != [] && |Matching(v, pattern, walked[..|walked| - 1])| >= MAX_FIND_RESULTS
  }

  /**
   * findFiles. The result is the start of the filtered walk, `walked` being the sorted list of the
   * walk. Unless it says so, nothing is missing from it down to the depth of the walk; it says so
   * exactly when the walk was cut or the cap on results was reached with an entry left to look at.
   */
  method FindFiles(v: View, start: Str, listing: Listing, pattern: Str) returns (r: Option<Findings>, ghost walked: seq<Found>)
    ensures r.Some? <==> ValidPattern(pattern)
    ensures r.Some? ==>
              && |r.value.entries| <= MAX_FIND_RESULTS
              && r.value.entries == Take(Matching(v, pattern, walked), MAX_FIND_RESULTS)
              && SortedBy(walked, PathKey())
              && multiset(walked) <= Reference(v, start, listing, MAX_SEARCH_DEPTH).found
    ensures r.Some? && !CutOff(v, start, listing, MAX_SEARCH_DEPTH) ==>
              multiset(walked) == Reference(v, start, listing, MAX_SEARCH_DEPTH).found
    ensures r.Some? ==>
              (r.value.truncated <==> CutOff(v, start, listing, MAX_SEARCH_DEPTH) || CapReached(v, pattern, walked))
    ensures r.Some? && !r.value.truncated ==>
              && r.value.entries == Matching(v, pattern, walked)
              && r.value.pruned == Reference(v, start, listing, MAX_SEARCH_DEPTH).pruned + Escapes(v, walked)
  {
    hide Reference, SortedBy, Selected, CutOff;
    walked := [];
    if !ValidPattern(pattern) {
      return None, walked;
    }
    var found, visited, pruned, truncated := WalkRoot(v, start, listing, MAX_SEARCH_DEPTH);
    walked := found;
    var entries: seq<Found> := [];
    var k := 0;
    while k < |found|
      invariant k <= |found|
      invariant entries == Matching(v, pattern, found[..k]) && |entries| <= MAX_FIND_RESULTS
      invariant truncated <==> CutOff(v, start, listing, MAX_SEARCH_DEPTH)
      invariant k > 0 ==> |Matching(v, pattern, found[..k - 1])| < MAX_FIND_RESULTS
      invariant !truncated ==> pruned == Reference(v, start, listing, MAX_SEARCH_DEPTH).pruned + Escapes(v, found[..k])
    {
      MatchingGrows(v, pattern, found, k);
      if |entries| >= MAX_FIND_RESULTS {
        MatchingGrows(v, pattern, found[..|found| - 1], k);
        assert found[..|found| - 1][..k] == found[..k];
        truncated := true;
        break;
      }
      var e := found[k];
      assert found[..k + 1][..k] == found[..k] && found[..k + 1][k] == e;
      k := k + 1;
      assert found[..k - 1] == found[..k][..k - 1];
      if !v.contained(e.path) {
        pruned := pruned + 1;
        assert !Selected(v, pattern, e) by { NotSelected(v, pattern, e); }
        continue;
      }
      Chosen(v, pattern, e);
      if !PatternMatches(pattern, LastName(e.path)) {
        continue;
      }
      entries := entries + [e];
    }
    if k == |found| {
      assert found[..k] == found;
    }
    return Some(Findings(entries, pruned, truncated)), walked;
  }

  lemma NotSelected(v: View, pattern: Str, e: Found)
    requires !v.contained(e.path)
    ensures !Selected(v, pattern, e)
  {
  }

  lemma Chosen(v: View, pattern: Str, e: Found)
    requires v.contained(e.path)
    ensures Selected(v, pattern, e) <==> PatternMatches(pattern, LastName(e.path))
  {
  }

  /**
   * On directories with distinct names, a result of findFiles is strictly sorted, holds nothing
   * but contained, visible, matching entries, and holds each of them once when it is not cut.
   */
  lemma FindingsMean(v: View, start: Str, listing: Listing, pattern: Str, walked: seq<Found>, f: Found)
    requires WellFormed(listing) && SortedBy(walked, PathKey())
    requires multiset(walked) <= Reference(v, start, listing, 8).found
    ensures StrictlySorted(Take(Matching(v, pattern, walked), 200))
    ensures f in Take(Matching(v, pattern, walked), 200) ==>
              && f in Reference(v, start, listing, 8).found && Selected(v, pattern, f)
              && 1 <= f.depth <= 8 && !v.sensitive(f.path)
    ensures multiset(walked) == Reference(v, start, listing, 8).found ==>
              (f in Matching(v, pattern, walked) <==>
                f in Reference(v, start, listing, 8).found && Selected(v, pattern, f))
  {
    hide Reference, SortedBy, Selected;
    WalkIsStrict(v, start, listing, MAX_SEARCH_DEPTH, walked);
    MatchingStrict(v, pattern, walked);
    MatchingCounts(v, pattern, walked, f);
    if f in Matching(v, pattern, walked) {
      assert f in multiset(walked);
      FoundIsClear(v, start, listing, MAX_SEARCH_DEPTH, f);
    }
    assert f in Matching(v, pattern, walked) <==> f in multiset(Matching(v, pattern, walked));
  }

  /** The name a pattern is tried on is the last name of the entry's route. */
  lemma {:induction false} NameOnRoute(v: View, path: Str, depth: nat, listing: Listing, maxDepth: nat, names: seq<Str>)
    requires WellFormed(listing) && Route(v, path, depth, listing, names, maxDepth)
    ensures LastName(Target(path, names)) == names[|names| - 1]
    decreases |names|
  {
    var e :| e in listing.entries && RouteBy(v, path, depth, e, names, maxDepth);
    if |names| == 1 {
      LastNameUnder(path, e.name);
      assert Target(path, names) == Target(Under(path, e.name), []);
    } else {
      NameOnRoute(v, Under(path, e.name), depth + 1, e.listing, maxDepth, names[1..]);
    }
  }
}
