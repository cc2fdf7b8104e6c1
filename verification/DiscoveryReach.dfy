/** What the walk reaches, route by route, and the results cut from it by findFiles. */
module DiscoveryReach {
  import opened Text
  import opened Sorting
  import opened Discovery

  // ---- routes: a second description of what is visible ----

  function Target(path: Str, names: seq<Str>): Str
    decreases |names|
  {
    if names == [] then path else Target(Under(path, names[0]), names[1..])
  }

  /**
   * A route names one entry per level. All but the last are readable directories that are not
   * sensitive, never links; the last is a file, a directory, or a link that leads to something
   * else than a directory inside the root. Only the first level is exempt from the depth limit.
   */
  predicate Route(v: View, path: Str, depth: nat, listing: Listing, names: seq<Str>, maxDepth: nat)
    decreases |names|, 1
  {
    && names != [] && listing.Children?
    && exists e | e in listing.entries :: RouteBy(v, path, depth, e, names, maxDepth)
  }

  predicate RouteBy(v: View, path: Str, depth: nat, e: Entry, names: seq<Str>, maxDepth: nat)
    requires names != []
    decreases |names|, 0
  {
    && e.name == names[0] && !v.sensitive(Under(path, e.name))
    && if |names| == 1 then
         match e case Plain(_, _) => true case Dir(_, _) => true case Link(_, target) => target == ToLeaf
       else e.Dir? && depth + 1 < maxDepth && Route(v, Under(path, e.name), depth + 1, e.listing, names[1..], maxDepth)
  }

  lemma {:induction false} FoundHasRoute(v: View, path: Str, depth: nat, listing: Listing, maxDepth: nat, f: Found)
    returns (names: seq<Str>)
    requires f in ListingTally(v, path, depth, listing, maxDepth).found
    ensures Route(v, path, depth, listing, names, maxDepth) && f == Found(Target(path, names), depth + |names|)
    decreases listing
  {
    var e := EntryOf(v, path, depth, listing.entries, maxDepth, f);
    var full := Under(path, e.name);
    if f == Found(full, depth + 1) {
      names := [e.name];
      assert Target(path, names) == Target(full, []);
    } else {
      assert f in ListingTally(v, full, depth + 1, e.listing, maxDepth).found;
      var below := FoundHasRoute(v, full, depth + 1, e.listing, maxDepth, f);
      names := [e.name] + below;
      assert names[1..] == below;
    }
    assert RouteBy(v, path, depth, e, names, maxDepth);
  }

  lemma {:induction false} EntryOf(v: View, path: Str, depth: nat, es: seq<Entry>, maxDepth: nat, f: Found) returns (e: Entry)
    requires f in TallyAll(v, path, depth, es, maxDepth).found
    ensures e in es && f in EntryTally(v, path, depth, e, maxDepth).found
    decreases |es|
  {
    hide EntryTally;
    if f in EntryTally(v, path, depth, es[0], maxDepth).found {
      e := es[0];
    } else {
      e := EntryOf(v, path, depth, es[1..], maxDepth, f);
    }
  }

  lemma {:induction false} RouteIsFound(v: View, path: Str, depth: nat, listing: Listing, maxDepth: nat, names: seq<Str>)
    requires Route(v, path, depth, listing, names, maxDepth)
    ensures Found(Target(path, names), depth + |names|) in ListingTally(v, path, depth, listing, maxDepth).found
    decreases |names|
  {
    var e :| e in listing.entries && RouteBy(v, path, depth, e, names, maxDepth);
    var f := Found(Target(path, names), depth + |names|);
    if |names| == 1 {
      assert Target(path, names) == Target(Under(path, e.name), []);
    } else {
      RouteIsFound(v, Under(path, e.name), depth + 1, e.listing, maxDepth, names[1..]);
    }
    assert f in EntryTally(v, path, depth, e, maxDepth).found;
    InAll(v, path, depth, listing.entries, maxDepth, e, f);
  }

  lemma {:induction false} InAll(v: View, path: Str, depth: nat, es: seq<Entry>, maxDepth: nat, e: Entry, f: Found)
    requires e in es && f in EntryTally(v, path, depth, e, maxDepth).found
    ensures f in TallyAll(v, path, depth, es, maxDepth).found
    decreases |es|
  {
    hide EntryTally;
    if es[0] != e {
      InAll(v, path, depth, es[1..], maxDepth, e, f);
    }
  }

  /** The walk reaches exactly the targets of routes. */
  lemma FoundExactly(v: View, start: Str, listing: Listing, maxDepth: nat, f: Found)
    ensures f in Reference(v, start, listing, maxDepth).found <==>
              exists names :: Route(v, start, 0, listing, names, maxDepth) && f == Found(Target(start, names), |names|)
  {
    if f in Reference(v, start, listing, maxDepth).found {
      var names := FoundHasRoute(v, start, 0, listing, maxDepth, f);
    }
    forall names | Route(v, start, 0, listing, names, maxDepth) && f == Found(Target(start, names), |names|)
      ensures f in Reference(v, start, listing, maxDepth).found
    {
      RouteIsFound(v, start, 0, listing, maxDepth, names);
    }
  }

  /** Nothing on a route is sensitive, at any level, and no route is deeper than the limit. */
  lemma {:induction false} RouteIsClear(v: View, path: Str, depth: nat, listing: Listing, maxDepth: nat, names: seq<Str>)
    requires Route(v, path, depth, listing, names, maxDepth)
    ensures |names| == 1 || depth + |names| <= maxDepth
    ensures forall k | 1 <= k <= |names| :: !v.sensitive(Target(path, names[..k]))
    decreases |names|
  {
    var e :| e in listing.entries && RouteBy(v, path, depth, e, names, maxDepth);
    var full := Under(path, e.name);
    if |names| > 1 {
      RouteIsClear(v, full, depth + 1, e.listing, maxDepth, names[1..]);
    }
    forall k | 1 <= k <= |names| ensures !v.sensitive(Target(path, names[..k])) {
      assert names[..k][1..] == names[1..][..k - 1];
      if k == 1 {
        assert Target(path, names[..k]) == full;
      }
    }
  }

  /** So every result of the walk lies within the depth limit and is not sensitive. */
  lemma FoundIsClear(v: View, start: Str, listing: Listing, maxDepth: nat, f: Found)
    requires f in Reference(v, start, listing, maxDepth).found
    ensures 1 <= f.depth <= (if maxDepth == 0 then 1 else maxDepth) && !v.sensitive(f.path)
  {
    var names := FoundHasRoute(v, start, 0, listing, maxDepth, f);
    RouteIsClear(v, start, 0, listing, maxDepth, names);
    assert names[..|names|] == names;
  }

  // ---- paths are reached once ----

  /** Directories of a real file system: distinct names, none empty and none with a slash. */
  predicate WellFormed(listing: Listing) {
    listing.Children? ==>
      && (forall e | e in listing.entries :: e.name != [] && SLASH !in e.name && (e.Dir? ==> WellFormed(e.listing)))
      && Distinct(listing.entries)
  }

  predicate Distinct(es: seq<Entry>) { forall i, j | 0 <= i < j < |es| :: es[i].name != es[j].name }

  predicate AtOrBelow(full: Str, path: Str) { path == full || full + [SLASH] <= path }

  ghost predicate Unique(found: multiset<Found>) {
    && (forall f | f in found :: found[f] == 1)
    && (forall f, g | f in found && g in found && f.path == g.path :: f == g)
  }

  /** Where the shorter of two names ends, a longer name would have a slash. */
  lemma LongerHasSlash(path: Str, a: Str, b: Str, p: Str)
    requires AtOrBelow(Under(path, a), p) && AtOrBelow(Under(path, b), p)
    ensures |a| < |b| ==> SLASH in b
    ensures forall i | 0 <= i < |a| :: a[i] == p[|path| + 1 + i]
  {
    var n := |path| + 1;
    assert forall i | 0 <= i < |a| :: a[i] == Under(path, a)[n + i];
    if |a| < |b| {
      assert b[|a|] == Under(path, b)[n + |a|] == p[n + |a|] == SLASH;
    }
  }

  lemma SameName(path: Str, a: Str, b: Str, p: Str)
    requires SLASH !in a && SLASH !in b
    requires AtOrBelow(Under(path, a), p) && AtOrBelow(Under(path, b), p)
    ensures a == b
  {
    LongerHasSlash(path, a, b, p);
    LongerHasSlash(path, b, a, p);
  }

  lemma NothingUnique()
    ensures Unique(multiset{})
  {
  }

  lemma {:induction false} ReachedOnce(v: View, path: Str, depth: nat, listing: Listing, maxDepth: nat)
    requires WellFormed(listing)
    ensures Unique(ListingTally(v, path, depth, listing, maxDepth).found)
    ensures forall f | f in ListingTally(v, path, depth, listing, maxDepth).found :: path + [SLASH] <= f.path
    decreases listing, 1
  {
    hide Unique, EntryTally, TallyAll, Distinct;
    NothingUnique();
    if listing.Children? {
      ReachedOnceAll(v, path, depth, listing, listing.entries, maxDepth);
      forall f | f in ListingTally(v, path, depth, listing, maxDepth).found ensures path + [SLASH] <= f.path {
        var e := EntryOf(v, path, depth, listing.entries, maxDepth, f);
        EntryOnce(v, path, depth, e, maxDepth);
        assert path + [SLASH] <= Under(path, e.name) <= f.path;
      }
    }
  }

  lemma {:induction false} EntryOnce(v: View, path: Str, depth: nat, e: Entry, maxDepth: nat)
    requires e.Dir? ==> WellFormed(e.listing)
    ensures Unique(EntryTally(v, path, depth, e, maxDepth).found)
    ensures forall f | f in EntryTally(v, path, depth, e, maxDepth).found :: AtOrBelow(Under(path, e.name), f.path)
    decreases e, 0
  {
    if e.Dir? && depth + 1 < maxDepth && !v.sensitive(Under(path, e.name)) {
      var full := Under(path, e.name);
      ReachedOnce(v, full, depth + 1, e.listing, maxDepth);
      assert !(full + [SLASH] <= full);
    }
  }

  lemma {:induction false} ReachedOnceAll(v: View, path: Str, depth: nat, whole: Listing, es: seq<Entry>, maxDepth: nat)
    requires whole.Children? && WellFormed(whole) && Distinct(es) && forall e | e in es :: e in whole.entries
    ensures Unique(TallyAll(v, path, depth, es, maxDepth).found)
    decreases whole, 0, |es|
  {
    hide EntryTally, AtOrBelow, Distinct, Under;
    if es == [] {
    } else {
      var here, rest := EntryTally(v, path, depth, es[0], maxDepth).found, TallyAll(v, path, depth, es[1..], maxDepth).found;
      assert es[0] in es;
      EntryOnce(v, path, depth, es[0], maxDepth);
      DistinctRest(es);
      ReachedOnceAll(v, path, depth, whole, es[1..], maxDepth);
      forall f, g | f in here && g in rest ensures f.path != g.path {
        var e := EntryOf(v, path, depth, es[1..], maxDepth, g);
        assert e in es;
        EntryOnce(v, path, depth, e, maxDepth);
        if f.path == g.path {
          SameName(path, es[0].name, e.name, f.path);
        }
      }
    }
  }

  lemma DistinctRest(es: seq<Entry>)
    requires Distinct(es) && es != []
    ensures Distinct(es[1..]) && forall e | e in es[1..] :: e.name != es[0].name
  {
  }

  predicate StrictlySorted(entries: seq<Found>) {
    forall i, j | 0 <= i < j < |entries| :: Le(entries[i].path, entries[j].path) && entries[i].path != entries[j].path
  }

  /** A sorted selection from the reference is strictly sorted by path. */
  lemma WalkIsStrict(v: View, start: Str, listing: Listing, maxDepth: nat, entries: seq<Found>)
    requires WellFormed(listing)
    requires SortedBy(entries, PathKey()) && multiset(entries) <= Reference(v, start, listing, maxDepth).found
    ensures StrictlySorted(entries)
  {
    hide ListingTally, SortedBy;
    ReachedOnce(v, start, 0, listing, maxDepth);
    forall i, j | 0 <= i < j < |entries|
      ensures Le(entries[i].path, entries[j].path) && entries[i].path != entries[j].path
    {
      SortedPairwise(entries, PathKey(), i, j);
      assert entries[i] in multiset(entries) && entries[j] in multiset(entries);
      if entries[i] == entries[j] {
        TwiceIn(entries, i, j);
      }
    }
  }

  lemma TwiceIn(s: seq<Found>, i: nat, j: nat)
    requires i < j < |s| && s[i] == s[j]
    ensures multiset(s)[s[i]] >= 2
  {
    assert s == s[..j] + s[j..];
    assert s[..j][i] == s[i] && s[j..][0] == s[i];
    assert multiset(s) == multiset(s[..j]) + multiset(s[j..]);
  }
}
