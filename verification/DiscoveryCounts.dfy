/** What the walk counts: the entries it meets and the places where it prunes, route by route. */
module DiscoveryCounts {
  import opened Text
  import opened Discovery
  import opened DiscoveryReach

  datatype Tallied = Visits | Prunes

  function Amount(what: Tallied, t: Tally): nat { if what.Visits? then t.visits else t.pruned }

  /** An entry that is met but not shown: a sensitive one, or a link that dangles, leaves the root, or leads to something sensitive or a directory. */
  predicate Barred(v: View, path: Str, e: Entry) {
    v.sensitive(Under(path, e.name)) ||
    match e
    case Plain(_, _) => false
    case Dir(_, _) => false
    case Link(_, target) =>
      match target
      case Dangling | Outside | Sensitive | ToDirectory => true
      case ToLeaf => false
  }

  /** A directory that is opened. */
  predicate Enters(v: View, path: Str, depth: nat, e: Entry, maxDepth: nat) {
    e.Dir? && !v.sensitive(Under(path, e.name)) && depth + 1 < maxDepth
  }

  /**
   * The route leads through opened directories to something that is counted: a visit for every
   * entry, a prune for every barred entry and for every directory that cannot be read.
   */
  predicate Counted(what: Tallied, v: View, path: Str, depth: nat, listing: Listing, names: seq<Str>, maxDepth: nat)
    decreases |names|, 1
  {
    if names == [] then what.Prunes? && listing.Unreadable?
    else listing.Children? && exists e | e in listing.entries :: CountedBy(what, v, path, depth, e, names, maxDepth)
  }

  predicate CountedBy(what: Tallied, v: View, path: Str, depth: nat, e: Entry, names: seq<Str>, maxDepth: nat)
    requires names != []
    decreases |names|, 0
  {
    && e.name == names[0]
    && (|| (|names| == 1 && (what.Prunes? ==> Barred(v, path, e)))
        || (Enters(v, path, depth, e, maxDepth)
            && Counted(what, v, Under(path, e.name), depth + 1, e.listing, names[1..], maxDepth)))
  }

  predicate NoRepeats(routes: seq<seq<Str>>) { forall i, j | 0 <= i < j < |routes| :: routes[i] != routes[j] }

  function Prefixed(name: Str, routes: seq<seq<Str>>): (r: seq<seq<Str>>)
    ensures |r| == |routes| && forall i | 0 <= i < |r| :: r[i] == [name] + routes[i]
  {
    seq(|routes|, i requires 0 <= i < |routes| => [name] + routes[i])
  }

  lemma PrefixedRoutes(name: Str, routes: seq<seq<Str>>)
    ensures NoRepeats(routes) ==> NoRepeats(Prefixed(name, routes))
    ensures forall names :: names in Prefixed(name, routes) <==> names != [] && names[0] == name && names[1..] in routes
  {
    var r := Prefixed(name, routes);
    forall i | 0 <= i < |r| ensures r[i][0] == name && r[i][1..] == routes[i] {
    }
    forall names | names != [] && names[0] == name && names[1..] in routes ensures names in r {
      var i :| 0 <= i < |routes| && routes[i] == names[1..];
      assert names == [name] + names[1..];
      assert r[i] == names;
    }
  }

  lemma NoRepeatsJoined(a: seq<seq<Str>>, b: seq<seq<Str>>)
    requires NoRepeats(a) && NoRepeats(b) && forall names | names in a :: names !in b
    ensures NoRepeats(a + b)
  {
    forall i, j | 0 <= i < j < |a + b| ensures (a + b)[i] != (a + b)[j] {
      if i < |a| <= j {
        assert a[i] in a && b[j - |a|] in b;
      }
    }
  }

  lemma {:induction false} RoutesOf(what: Tallied, v: View, path: Str, depth: nat, listing: Listing, maxDepth: nat)
    returns (routes: seq<seq<Str>>)
    requires WellFormed(listing)
    ensures NoRepeats(routes) && |routes| == Amount(what, ListingTally(v, path, depth, listing, maxDepth))
    ensures forall names :: names in routes <==> Counted(what, v, path, depth, listing, names, maxDepth)
    decreases listing, 1
  {
    hide CountedBy, TallyAll, Distinct;
    if listing.Unreadable? {
      routes := if what.Prunes? then [[]] else [];
    } else {
      routes := RoutesOfAll(what, v, path, depth, listing, listing.entries, maxDepth);
    }
  }

  lemma {:induction false} RoutesOfAll(what: Tallied, v: View, path: Str, depth: nat, whole: Listing, es: seq<Entry>, maxDepth: nat)
    returns (routes: seq<seq<Str>>)
    requires whole.Children? && WellFormed(whole) && Distinct(es) && forall e | e in es :: e in whole.entries
    ensures NoRepeats(routes) && |routes| == Amount(what, TallyAll(v, path, depth, es, maxDepth))
    ensures forall names :: names in routes <==>
              names != [] && exists e | e in es :: CountedBy(what, v, path, depth, e, names, maxDepth)
    decreases whole, 0, |es|
  {
    hide CountedBy, EntryTally, Distinct, NoRepeats;
    if es == [] {
      routes := [];
      assert NoRepeats([]) by { NothingRepeats(); }
    } else {
      assert es[0] in es && es == [es[0]] + es[1..];
      DistinctRest(es);
      var here := RoutesOfEntry(what, v, path, depth, es[0], maxDepth);
      var rest := RoutesOfAll(what, v, path, depth, whole, es[1..], maxDepth);
      routes := here + rest;
      forall names | names in here ensures names !in rest {
        FirstName(what, v, path, depth, es[0], names, maxDepth);
        forall e | e in es[1..] && CountedBy(what, v, path, depth, e, names, maxDepth) ensures false {
          FirstName(what, v, path, depth, e, names, maxDepth);
        }
      }
      NoRepeatsJoined(here, rest);
      forall names | names != []
        ensures (exists e | e in es :: CountedBy(what, v, path, depth, e, names, maxDepth)) <==> names in here || names in rest
      {
        if exists e | e in es :: CountedBy(what, v, path, depth, e, names, maxDepth) {
          var e :| e in es && CountedBy(what, v, path, depth, e, names, maxDepth);
          assert e == es[0] || e in es[1..];
        }
      }
    }
  }

  lemma NothingRepeats()
    ensures NoRepeats([])
  {
  }

  lemma FirstName(what: Tallied, v: View, path: Str, depth: nat, e: Entry, names: seq<Str>, maxDepth: nat)
    requires names != [] && CountedBy(what, v, path, depth, e, names, maxDepth)
    ensures names[0] == e.name
  {
  }

  lemma {:induction false} RoutesOfEntry(what: Tallied, v: View, path: Str, depth: nat, e: Entry, maxDepth: nat)
    returns (routes: seq<seq<Str>>)
    requires e.Dir? ==> WellFormed(e.listing)
    ensures NoRepeats(routes) && |routes| == Amount(what, EntryTally(v, path, depth, e, maxDepth))
    ensures forall names :: names in routes <==> names != [] && CountedBy(what, v, path, depth, e, names, maxDepth)
    decreases e
  {
    hide ListingTally, Counted, WellFormed, NoRepeats;
    var own: seq<seq<Str>> := if what.Visits? || Barred(v, path, e) then [[e.name]] else [];
    OneRoute(e.name);
    if Enters(v, path, depth, e, maxDepth) {
      var below := RoutesOf(what, v, Under(path, e.name), depth + 1, e.listing, maxDepth);
      PrefixedRoutes(e.name, below);
      VisitsBelow(v, Under(path, e.name), depth + 1, e.listing, maxDepth);
      routes := own + Prefixed(e.name, below);
      NoRepeatsJoined(own, Prefixed(e.name, below));
    } else {
      routes := own;
    }
    forall names ensures names in routes <==> names != [] && CountedBy(what, v, path, depth, e, names, maxDepth) {
      if names != [] && |names| == 1 {
        assert names == [names[0]];
      }
    }
  }

  lemma OneRoute(name: Str)
    ensures NoRepeats([[name]]) && NoRepeats([])
  {
  }

  lemma VisitsBelow(v: View, path: Str, depth: nat, listing: Listing, maxDepth: nat)
    ensures !Counted(Visits, v, path, depth, listing, [], maxDepth)
  {
  }

  /**
   * In a file system with distinct names the numbers that the walk reports are sizes of sets of
   * routes: the entries it meets, and the places where it prunes.
   */
  lemma CountsExactly(what: Tallied, v: View, start: Str, listing: Listing, maxDepth: nat) returns (routes: seq<seq<Str>>)
    requires WellFormed(listing)
    ensures NoRepeats(routes) && |routes| == Amount(what, Reference(v, start, listing, maxDepth))
    ensures forall names :: names in routes <==> Counted(what, v, start, 0, listing, names, maxDepth)
  {
    routes := RoutesOf(what, v, start, 0, listing, maxDepth);
  }
}
