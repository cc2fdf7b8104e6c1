/**
 * What the depth limit of the walk hides. It sets no flag, so a result that is not called
 * truncated is complete for the whole tree only under the condition given here.
 */
module DepthLimit {
  import opened Text
  import opened Discovery
  import opened DiscoveryReach
  import opened DiscoveryCounts
  import opened FindFiles

  /** What a walk to depth `deep` finds under the directories where one to `maxDepth` stops. */
  function BelowEntry(v: View, path: Str, depth: nat, e: Entry, maxDepth: nat, deep: nat): multiset<Found>
    decreases e
  {
    var full := Under(path, e.name);
    if v.sensitive(full) || !e.Dir? || depth + 1 >= deep then multiset{}
    else if depth + 1 < maxDepth then Below(v, full, depth + 1, e.listing, maxDepth, deep)
    else ListingTally(v, full, depth + 1, e.listing, deep).found
  }

  function Below(v: View, path: Str, depth: nat, listing: Listing, maxDepth: nat, deep: nat): multiset<Found>
    decreases listing
  {
    if listing.Unreadable? then multiset{} else BelowAll(v, path, depth, listing.entries, maxDepth, deep)
  }

  function BelowAll(v: View, path: Str, depth: nat, es: seq<Entry>, maxDepth: nat, deep: nat): multiset<Found>
    decreases es
  {
    if es == [] then multiset{}
    else BelowEntry(v, path, depth, es[0], maxDepth, deep) + BelowAll(v, path, depth, es[1..], maxDepth, deep)
  }

  /** A deeper walk finds what the shallow one finds and what that one hides. */
  lemma {:induction false} DeeperFindsMore(v: View, path: Str, depth: nat, listing: Listing, maxDepth: nat, deep: nat)
    requires maxDepth <= deep
    ensures ListingTally(v, path, depth, listing, deep).found
         == ListingTally(v, path, depth, listing, maxDepth).found + Below(v, path, depth, listing, maxDepth, deep)
    decreases listing
  {
    if listing.Unreadable? {
    } else {
      DeeperFindsMoreAll(v, path, depth, listing.entries, maxDepth, deep);
    }
  }

  lemma {:induction false} DeeperFindsMoreAll(v: View, path: Str, depth: nat, es: seq<Entry>, maxDepth: nat, deep: nat)
    requires maxDepth <= deep
    ensures TallyAll(v, path, depth, es, deep).found
         == TallyAll(v, path, depth, es, maxDepth).found + BelowAll(v, path, depth, es, maxDepth, deep)
    decreases es
  {
    hide EntryTally, BelowEntry;
    if es == [] {
    } else {
      DeeperFindsMoreEntry(v, path, depth, es[0], maxDepth, deep);
      DeeperFindsMoreAll(v, path, depth, es[1..], maxDepth, deep);
    }
  }

  lemma {:induction false} DeeperFindsMoreEntry(v: View, path: Str, depth: nat, e: Entry, maxDepth: nat, deep: nat)
    requires maxDepth <= deep
    ensures EntryTally(v, path, depth, e, deep).found
         == EntryTally(v, path, depth, e, maxDepth).found + BelowEntry(v, path, depth, e, maxDepth, deep)
    decreases e
  {
    hide ListingTally, Below;
    if e.Dir? && depth + 1 < maxDepth {
      DeeperFindsMore(v, Under(path, e.name), depth + 1, e.listing, maxDepth, deep);
    }
  }

  // ---- when nothing is hidden ----

  predicate NoneShown(v: View, path: Str, listing: Listing) {
    listing.Children? ==> forall e | e in listing.entries :: Barred(v, path, e)
  }

  /** No directory at the depth limit has a visible entry. */
  predicate NothingBelow(v: View, path: Str, depth: nat, listing: Listing, maxDepth: nat)
    decreases listing, 1
  {
    listing.Children? ==> forall e | e in listing.entries :: NothingBelowEntry(v, path, depth, e, maxDepth)
  }

  predicate NothingBelowEntry(v: View, path: Str, depth: nat, e: Entry, maxDepth: nat)
    decreases e, 0
  {
    e.Dir? && !v.sensitive(Under(path, e.name)) ==>
      if depth + 1 < maxDepth then NothingBelow(v, Under(path, e.name), depth + 1, e.listing, maxDepth)
      else NoneShown(v, Under(path, e.name), e.listing)
  }

  lemma {:induction false} NoneShownExactly(v: View, path: Str, depth: nat, es: seq<Entry>, deep: nat)
    ensures TallyAll(v, path, depth, es, deep).found == multiset{} <==>
              forall e | e in es :: Barred(v, path, e)
    decreases |es|
  {
    hide EntryTally, Barred, Under;
    if es == [] {
    } else {
      EntryShownExactly(v, path, depth, es[0], deep);
      NoneShownExactly(v, path, depth, es[1..], deep);
      assert es == [es[0]] + es[1..];
      SumEmpty(EntryTally(v, path, depth, es[0], deep).found, TallyAll(v, path, depth, es[1..], deep).found);
    }
  }

  lemma EntryShownExactly(v: View, path: Str, depth: nat, e: Entry, deep: nat)
    ensures EntryTally(v, path, depth, e, deep).found == multiset{} <==> Barred(v, path, e)
  {
    hide ListingTally;
    if !Barred(v, path, e) {
      assert Found(Under(path, e.name), depth + 1) in EntryTally(v, path, depth, e, deep).found;
    }
  }

  lemma SumEmpty(a: multiset<Found>, b: multiset<Found>)
    ensures a + b == multiset{} <==> a == multiset{} && b == multiset{}
  {
    assert |a + b| == |a| + |b|;
  }

  lemma {:induction false} BelowEmptyExactly(v: View, path: Str, depth: nat, listing: Listing, maxDepth: nat, deep: nat)
    requires depth < maxDepth < deep
    ensures Below(v, path, depth, listing, maxDepth, deep) == multiset{} <==> NothingBelow(v, path, depth, listing, maxDepth)
    decreases listing
  {
    if listing.Unreadable? {
    } else {
      BelowAllEmpty(v, path, depth, listing.entries, maxDepth, deep);
      forall e | e in listing.entries
        ensures BelowEntry(v, path, depth, e, maxDepth, deep) == multiset{} <==> NothingBelowEntry(v, path, depth, e, maxDepth)
      {
        if e.Dir? {
          BelowEmptyEntry(v, path, depth, e, maxDepth, deep);
        }
      }
    }
  }

  lemma {:induction false} BelowEmptyEntry(v: View, path: Str, depth: nat, e: Entry, maxDepth: nat, deep: nat)
    requires depth < maxDepth < deep && e.Dir?
    ensures BelowEntry(v, path, depth, e, maxDepth, deep) == multiset{} <==> NothingBelowEntry(v, path, depth, e, maxDepth)
    decreases e
  {
    hide Below, NothingBelow, TallyAll;
    if depth + 1 < maxDepth {
      BelowEmptyExactly(v, Under(path, e.name), depth + 1, e.listing, maxDepth, deep);
    } else if e.listing.Children? {
      NoneShownExactly(v, Under(path, e.name), depth + 1, e.listing.entries, deep);
    }
  }

  lemma {:induction false} BelowAllEmpty(v: View, path: Str, depth: nat, es: seq<Entry>, maxDepth: nat, deep: nat)
    ensures BelowAll(v, path, depth, es, maxDepth, deep) == multiset{} <==>
              forall e | e in es :: BelowEntry(v, path, depth, e, maxDepth, deep) == multiset{}
    decreases |es|
  {
    hide BelowEntry;
    if es == [] {
    } else {
      BelowAllEmpty(v, path, depth, es[1..], maxDepth, deep);
      assert es == [es[0]] + es[1..];
      assert (forall e | e in es :: BelowEntry(v, path, depth, e, maxDepth, deep) == multiset{}) <==>
             BelowEntry(v, path, depth, es[0], maxDepth, deep) == multiset{}
             && forall e | e in es[1..] :: BelowEntry(v, path, depth, e, maxDepth, deep) == multiset{};
      SumEmpty(BelowEntry(v, path, depth, es[0], maxDepth, deep), BelowAll(v, path, depth, es[1..], maxDepth, deep));
    }
  }

  /**
   * The walk finds everything that a walk to any greater depth finds exactly when no directory at
   * the depth limit has a visible entry.
   */
  lemma DepthCutExactly(v: View, start: Str, listing: Listing, maxDepth: nat, deep: nat)
    requires 0 < maxDepth < deep
    ensures Reference(v, start, listing, deep).found == Reference(v, start, listing, maxDepth).found <==>
              NothingBelow(v, start, 0, listing, maxDepth)
  {
    hide ListingTally, Below, NothingBelow;
    DeeperFindsMore(v, start, 0, listing, maxDepth, deep);
    BelowEmptyExactly(v, start, 0, listing, maxDepth, deep);
    var found, below := Reference(v, start, listing, maxDepth).found, Below(v, start, 0, listing, maxDepth, deep);
    assert |found + below| == |found| + |below|;
  }

  lemma FoundDeeper(v: View, path: Str, depth: nat, listing: Listing, deep: nat, f: Found)
    requires f in ListingTally(v, path, depth, listing, deep).found
    ensures f.depth > depth
  {
    var names := FoundHasRoute(v, path, depth, listing, deep, f);
  }

  lemma {:induction false} BelowIsDeep(v: View, path: Str, depth: nat, es: seq<Entry>, maxDepth: nat, deep: nat, f: Found)
    requires depth < maxDepth && f in BelowAll(v, path, depth, es, maxDepth, deep)
    ensures f.depth > maxDepth
    decreases es
  {
    hide ListingTally;
    if f in BelowEntry(v, path, depth, es[0], maxDepth, deep) {
      var full, e := Under(path, es[0].name), es[0];
      if depth + 1 < maxDepth {
        assert f in Below(v, full, depth + 1, e.listing, maxDepth, deep);
        BelowIsDeep(v, full, depth + 1, e.listing.entries, maxDepth, deep, f);
      } else {
        FoundDeeper(v, full, depth + 1, e.listing, deep, f);
      }
    } else {
      BelowIsDeep(v, path, depth, es[1..], maxDepth, deep, f);
    }
  }

  /**
   * A result of findFiles that is not called truncated misses a matching entry of the whole tree
   * exactly when one lies below the depth limit; with nothing below the limit it misses none.
   */
  lemma FindingsCompleteExactly(v: View, start: Str, listing: Listing, pattern: Str, walked: seq<Found>, deep: nat)
    requires deep > MAX_SEARCH_DEPTH
    requires multiset(walked) == Reference(v, start, listing, MAX_SEARCH_DEPTH).found
    ensures (forall f :: f in Matching(v, pattern, walked) <==>
               f in Reference(v, start, listing, deep).found && Selected(v, pattern, f)) <==>
              forall f | f in Below(v, start, 0, listing, MAX_SEARCH_DEPTH, deep) :: !Selected(v, pattern, f)
    ensures NothingBelow(v, start, 0, listing, MAX_SEARCH_DEPTH) ==>
              forall f :: f in Matching(v, pattern, walked) <==> f in Reference(v, start, listing, deep).found && Selected(v, pattern, f)
  {
    hide Selected, Reference, Below, NothingBelow, Matching;
    var below := Below(v, start, 0, listing, MAX_SEARCH_DEPTH, deep);
    SplitByDepth(v, start, listing, deep);
    BelowEmptyExactly(v, start, 0, listing, MAX_SEARCH_DEPTH, deep);
    forall f
      ensures f in Matching(v, pattern, walked) <==>
                f in Reference(v, start, listing, MAX_SEARCH_DEPTH).found && Selected(v, pattern, f)
    {
      MatchingCounts(v, pattern, walked, f);
      assert f in Matching(v, pattern, walked) <==> f in multiset(Matching(v, pattern, walked));
    }
    forall f | f in below ensures f !in Reference(v, start, listing, MAX_SEARCH_DEPTH).found {
      BelowLimit(v, start, listing, deep, f);
      if f in Reference(v, start, listing, MAX_SEARCH_DEPTH).found {
        FoundIsClear(v, start, listing, MAX_SEARCH_DEPTH, f);
      }
    }
  }

  lemma SplitByDepth(v: View, start: Str, listing: Listing, deep: nat)
    requires deep > MAX_SEARCH_DEPTH
    ensures Reference(v, start, listing, deep).found
         == Reference(v, start, listing, MAX_SEARCH_DEPTH).found + Below(v, start, 0, listing, MAX_SEARCH_DEPTH, deep)
  {
    DeeperFindsMore(v, start, 0, listing, MAX_SEARCH_DEPTH, deep);
  }

  lemma BelowLimit(v: View, start: Str, listing: Listing, deep: nat, f: Found)
    requires f in Below(v, start, 0, listing, MAX_SEARCH_DEPTH, deep)
    ensures f.depth > MAX_SEARCH_DEPTH
  {
    BelowIsDeep(v, start, 0, listing.entries, MAX_SEARCH_DEPTH, deep, f);
  }
}
