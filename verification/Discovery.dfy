/**
 * Bounded discovery of src/executor/adapters/fs-search.ts: an explicit-stack walk with a cap and
 * pruning. The file system is a finite tree whose directories list their entries in any order.
 */
module Discovery {
  import opened Text
  import opened Sorting

  const MAX_VISITED: nat := 2000
  const MAX_FIND_RESULTS: nat := 200
  const STAR: CodeUnit := 0x2A

  /** What a symbolic link resolves to; ToDirectory and ToLeaf lie in the root and are not sensitive. */
  datatype LinkTarget = Dangling | Outside | Sensitive | ToDirectory | ToLeaf

  datatype Entry =
    | Plain(name: Str, isFile: bool)
    | Link(name: Str, target: LinkTarget)
    | Dir(name: Str, listing: Listing)

  datatype Listing = Unreadable | Children(entries: seq<Entry>)

  /** isSensitivePath and containment in the authorized root, on absolute paths. */
  datatype View = View(sensitive: Str -> bool, contained: Str -> bool)

  datatype Found = Found(path: Str, depth: nat)

  function Under(path: Str, name: Str): Str { path + [SLASH] + name }

  // ---- the reference: everything visible down to a depth, by recursion on the tree ----

  datatype Tally = Tally(found: multiset<Found>, visits: nat, pruned: nat) {
    function Plus(t: Tally): Tally { Tally(found + t.found, visits + t.visits, pruned + t.pruned) }

    predicate Within(t: Tally) { found <= t.found && pruned <= t.pruned }
  }

  const NOTHING := Tally(multiset{}, 0, 0)

  const PRUNED := Tally(multiset{}, 1, 1)

  function One(path: Str, depth: nat): Tally { Tally(multiset{Found(path, depth)}, 1, 0) }

  function Collected(entries: seq<Found>, visited: nat, pruned: nat): Tally { Tally(multiset(entries), visited, pruned) }

  lemma Swap(a: Tally, b: Tally, c: Tally)
    ensures a.Plus(b.Plus(c)) == b.Plus(a.Plus(c))
  {
  }

  lemma Collect(entries: seq<Found>, visited: nat, pruned: nat, f: Found)
    ensures Collected(entries, visited + 1, pruned + 1) == Collected(entries, visited, pruned).Plus(PRUNED)
    ensures Collected(entries + [f], visited + 1, pruned) == Collected(entries, visited, pruned).Plus(One(f.path, f.depth))
  {
  }

  /** What moves from the directory at hand to the result and to the stack stays in the balance. */
  lemma Moved(result: Tally, stack: Tally, now: Tally, later: Tally, rest: Tally)
    ensures result.Plus(now).Plus(stack.Plus(later)).Plus(rest) == result.Plus(stack).Plus(now.Plus(later).Plus(rest))
  {
    assert result.found + now.found + (stack.found + later.found) + rest.found
        == result.found + stack.found + (now.found + later.found + rest.found);
  }

  /** The result is part of the balance, and what is still to come was not counted yet. */
  lemma PartOfBalance(result: Tally, stack: Tally, rest: Tally)
    ensures result.Within(result.Plus(stack).Plus(rest)) && result.Within(result.Plus(stack))
    ensures result.Plus(stack).Plus(rest).visits >= result.visits + rest.visits
  {
  }

  lemma WithNothing(t: Tally)
    ensures t.Plus(NOTHING) == t == NOTHING.Plus(t)
  {
  }

  /** Entries that appear in a result at all. */
  predicate Shown(e: Entry) { e.Link? ==> e.target.ToLeaf? }

  function EntryTally(v: View, path: Str, depth: nat, e: Entry, maxDepth: nat): (t: Tally)
    ensures t.visits >= 1
    decreases e
  {
    var full := Under(path, e.name);
    if v.sensitive(full) || !Shown(e) then PRUNED
    else
      One(full, depth + 1).Plus(
        if e.Dir? && depth + 1 < maxDepth then ListingTally(v, full, depth + 1, e.listing, maxDepth) else NOTHING)
  }

  function ListingTally(v: View, path: Str, depth: nat, listing: Listing, maxDepth: nat): Tally
    decreases listing
  {
    if listing.Unreadable? then Tally(multiset{}, 0, 1) else TallyAll(v, path, depth, listing.entries, maxDepth)
  }

  function TallyAll(v: View, path: Str, depth: nat, es: seq<Entry>, maxDepth: nat): Tally
    decreases es
  {
    if es == [] then NOTHING
    else EntryTally(v, path, depth, es[0], maxDepth).Plus(TallyAll(v, path, depth, es[1..], maxDepth))
  }

  lemma {:induction false} InsertKeepsTally(v: View, path: Str, depth: nat, e: Entry, es: seq<Entry>, maxDepth: nat, key: Entry -> Str)
    ensures TallyAll(v, path, depth, Insert(e, es, key), maxDepth)
         == EntryTally(v, path, depth, e, maxDepth).Plus(TallyAll(v, path, depth, es, maxDepth))
    decreases |es|
  {
    hide EntryTally, Tally.Plus;
    var r := Insert(e, es, key);
    if es == [] {
      assert r == [e] && r[1..] == [];
    } else if Le(key(e), key(es[0])) {
      assert r[1..] == es;
    } else {
      assert r[1..] == Insert(e, es[1..], key);
      InsertKeepsTally(v, path, depth, e, es[1..], maxDepth, key);
      Swap(EntryTally(v, path, depth, e, maxDepth), EntryTally(v, path, depth, es[0], maxDepth),
           TallyAll(v, path, depth, es[1..], maxDepth));
    }
  }

  /** The order in which a directory lists its entries does not matter. */
  lemma {:induction false} SortKeepsTally(v: View, path: Str, depth: nat, es: seq<Entry>, maxDepth: nat, key: Entry -> Str)
    ensures TallyAll(v, path, depth, Sort(es, key), maxDepth) == TallyAll(v, path, depth, es, maxDepth)
    decreases |es|
  {
    hide EntryTally;
    if es == [] {
    } else {
      SortKeepsTally(v, path, depth, es[1..], maxDepth, key);
      InsertKeepsTally(v, path, depth, es[0], Sort(es[1..], key), maxDepth, key);
    }
  }

  // ---- the walk with its explicit stack ----

  datatype Frame = Frame(path: Str, depth: nat, listing: Listing)

  function StackTally(v: View, stack: seq<Frame>, maxDepth: nat): Tally {
    if stack == [] then NOTHING
    else
      var top := stack[|stack| - 1];
      StackTally(v, stack[..|stack| - 1], maxDepth).Plus(ListingTally(v, top.path, top.depth, top.listing, maxDepth))
  }

  lemma StackPush(v: View, stack: seq<Frame>, f: Frame, maxDepth: nat)
    ensures StackTally(v, stack + [f], maxDepth)
         == StackTally(v, stack, maxDepth).Plus(ListingTally(v, f.path, f.depth, f.listing, maxDepth))
  {
    assert (stack + [f])[..|stack|] == stack;
  }

  /** Directories that the walk goes into. */
  predicate Descends(v: View, path: Str, depth: nat, e: Entry, maxDepth: nat) {
    e.Dir? && !v.sensitive(Under(path, e.name)) && depth + 1 < maxDepth
  }

  /** The frames that a directory pushes, in the order of its sorted entries. */
  function Pushed(v: View, path: Str, depth: nat, es: seq<Entry>, maxDepth: nat): seq<Frame> {
    if es == [] then []
    else
      var e := es[|es| - 1];
      Pushed(v, path, depth, es[..|es| - 1], maxDepth)
      + if Descends(v, path, depth, e, maxDepth) then [Frame(Under(path, e.name), depth + 1, e.listing)] else []
  }

  function FirstDescended(v: View, path: Str, depth: nat, es: seq<Entry>, maxDepth: nat): (r: Option<Entry>)
    ensures r.Some? ==> r.value in es && Descends(v, path, depth, r.value, maxDepth)
    ensures r.None? ==> forall e | e in es :: !Descends(v, path, depth, e, maxDepth)
  {
    if es == [] then None
    else
      var before := FirstDescended(v, path, depth, es[..|es| - 1], maxDepth);
      assert es == es[..|es| - 1] + [es[|es| - 1]];
      if before.Some? then before
      else if Descends(v, path, depth, es[|es| - 1], maxDepth) then Some(es[|es| - 1]) else None
  }

  lemma {:induction false} PushedFirst(v: View, path: Str, depth: nat, es: seq<Entry>, maxDepth: nat)
    ensures var first := FirstDescended(v, path, depth, es, maxDepth);
            var frames := Pushed(v, path, depth, es, maxDepth);
            if first.None? then frames == []
            else frames != [] && frames[0] == Frame(Under(path, first.value.name), depth + 1, first.value.listing)
  {
    hide Descends, Under;
    if es == [] {
    } else {
      PushedFirst(v, path, depth, es[..|es| - 1], maxDepth);
    }
  }

  /**
   * The directory that an unlimited walk opens last: from the start always the smallest-named
   * directory that is descended into, since this is at the bottom of the stack.
   */
  function LastOpened(v: View, path: Str, depth: nat, listing: Listing, maxDepth: nat): Listing
    decreases listing
  {
    if listing.Unreadable? then listing
    else
      var es := Sort(listing.entries, NameKey());
      var first := FirstDescended(v, path, depth, es, maxDepth);
      if first.None? then listing
      else
        assert first.value in multiset(es);
        LastOpened(v, Under(path, first.value.name), depth + 1, first.value.listing, maxDepth)
  }

  predicate Bare(listing: Listing) { listing.Unreadable? || listing.entries == [] }

  /** When a walk is cut: above the cap, and at the cap if an empty directory is opened last. */
  predicate CutOff(v: View, start: Str, listing: Listing, maxDepth: nat) {
    var visits := Reference(v, start, listing, maxDepth).visits;
    visits > MAX_VISITED || (visits == MAX_VISITED && Bare(LastOpened(v, start, 0, listing, maxDepth)))
  }

  function LastOf(v: View, f: Frame, maxDepth: nat): Listing { LastOpened(v, f.path, f.depth, f.listing, maxDepth) }

  /** Replacing the bottom frame by what it pushes keeps the directory that is opened last. */
  lemma LastStays(v: View, f: Frame, maxDepth: nat)
    requires f.listing.Children?
    ensures var frames := Pushed(v, f.path, f.depth, Sort(f.listing.entries, NameKey()), maxDepth);
            LastOf(v, f, maxDepth) == if frames == [] then f.listing else LastOf(v, frames[0], maxDepth)
  {
    hide Pushed, Sort, Insert, Descends;
    PushedFirst(v, f.path, f.depth, Sort(f.listing.entries, NameKey()), maxDepth);
  }

  lemma NoVisitsIsBare(v: View, f: Frame, maxDepth: nat)
    requires ListingTally(v, f.path, f.depth, f.listing, maxDepth).visits == 0
    ensures Bare(f.listing) && Bare(LastOf(v, f, maxDepth))
  {
    hide EntryTally;
    if f.listing.Children? && f.listing.entries == [] {
      assert Sort(f.listing.entries, NameKey()) == [];
    }
  }

  /** A stack that holds no more visits has an empty directory at its bottom. */
  lemma {:induction false} BareBottom(v: View, stack: seq<Frame>, maxDepth: nat)
    requires stack != [] && StackTally(v, stack, maxDepth).visits == 0
    ensures Bare(LastOf(v, stack[0], maxDepth))
  {
    hide ListingTally, LastOf;
    if |stack| == 1 {
      NoVisitsIsBare(v, stack[0], maxDepth);
    } else {
      BareBottom(v, stack[..|stack| - 1], maxDepth);
    }
  }

  function Reference(v: View, start: Str, listing: Listing, maxDepth: nat): Tally {
    ListingTally(v, start, 0, listing, maxDepth)
  }

  function NameKey(): Entry -> Str { (e: Entry) => e.name }

  function PathKey(): Found -> Str { (f: Found) => f.path }

  /** The walk between two directories, as long as it is not cut. */
  predicate OnTrack(v: View, goal: Tally, last: Listing, entries: seq<Found>, visited: nat, pruned: nat, stack: seq<Frame>, maxDepth: nat) {
    && |entries| <= visited <= MAX_VISITED && |entries| + pruned >= visited
    && Collected(entries, visited, pruned).Plus(StackTally(v, stack, maxDepth)) == goal
    && (stack != [] ==> LastOf(v, stack[0], maxDepth) == last)
    && (stack == [] && Bare(last) ==> visited < MAX_VISITED)
  }

  /** The walk after it was cut. */
  predicate WasCut(goal: Tally, last: Listing, entries: seq<Found>, visited: nat, pruned: nat) {
    && |entries| <= MAX_VISITED <= visited && |entries| + pruned >= MAX_VISITED
    && Collected(entries, visited, pruned).Within(goal)
    && (goal.visits > MAX_VISITED || (goal.visits == MAX_VISITED && Bare(last)))
  }

  /**
   * walkRoot. Whatever the order of the stack, an uncut walk finds exactly what the recursion
   * finds, and counts the same; a cut walk finds a part of it, when as many entries as the cap
   * allows have been listed or pruned.
   */
  method WalkRoot(v: View, start: Str, listing: Listing, maxDepth: nat)
    returns (entries: seq<Found>, visited: nat, pruned: nat, truncated: bool)
    ensures |entries| <= MAX_VISITED
    ensures SortedBy(entries, PathKey())
    ensures Collected(entries, visited, pruned).Within(Reference(v, start, listing, maxDepth))
    ensures !truncated ==> Collected(entries, visited, pruned) == Reference(v, start, listing, maxDepth)
    ensures truncated ==> |entries| + pruned >= MAX_VISITED
    ensures truncated <==> CutOff(v, start, listing, maxDepth)
  {
    hide OnTrack, WasCut, CutOff, Reference, StackTally, SortedBy, Sort, Insert, LastOf, Bare, Pushed, Tally.Plus;
    ghost var goal := Reference(v, start, listing, maxDepth);
    ghost var last := LastOf(v, Frame(start, 0, listing), maxDepth);
    entries, visited, pruned, truncated := [], 0, 0, false;
    var stack := [Frame(start, 0, listing)];
    StartsOnTrack(v, start, listing, maxDepth);
    while stack != []
      invariant if truncated then WasCut(goal, last, entries, visited, pruned) && visited > MAX_VISITED
                else OnTrack(v, goal, last, entries, visited, pruned, stack, maxDepth)
      decreases MAX_VISITED + 1 - visited, |stack|
    {
      if visited >= MAX_VISITED {
        if !truncated {
          CutOnTop(v, goal, last, entries, visited, pruned, stack, maxDepth);
        }
        truncated := true;
        break;
      }
      var current := stack[|stack| - 1];
      Popped(v, goal, last, entries, visited, pruned, stack, maxDepth);
      stack := stack[..|stack| - 1];
      if current.listing.Unreadable? {
        pruned := pruned + 1;
        continue;
      }
      ghost var rest, before := stack, visited;
      entries, visited, pruned, truncated, stack :=
        VisitDirectory(v, current, maxDepth, entries, visited, pruned, stack, goal);
      if truncated {
        CutInside(goal, last, entries, visited, pruned);
      } else {
        BackOnTrack(v, goal, last, entries, before, visited, pruned, rest, current, maxDepth);
      }
    }
    if !truncated {
      Finished(v, goal, last, entries, visited, pruned, maxDepth);
    }
    CutMeans(v, start, listing, maxDepth, entries, visited, pruned, truncated);
    SortSorted(entries, PathKey());
    entries := Sort(entries, PathKey());
  }

  lemma StartsOnTrack(v: View, start: Str, listing: Listing, maxDepth: nat)
    ensures var f := Frame(start, 0, listing);
            OnTrack(v, Reference(v, start, listing, maxDepth), LastOf(v, f, maxDepth), [], 0, 0, [f], maxDepth)
  {
    hide ListingTally, StackTally, Tally.Plus, LastOf;
    var f := Frame(start, 0, listing);
    StackPush(v, [], f, maxDepth);
    StackEmpty(v, maxDepth);
    assert [] + [f] == [f];
    WithNothing(Reference(v, start, listing, maxDepth));
  }

  /** At the cap with directories left: either one of them has entries, or the last one is empty. */
  lemma CutOnTop(v: View, goal: Tally, last: Listing, entries: seq<Found>, visited: nat, pruned: nat, stack: seq<Frame>, maxDepth: nat)
    requires OnTrack(v, goal, last, entries, visited, pruned, stack, maxDepth) && stack != [] && visited >= MAX_VISITED
    ensures WasCut(goal, last, entries, visited, pruned)
  {
    hide StackTally, LastOf, Bare, Tally.Plus;
    PartOfBalance(Collected(entries, visited, pruned), StackTally(v, stack, maxDepth), NOTHING);
    VisitsAdd(Collected(entries, visited, pruned), StackTally(v, stack, maxDepth));
    if StackTally(v, stack, maxDepth).visits == 0 {
      BareBottom(v, stack, maxDepth);
    }
  }

  lemma CutInside(goal: Tally, last: Listing, entries: seq<Found>, visited: nat, pruned: nat)
    requires |entries| <= MAX_VISITED < visited <= goal.visits && |entries| + pruned >= MAX_VISITED
    requires Collected(entries, visited, pruned).Within(goal)
    ensures WasCut(goal, last, entries, visited, pruned)
  {
  }

  lemma Popped(v: View, goal: Tally, last: Listing, entries: seq<Found>, visited: nat, pruned: nat, stack: seq<Frame>, maxDepth: nat)
    requires OnTrack(v, goal, last, entries, visited, pruned, stack, maxDepth) && stack != [] && visited < MAX_VISITED
    ensures var rest, top := stack[..|stack| - 1], stack[|stack| - 1];
            && |entries| <= visited && |entries| + pruned >= visited
            && Collected(entries, visited, pruned).Plus(StackTally(v, rest, maxDepth)).Plus(
                 ListingTally(v, top.path, top.depth, top.listing, maxDepth)) == goal
            && LastOf(v, if rest == [] then top else rest[0], maxDepth) == last
            && (top.listing.Unreadable? ==> OnTrack(v, goal, last, entries, visited, pruned + 1, rest, maxDepth))
  {
    hide ListingTally, StackTally, Tally.Plus, LastOf, Bare;
    var rest, top := stack[..|stack| - 1], stack[|stack| - 1];
    StackPush(v, rest, top, maxDepth);
    assert rest + [top] == stack;
    Regroup(Collected(entries, visited, pruned), StackTally(v, rest, maxDepth),
            ListingTally(v, top.path, top.depth, top.listing, maxDepth));
    if top.listing.Unreadable? {
      UnreadableTally(v, top.path, top.depth, maxDepth);
      Skipped(entries, visited, pruned, StackTally(v, rest, maxDepth));
    }
  }

  lemma BackOnTrack(v: View, goal: Tally, last: Listing, entries: seq<Found>, before: nat, visited: nat, pruned: nat,
                    rest: seq<Frame>, top: Frame, maxDepth: nat)
    requires top.listing.Children? && before < MAX_VISITED && visited == before + |top.listing.entries| <= MAX_VISITED
    requires |entries| <= visited && |entries| + pruned >= visited
    requires LastOf(v, if rest == [] then top else rest[0], maxDepth) == last
    requires var stack := rest + Pushed(v, top.path, top.depth, Sort(top.listing.entries, NameKey()), maxDepth);
             Collected(entries, visited, pruned).Plus(StackTally(v, stack, maxDepth)) == goal
    ensures var stack := rest + Pushed(v, top.path, top.depth, Sort(top.listing.entries, NameKey()), maxDepth);
            OnTrack(v, goal, last, entries, visited, pruned, stack, maxDepth)
  {
    hide StackTally, Tally.Plus, LastOf, Pushed, Sort;
    LastStays(v, top, maxDepth);
  }

  lemma Finished(v: View, goal: Tally, last: Listing, entries: seq<Found>, visited: nat, pruned: nat, maxDepth: nat)
    requires OnTrack(v, goal, last, entries, visited, pruned, [], maxDepth)
    ensures Collected(entries, visited, pruned) == goal && |entries| <= MAX_VISITED
    ensures goal.visits <= MAX_VISITED && (Bare(last) ==> goal.visits < MAX_VISITED)
  {
    hide StackTally, Bare;
    StackEmpty(v, maxDepth);
    WithNothing(Collected(entries, visited, pruned));
  }

  lemma CutMeans(v: View, start: Str, listing: Listing, maxDepth: nat, entries: seq<Found>, visited: nat, pruned: nat, truncated: bool)
    requires var goal, last := Reference(v, start, listing, maxDepth), LastOf(v, Frame(start, 0, listing), maxDepth);
             if truncated then WasCut(goal, last, entries, visited, pruned)
             else
               && Collected(entries, visited, pruned) == goal && |entries| <= MAX_VISITED
               && goal.visits <= MAX_VISITED && (Bare(last) ==> goal.visits < MAX_VISITED)
    ensures truncated <==> CutOff(v, start, listing, maxDepth)
    ensures |entries| <= MAX_VISITED && Collected(entries, visited, pruned).Within(Reference(v, start, listing, maxDepth))
    ensures truncated ==> |entries| + pruned >= MAX_VISITED
  {
    hide Bare, ListingTally;
  }

  lemma VisitsAdd(a: Tally, b: Tally)
    ensures a.Plus(b).visits == a.visits + b.visits
  {
  }

  lemma StackEmpty(v: View, maxDepth: nat)
    ensures StackTally(v, [], maxDepth) == NOTHING
  {
  }

  lemma Skipped(entries: seq<Found>, visited: nat, pruned: nat, waiting: Tally)
    ensures Collected(entries, visited, pruned + 1).Plus(waiting)
         == Collected(entries, visited, pruned).Plus(waiting).Plus(Tally(multiset{}, 0, 1))
  {
  }

  lemma Regroup(a: Tally, b: Tally, c: Tally)
    ensures a.Plus(b.Plus(c)) == a.Plus(b).Plus(c)
  {
  }

  lemma UnreadableTally(v: View, path: Str, depth: nat, maxDepth: nat)
    ensures ListingTally(v, path, depth, Unreadable, maxDepth) == Tally(multiset{}, 0, 1)
  {
  }

  /** One round of the walk: the entries of one directory, in the order of their names. */
  method VisitDirectory(v: View, current: Frame, maxDepth: nat, entries0: seq<Found>, visited0: nat, pruned0: nat,
                        stack0: seq<Frame>, ghost goal: Tally)
    returns (entries: seq<Found>, visited: nat, pruned: nat, truncated: bool, stack: seq<Frame>)
    requires current.listing.Children? && |entries0| <= visited0 < MAX_VISITED && |entries0| + pruned0 >= visited0
    requires Collected(entries0, visited0, pruned0).Plus(StackTally(v, stack0, maxDepth)).Plus(
               ListingTally(v, current.path, current.depth, current.listing, maxDepth)) == goal
    ensures |entries| <= visited && |entries| <= MAX_VISITED
    ensures |entries| + pruned >= if truncated then MAX_VISITED else visited
    ensures visited > visited0 || (visited == visited0 && stack == stack0)
    ensures !truncated ==> visited == visited0 + |current.listing.entries|
    ensures !truncated ==> stack == stack0 + Pushed(v, current.path, current.depth, Sort(current.listing.entries, NameKey()), maxDepth)
    ensures !truncated ==> visited <= MAX_VISITED
    ensures !truncated ==> Collected(entries, visited, pruned).Plus(StackTally(v, stack, maxDepth)) == goal
    ensures truncated ==> visited == MAX_VISITED + 1 && goal.visits >= visited
    ensures truncated ==> Collected(entries, visited, pruned).Within(goal)
  {
    hide ListingTally, StackTally, TallyAll, EntryTally, Tally.Plus, Sort, Insert, Pushed;
    var dirents := Sort(current.listing.entries, NameKey());
    SortKeepsTally(v, current.path, current.depth, current.listing.entries, maxDepth, NameKey());
    assert ListingTally(v, current.path, current.depth, current.listing, maxDepth)
        == TallyAll(v, current.path, current.depth, dirents, maxDepth) by {
      ChildrenTally(v, current.path, current.depth, current.listing, maxDepth);
    }
    entries, visited, pruned, truncated, stack := entries0, visited0, pruned0, false, stack0;
    PushedNothing(v, current.path, current.depth, maxDepth);
    assert dirents[..0] == [] && stack0 + [] == stack0;
    for k := 0 to |dirents|
      invariant |entries| <= visited && visited0 + k == visited <= MAX_VISITED && !truncated
      invariant |entries| + pruned >= visited
      invariant stack == stack0 + Pushed(v, current.path, current.depth, dirents[..k], maxDepth)
      invariant Collected(entries, visited, pruned).Plus(StackTally(v, stack, maxDepth)).Plus(
                  TallyAll(v, current.path, current.depth, dirents[k..], maxDepth)) == goal
    {
      var d := dirents[k];
      PushedNext(v, current.path, current.depth, dirents, k, maxDepth);
      var full := Under(current.path, d.name);
      ghost var result, waiting := Collected(entries, visited, pruned), StackTally(v, stack, maxDepth);
      ghost var entry := EntryTally(v, current.path, current.depth, d, maxDepth);
      ghost var rest := TallyAll(v, current.path, current.depth, dirents[k + 1..], maxDepth);
      assert result.Plus(waiting).Plus(entry.Plus(rest)) == goal by {
        FirstTally(v, current.path, current.depth, dirents[k..], maxDepth);
        assert dirents[k..][1..] == dirents[k + 1..];
      }
      visited := visited + 1;
      if visited > MAX_VISITED {
        truncated := true;
        CutHere(result, waiting, entry, rest);
        return;
      }
      Collect(entries, visited - 1, pruned, Found(full, current.depth + 1));
      if v.sensitive(full) || !Shown(d) {
        // a sensitive path, or a link to nothing, out of the root, to something sensitive or to a directory
        pruned := pruned + 1;
        EntryPruned(v, current.path, current.depth, d, maxDepth);
        Moved(result, waiting, PRUNED, NOTHING, rest);
        WithNothing(PRUNED);
        WithNothing(waiting);
        continue;
      }
      entries := entries + [Found(full, current.depth + 1)];
      if d.Dir? && current.depth + 1 < maxDepth {
        var frame := Frame(full, current.depth + 1, d.listing);
        StackPush(v, stack, frame, maxDepth);
        stack := stack + [frame];
        EntryFound(v, current.path, current.depth, d, maxDepth);
        Moved(result, waiting, One(full, current.depth + 1), ListingTally(v, full, current.depth + 1, d.listing, maxDepth), rest);
      } else {
        EntryFound(v, current.path, current.depth, d, maxDepth);
        Moved(result, waiting, One(full, current.depth + 1), NOTHING, rest);
        WithNothing(waiting);
      }
    }
    assert dirents[|dirents|..] == [] && dirents[..|dirents|] == dirents;
    NoneLeft(v, current.path, current.depth, maxDepth);
    WithNothing(Collected(entries, visited, pruned).Plus(StackTally(v, stack, maxDepth)));
  }

  lemma PushedNothing(v: View, path: Str, depth: nat, maxDepth: nat)
    ensures Pushed(v, path, depth, [], maxDepth) == []
  {
  }

  lemma PushedNext(v: View, path: Str, depth: nat, es: seq<Entry>, k: nat, maxDepth: nat)
    requires k < |es|
    ensures Pushed(v, path, depth, es[..k + 1], maxDepth) == Pushed(v, path, depth, es[..k], maxDepth)
              + if Descends(v, path, depth, es[k], maxDepth) then [Frame(Under(path, es[k].name), depth + 1, es[k].listing)] else []
  {
    assert es[..k + 1][..k] == es[..k];
  }

  lemma NoneLeft(v: View, path: Str, depth: nat, maxDepth: nat)
    ensures TallyAll(v, path, depth, [], maxDepth) == NOTHING
  {
  }

  lemma FirstTally(v: View, path: Str, depth: nat, es: seq<Entry>, maxDepth: nat)
    requires es != []
    ensures TallyAll(v, path, depth, es, maxDepth)
         == EntryTally(v, path, depth, es[0], maxDepth).Plus(TallyAll(v, path, depth, es[1..], maxDepth))
  {
  }

  lemma EntryPruned(v: View, path: Str, depth: nat, e: Entry, maxDepth: nat)
    requires v.sensitive(Under(path, e.name)) || !Shown(e)
    ensures EntryTally(v, path, depth, e, maxDepth) == PRUNED
  {
  }

  lemma EntryFound(v: View, path: Str, depth: nat, e: Entry, maxDepth: nat)
    requires !v.sensitive(Under(path, e.name)) && Shown(e)
    ensures EntryTally(v, path, depth, e, maxDepth)
         == One(Under(path, e.name), depth + 1).Plus(
              if e.Dir? && depth + 1 < maxDepth then ListingTally(v, Under(path, e.name), depth + 1, e.listing, maxDepth)
              else NOTHING)
  {
  }

  lemma CutHere(result: Tally, waiting: Tally, entry: Tally, rest: Tally)
    requires entry.visits >= 1
    ensures result.Within(result.Plus(waiting).Plus(entry.Plus(rest)))
    ensures result.Plus(waiting).Plus(entry.Plus(rest)).visits > result.visits
  {
  }

  lemma ChildrenTally(v: View, path: Str, depth: nat, listing: Listing, maxDepth: nat)
    requires listing.Children?
    ensures ListingTally(v, path, depth, listing, maxDepth) == TallyAll(v, path, depth, listing.entries, maxDepth)
  {
  }

  // ---- both things happen at the cap ----

  function FileAt(n: nat): Entry { Plain(seq(n, _ => 0x62), true) }

  function Files(n: nat): seq<Entry> {
    if n == 0 then [] else Files(n - 1) + [FileAt(n)]
  }

  lemma {:induction false} TallyAppend(v: View, path: Str, depth: nat, a: seq<Entry>, b: seq<Entry>, maxDepth: nat)
    ensures TallyAll(v, path, depth, a + b, maxDepth).visits
         == TallyAll(v, path, depth, a, maxDepth).visits + TallyAll(v, path, depth, b, maxDepth).visits
    decreases |a|
  {
    hide EntryTally;
    if a == [] {
      assert a + b == b;
    } else {
      assert (a + b)[1..] == a[1..] + b;
      TallyAppend(v, path, depth, a[1..], b, maxDepth);
    }
  }

  lemma {:induction false} FilesVisits(v: View, path: Str, n: nat, maxDepth: nat)
    ensures TallyAll(v, path, 0, Files(n), maxDepth).visits == n && |Files(n)| == n
    ensures forall e | e in Files(n) :: e.Plain?
  {
    if n == 0 {
    } else {
      hide FileAt, TallyAll;
      FilesVisits(v, path, n - 1, maxDepth);
      TallyAppend(v, path, 0, Files(n - 1), [FileAt(n)], maxDepth);
      FileVisits(v, path, n, maxDepth);
    }
  }

  lemma FileVisits(v: View, path: Str, n: nat, maxDepth: nat)
    ensures FileAt(n).Plain? && TallyAll(v, path, 0, [FileAt(n)], maxDepth).visits == 1
  {
    assert [FileAt(n)][1..] == [];
  }

  lemma LastAmongFiles(v: View, start: Str, es: seq<Entry>, maxDepth: nat)
    requires forall e | e in es :: e.Plain?
    ensures LastOpened(v, start, 0, Children(es), maxDepth) == Children(es)
  {
    hide Insert;
    var sorted := Sort(es, NameKey());
    var first := FirstDescended(v, start, 0, sorted, maxDepth);
    forall e | e in sorted ensures !e.Dir? {
      assert e in multiset(sorted);
      assert e in es;
    }
    assert first.None?;
  }

  lemma LastAmongFilesAndOne(v: View, start: Str, es: seq<Entry>, name: Str, maxDepth: nat)
    requires (forall e | e in es :: e.Plain?) && maxDepth > 1 && !v.sensitive(Under(start, name))
    ensures LastOpened(v, start, 0, Children([Dir(name, Children([]))] + es), maxDepth) == Children([])
  {
    hide Insert;
    var d := Dir(name, Children([]));
    var all := [d] + es;
    var sorted := Sort(all, NameKey());
    assert d in multiset(sorted);
    var first := FirstDescended(v, start, 0, sorted, maxDepth);
    assert d in sorted && Descends(v, start, 0, d, maxDepth);
    assert first.value in multiset(sorted);
    assert first.value in all && first.value == d;
    LastAmongFiles(v, Under(start, name), [], maxDepth);
    EmptyIsLast(v, Under(start, name), 1, maxDepth);
  }

  lemma EmptyIsLast(v: View, path: Str, depth: nat, maxDepth: nat)
    ensures LastOpened(v, path, depth, Children([]), maxDepth) == Children([])
  {
    assert Sort<Entry>([], NameKey()) == [];
  }

  /**
   * Two trees with as many entries as the cap: 2000 files, where the walk is not cut, and 1999
   * files with one empty directory, where it is, although nothing is missing.
   */
  lemma BothHappenAtTheCap(v: View, start: Str, maxDepth: nat)
    requires maxDepth > 1 && !v.sensitive(Under(start, [0x61]))
    ensures var files, mixed := Children(Files(2000)), Children([Dir([0x61], Children([]))] + Files(1999));
            && Reference(v, start, files, maxDepth).visits == 2000 && !CutOff(v, start, files, maxDepth)
            && Reference(v, start, mixed, maxDepth).visits == 2000 && CutOff(v, start, mixed, maxDepth)
  {
    hide Files, LastOpened, TallyAll, Bare;
    var d := [Dir([0x61], Children([]))];
    FilesVisits(v, start, MAX_VISITED, maxDepth);
    FilesVisits(v, start, MAX_VISITED - 1, maxDepth);
    LastAmongFiles(v, start, Files(MAX_VISITED), maxDepth);
    LastAmongFilesAndOne(v, start, Files(MAX_VISITED - 1), [0x61], maxDepth);
    TallyAppend(v, start, 0, d, Files(MAX_VISITED - 1), maxDepth);
    EmptyDirectoryVisits(v, start, maxDepth);
    ChildrenTally(v, start, 0, Children(Files(MAX_VISITED)), maxDepth);
    ChildrenTally(v, start, 0, Children(d + Files(MAX_VISITED - 1)), maxDepth);
    BareOnlyWhenEmpty(Files(MAX_VISITED));
    BareOnlyWhenEmpty([]);
  }

  lemma BareOnlyWhenEmpty(es: seq<Entry>)
    ensures Bare(Children(es)) <==> es == []
  {
  }

  lemma EmptyDirectoryVisits(v: View, start: Str, maxDepth: nat)
    ensures TallyAll(v, start, 0, [Dir([0x61], Children([]))], maxDepth).visits == 1
  {
    var d := Dir([0x61], Children([]));
    assert [d][1..] == [];
    assert ListingTally(v, Under(start, d.name), 1, d.listing, maxDepth).visits == 0;
  }
}
