/** readTree of src/executor/adapters/fs-search.ts: a recursive listing that shares one node counter. */
module TreeListing {
  import opened Text
  import opened Sequences
  import opened Sorting
  import opened Discovery

  const MAX_TREE_DEPTH: nat := 6
  const MAX_TREE_NODES: nat := 300

  datatype NodeKind = File | Directory | Symlink | Other

  datatype Node = Node(name: Str, kind: NodeKind, children: seq<Node>)

  // ---- the reference: the complete forest in preorder, each node with its depth ----

  datatype Item = Item(depth: nat, name: Str, kind: NodeKind)

  /** `deeper` says that the depth limit cut off some content. */
  datatype Survey = Survey(items: seq<Item>, pruned: nat, deeper: bool) {
    function Plus(s: Survey): Survey { Survey(items + s.items, pruned + s.pruned, deeper || s.deeper) }
  }

  const NONE := Survey([], 0, false)

  predicate Listed(v: View, path: Str, e: Entry) {
    && !v.sensitive(Under(path, e.name))
    && (e.Link? ==> e.target.ToDirectory? || e.target.ToLeaf?)
    && (e.Plain? ==> v.contained(Under(path, e.name)))
  }

  function KindOf(e: Entry): NodeKind {
    match e
    case Link(_, _) => Symlink
    case Dir(_, _) => Directory
    case Plain(_, isFile) => if isFile then File else Other
  }

  function SurveyEntry(v: View, path: Str, depth: nat, e: Entry): Survey
    decreases e
  {
    if !Listed(v, path, e) then Survey([], 1, false)
    else
      Survey([Item(depth, e.name, KindOf(e))], 0, false).Plus(
        if !e.Dir? then NONE
        else if depth + 1 < MAX_TREE_DEPTH then SurveyListing(v, Under(path, e.name), depth + 1, e.listing)
        else if e.listing.Unreadable? then Survey([], 1, false)
        else Survey([], 0, e.listing.entries != []))
  }

  function SurveyListing(v: View, path: Str, depth: nat, listing: Listing): Survey
    decreases listing, 1
  {
    if listing.Unreadable? then Survey([], 1, false)
    else SurveyAll(v, path, depth, listing, Sort(listing.entries, NameKey()))
  }

  function SurveyAll(v: View, path: Str, depth: nat, whole: Listing, es: seq<Entry>): Survey
    requires whole.Children? && forall e | e in es :: e in multiset(whole.entries)
    decreases whole, 0, |es|
  {
    if es == [] then NONE
    else
      assert es[0] in es;
      SurveyEntry(v, path, depth, es[0]).Plus(SurveyAll(v, path, depth, whole, es[1..]))
  }

  // ---- the builder ----

  function Flatten(nodes: seq<Node>, depth: nat): seq<Item> {
    if nodes == [] then []
    else
      var last := nodes[|nodes| - 1];
      Flatten(nodes[..|nodes| - 1], depth) + [Item(depth, last.name, last.kind)] + Flatten(last.children, depth + 1)
  }

  lemma FlattenPush(nodes: seq<Node>, node: Node, depth: nat)
    ensures Flatten(nodes + [node], depth)
         == Flatten(nodes, depth) + ([Item(depth, node.name, node.kind)] + Flatten(node.children, depth + 1))
  {
    assert (nodes + [node])[..|nodes|] == nodes;
  }

  datatype Counters = Counters(nodes: nat, pruned: nat, truncated: bool)

  /**
   * What some part of the walk did, against what there is to list: it listed as much as the node
   * budget allowed, in preorder, and the flag tells when anything may be missing.
   */
  predicate Covers(before: Counters, after: Counters, items: seq<Item>, s: Survey)
    requires before.nodes <= MAX_TREE_NODES
  {
    var budget := MAX_TREE_NODES - before.nodes;
    && after.nodes == before.nodes + |items| <= MAX_TREE_NODES
    && items == Take(s.items, budget)
    && (before.truncated || |s.items| > budget ==> after.truncated)
    && (!after.truncated ==> after.pruned == before.pruned + s.pruned && !s.deeper)
    && (after.truncated ==> before.truncated || s.deeper || |s.items| >= budget)
  }

  lemma CoversBound(a: Counters, b: Counters, i: seq<Item>, s: Survey)
    requires a.nodes <= MAX_TREE_NODES && Covers(a, b, i, s)
    ensures b.nodes <= MAX_TREE_NODES
  {
  }

  lemma CoversBoth(a: Counters, b: Counters, c: Counters, i: seq<Item>, j: seq<Item>, s: Survey, t: Survey)
    requires a.nodes <= MAX_TREE_NODES && Covers(a, b, i, s) && Covers(b, c, j, t)
    ensures Covers(a, c, i + j, s.Plus(t))
  {
  }

  lemma CoversNothing(c: Counters)
    requires c.nodes <= MAX_TREE_NODES
    ensures Covers(c, c, [], NONE)
  {
  }

  lemma CoversPruned(c: Counters)
    requires c.nodes <= MAX_TREE_NODES
    ensures Covers(c, c.(pruned := c.pruned + 1), [], Survey([], 1, false))
  {
  }

  lemma CoversDeeper(c: Counters)
    requires c.nodes <= MAX_TREE_NODES
    ensures Covers(c, c.(truncated := true), [], Survey([], 0, true))
  {
  }

  lemma CoversNode(c: Counters, item: Item)
    requires c.nodes < MAX_TREE_NODES
    ensures Covers(c, c.(nodes := c.nodes + 1), [item], Survey([item], 0, false))
  {
  }

  /** With the budget used up the loop stops, whatever is left. */
  lemma CoversCut(c: Counters, s: Survey)
    requires c.nodes == MAX_TREE_NODES
    ensures Covers(c, c.(truncated := true), [], s)
  {
  }

  lemma Reassociate(a: Survey, b: Survey, c: Survey)
    ensures a.Plus(b).Plus(c) == a.Plus(b.Plus(c))
    ensures a.Plus(NONE) == a == NONE.Plus(a)
  {
    assert a.items + b.items + c.items == a.items + (b.items + c.items);
  }

  lemma SurveyFirst(v: View, path: Str, depth: nat, whole: Listing, es: seq<Entry>)
    requires whole.Children? && es != [] && forall e | e in es :: e in multiset(whole.entries)
    ensures SurveyAll(v, path, depth, whole, es) == SurveyEntry(v, path, depth, es[0]).Plus(SurveyAll(v, path, depth, whole, es[1..]))
  {
    assert es[0] in es;
  }

  lemma SurveyNone(v: View, path: Str, depth: nat, whole: Listing)
    requires whole.Children?
    ensures SurveyAll(v, path, depth, whole, []) == NONE
    ensures Flatten([], depth) == []
  {
  }

  lemma SurveyChildren(v: View, path: Str, depth: nat, listing: Listing)
    requires listing.Children?
    ensures var es := Sort(listing.entries, NameKey());
            && (forall e | e in es :: e in multiset(listing.entries))
            && SurveyListing(v, path, depth, listing) == SurveyAll(v, path, depth, listing, es)
  {
    var es := Sort(listing.entries, NameKey());
    assert forall e | e in es :: e in multiset(es);
  }

  /** What a listed entry adds behind its own node. */
  function SurveyBelow(v: View, path: Str, depth: nat, e: Entry): Survey {
    if !e.Dir? then NONE
    else if depth + 1 < MAX_TREE_DEPTH then SurveyListing(v, Under(path, e.name), depth + 1, e.listing)
    else if e.listing.Unreadable? then Survey([], 1, false)
    else Survey([], 0, e.listing.entries != [])
  }

  lemma SurveyListed(v: View, path: Str, depth: nat, e: Entry)
    ensures SurveyEntry(v, path, depth, e) ==
              if Listed(v, path, e) then
                Survey([Item(depth, e.name, KindOf(e))], 0, false).Plus(SurveyBelow(v, path, depth, e))
              else Survey([], 1, false)
  {
  }

  class TreeBuilder {
    const view: View
    var nodeCount: nat
    var pruned: nat
    var truncated: bool

    constructor (view: View)
      ensures this.view == view && Now() == Counters(0, 0, false)
    {
      this.view, nodeCount, pruned, truncated := view, 0, 0, false;
    }

    function Now(): Counters
      reads this
    {
      Counters(nodeCount, pruned, truncated)
    }

    /** The inner function `build`. */
    method Build(path: Str, depth: nat, listing: Listing) returns (out: seq<Node>)
      requires nodeCount <= MAX_TREE_NODES && depth < MAX_TREE_DEPTH
      modifies this
      ensures nodeCount <= MAX_TREE_NODES
      ensures Covers(old(Now()), Now(), Flatten(out, depth), SurveyListing(view, path, depth, listing))
      decreases listing, 1
    {
      hide Covers, SurveyAll, SurveyEntry, Flatten, Survey.Plus, Sort;
      out := [];
      ghost var start, done := Now(), NONE;
      if listing.Unreadable? {
        pruned := pruned + 1;
        CoversPruned(start);
        SurveyNone(view, path, depth, Children([]));
        return;
      }
      hide SurveyListing;
      var dirents := Sort(listing.entries, NameKey());
      SurveyChildren(view, path, depth, listing);
      SurveyNone(view, path, depth, listing);
      CoversNothing(start);
      assert dirents[0..] == dirents;
      Reassociate(SurveyAll(view, path, depth, listing, dirents), NONE, NONE);
      for k := 0 to |dirents|
        invariant start.nodes <= MAX_TREE_NODES && nodeCount <= MAX_TREE_NODES
        invariant Covers(start, Now(), Flatten(out, depth), done)
        invariant done.Plus(SurveyAll(view, path, depth, listing, dirents[k..])) == SurveyListing(view, path, depth, listing)
      {
        var d := dirents[k];
        ghost var before, rest := Now(), SurveyAll(view, path, depth, listing, dirents[k + 1..]);
        if nodeCount >= MAX_TREE_NODES {
          truncated := true;
          CoversCut(before, SurveyAll(view, path, depth, listing, dirents[k..]));
          CoversBoth(start, before, Now(), Flatten(out, depth), [], done, SurveyAll(view, path, depth, listing, dirents[k..]));
          assert Flatten(out, depth) + [] == Flatten(out, depth);
          return;
        }
        assert d in multiset(listing.entries);
        ghost var flat := Flatten(out, depth);
        out := ListEntry(path, depth, listing, d, out);
        ghost var now := SurveyEntry(view, path, depth, d);
        assert dirents[k..][1..] == dirents[k + 1..];
        SurveyFirst(view, path, depth, listing, dirents[k..]);
        Reassociate(done, now, rest);
        CoversBoth(start, before, Now(), flat, Flatten(out, depth)[|flat|..], done, now);
        assert flat + Flatten(out, depth)[|flat|..] == Flatten(out, depth);
        done := done.Plus(now);
      }
      assert dirents[|dirents|..] == [];
      Reassociate(done, NONE, NONE);
    }

    /** One round of the loop in `build`. */
    method ListEntry(path: Str, depth: nat, whole: Listing, d: Entry, out0: seq<Node>) returns (out: seq<Node>)
      requires nodeCount < MAX_TREE_NODES && depth < MAX_TREE_DEPTH
      requires whole.Children? && d in whole.entries
      modifies this
      ensures Flatten(out0, depth) <= Flatten(out, depth)
      ensures nodeCount <= MAX_TREE_NODES
      ensures Covers(old(Now()), Now(), Flatten(out, depth)[|Flatten(out0, depth)|..], SurveyEntry(view, path, depth, d))
      decreases whole, 0
    {
      hide Covers, SurveyListing, SurveyEntry, Flatten, Survey.Plus;
      out := out0;
      ghost var before := Now();
      SurveyListed(view, path, depth, d);
      SurveyNone(view, path, depth + 1, whole);
      var full := Under(path, d.name);
      if !Listed(view, path, d) {
        pruned := pruned + 1;
        CoversPruned(before);
        assert Flatten(out, depth)[|Flatten(out0, depth)|..] == [];
        return;
      }
      nodeCount := nodeCount + 1;
      ghost var mid := Now();
      ghost var item := Item(depth, d.name, KindOf(d));
      CoversNode(before, item);
      CoversNothing(mid);
      CoversPruned(mid);
      CoversDeeper(mid);
      var children: seq<Node> := [];
      if d.Dir? {
        if depth + 1 < MAX_TREE_DEPTH {
          children := Build(full, depth + 1, d.listing);
        } else if d.listing.Unreadable? {
          pruned := pruned + 1;
        } else if d.listing.entries != [] {
          truncated := true;
        }
      }
      CoversBoth(before, mid, Now(), [item], Flatten(children, depth + 1),
                 Survey([item], 0, false), SurveyBelow(view, path, depth, d));
      CoversBound(before, Now(), [item] + Flatten(children, depth + 1), SurveyEntry(view, path, depth, d));
      var node := Node(d.name, KindOf(d), children);
      FlattenPush(out0, node, depth);
      out := out0 + [node];
    }
  }

  /**
   * readTree. The forest is the first MAX_TREE_NODES nodes of the complete one in preorder; when
   * it is not called truncated it is the complete one, and nothing lies below the depth limit.
   */
  method ReadTree(v: View, start: Str, listing: Listing) returns (nodes: seq<Node>, pruned: nat, truncated: bool)
    ensures Flatten(nodes, 0) == Take(SurveyListing(v, start, 0, listing).items, MAX_TREE_NODES)
    ensures |SurveyListing(v, start, 0, listing).items| > MAX_TREE_NODES ==> truncated
    ensures !truncated ==>
              && Flatten(nodes, 0) == SurveyListing(v, start, 0, listing).items
              && pruned == SurveyListing(v, start, 0, listing).pruned && !SurveyListing(v, start, 0, listing).deeper
    ensures truncated ==>
              SurveyListing(v, start, 0, listing).deeper || |SurveyListing(v, start, 0, listing).items| >= MAX_TREE_NODES
  {
    hide SurveyListing, Flatten;
    var builder := new TreeBuilder(v);
    nodes := builder.Build(start, 0, listing);
    pruned, truncated := builder.pruned, builder.truncated;
  }

  lemma {:induction false} FlattenDepths(nodes: seq<Node>, depth: nat)
    ensures forall i | i in Flatten(nodes, depth) :: i.depth >= depth
    decreases nodes
  {
    if nodes == [] {
    } else {
      FlattenDepths(nodes[..|nodes| - 1], depth);
      FlattenDepths(nodes[|nodes| - 1].children, depth + 1);
    }
  }

  lemma FlattenLast(nodes: seq<Node>, depth: nat)
    ensures nodes == [] <==> Flatten(nodes, depth) == []
    ensures nodes != [] ==>
              var last := nodes[|nodes| - 1];
              Flatten(nodes, depth)
              == Flatten(nodes[..|nodes| - 1], depth) + [Item(depth, last.name, last.kind)] + Flatten(last.children, depth + 1)
  {
  }

  /** A forest is determined by its preorder with depths, so the contract of ReadTree fixes the result. */
  lemma {:induction false} FlattenInjective(a: seq<Node>, b: seq<Node>, depth: nat)
    requires Flatten(a, depth) == Flatten(b, depth)
    ensures a == b
    decreases a
  {
    hide Flatten;
    FlattenLast(a, depth);
    FlattenLast(b, depth);
    if a != [] && b != [] {
      var x, y := a[|a| - 1], b[|b| - 1];
      var a', b' := a[..|a| - 1], b[..|b| - 1];
      LastNode(Flatten(a', depth), Item(depth, x.name, x.kind), Flatten(x.children, depth + 1),
               Flatten(b', depth), Item(depth, y.name, y.kind), Flatten(y.children, depth + 1)) by {
        FlattenDepths(x.children, depth + 1);
        FlattenDepths(y.children, depth + 1);
      }
      FlattenInjective(a', b', depth);
      FlattenInjective(x.children, y.children, depth + 1);
      assert a == a' + [x] && b == b' + [y];
    }
  }

  lemma LaterIsBelow(p: seq<Item>, x: Item, s: seq<Item>, q: seq<Item>, y: Item, t: seq<Item>)
    requires p + [x] + s == q + [y] + t
    ensures |p| > |q| ==> x in t
  {
    if |p| > |q| {
      assert (p + [x] + s)[|p|] == x && (q + [y] + t)[|p|] == t[|p| - |q| - 1];
    }
  }

  /** The last item at its depth splits a list in one way only. */
  lemma LastNode(p: seq<Item>, x: Item, s: seq<Item>, q: seq<Item>, y: Item, t: seq<Item>)
    requires p + [x] + s == q + [y] + t && x.depth == y.depth
    requires (forall i | i in s :: i.depth > x.depth) && (forall i | i in t :: i.depth > y.depth)
    ensures p == q && x == y && s == t
  {
    var all := p + [x] + s;
    LaterIsBelow(p, x, s, q, y, t);
    LaterIsBelow(q, y, t, p, x, s);
    assert all[|p|] == x && all[|q|] == y;
    assert p == all[..|p|] && q == all[..|q|] && s == all[|p| + 1..] && t == all[|q| + 1..];
  }

  /** No node of the complete listing is deeper than the limit or sensitive. */
  lemma {:induction false} SurveyDepths(v: View, path: Str, depth: nat, listing: Listing)
    requires depth < MAX_TREE_DEPTH
    ensures forall i | i in SurveyListing(v, path, depth, listing).items :: depth <= i.depth < 6
    decreases listing, 1
  {
    if listing.Children? {
      SurveyChildren(v, path, depth, listing);
      SurveyDepthsAll(v, path, depth, listing, Sort(listing.entries, NameKey()));
    }
  }

  lemma {:induction false} SurveyDepthsAll(v: View, path: Str, depth: nat, whole: Listing, es: seq<Entry>)
    requires depth < MAX_TREE_DEPTH && whole.Children? && forall e | e in es :: e in multiset(whole.entries)
    ensures forall i | i in SurveyAll(v, path, depth, whole, es).items :: depth <= i.depth < MAX_TREE_DEPTH
    decreases whole, 0, |es|
  {
    if es == [] {
    } else {
      var e := es[0];
      assert e in es;
      SurveyFirst(v, path, depth, whole, es);
      if e.Dir? && depth + 1 < MAX_TREE_DEPTH {
        SurveyDepths(v, Under(path, e.name), depth + 1, e.listing);
      }
      SurveyDepthsAll(v, path, depth, whole, es[1..]);
    }
  }

  // ---- what the listing shows, route by route ----

  /**
   * A route through readable directories that are not sensitive, at most six levels deep, to an
   * entry that is listed as this kind: a contained file or other plain entry, a directory, or a
   * link that leads to something inside the root that is not sensitive.
   */
  predicate TreeRoute(v: View, path: Str, depth: nat, listing: Listing, names: seq<Str>, kind: NodeKind)
    decreases |names|, 1
  {
    && names != [] && listing.Children?
    && exists e | e in listing.entries :: TreeRouteBy(v, path, depth, e, names, kind)
  }

  predicate TreeRouteBy(v: View, path: Str, depth: nat, e: Entry, names: seq<Str>, kind: NodeKind)
    requires names != []
    decreases |names|, 0
  {
    && e.name == names[0] && !v.sensitive(Under(path, e.name))
    && if |names| == 1 then
         match e
         case Plain(_, isFile) => v.contained(Under(path, e.name)) && kind == if isFile then File else Other
         case Link(_, target) => target in {ToDirectory, ToLeaf} && kind == Symlink
         case Dir(_, _) => kind == Directory
       else e.Dir? && depth + 1 < 6 && TreeRoute(v, Under(path, e.name), depth + 1, e.listing, names[1..], kind)
  }

  lemma SurveyHas(v: View, path: Str, depth: nat, e: Entry, i: Item)
    ensures i in SurveyEntry(v, path, depth, e).items <==>
              && Listed(v, path, e)
              && (i == Item(depth, e.name, KindOf(e)) || i in SurveyBelow(v, path, depth, e).items)
  {
    hide SurveyListing, Listed, KindOf;
  }

  lemma {:induction false} SurveyAllHas(v: View, path: Str, depth: nat, whole: Listing, es: seq<Entry>, i: Item)
    requires whole.Children? && forall e | e in es :: e in multiset(whole.entries)
    ensures i in SurveyAll(v, path, depth, whole, es).items <==> exists e | e in es :: i in SurveyEntry(v, path, depth, e).items
    decreases |es|
  {
    hide SurveyEntry;
    if es == [] {
    } else {
      SurveyFirst(v, path, depth, whole, es);
      SurveyAllHas(v, path, depth, whole, es[1..], i);
      assert es == [es[0]] + es[1..];
    }
  }

  lemma SurveyListingHas(v: View, path: Str, depth: nat, listing: Listing, i: Item)
    requires listing.Children?
    ensures i in SurveyListing(v, path, depth, listing).items <==> exists e | e in listing.entries :: i in SurveyEntry(v, path, depth, e).items
  {
    hide SurveyAll, SurveyListing, SurveyEntry, Sort;
    var es := Sort(listing.entries, NameKey());
    SurveyChildren(v, path, depth, listing);
    SurveyAllHas(v, path, depth, listing, es, i);
    assert forall e :: e in es <==> e in multiset(es);
  }

  /** A node with its depth and kind is in the complete listing exactly when a route leads to such an entry at this level. */
  lemma {:induction false} ItemsExactly(v: View, path: Str, depth: nat, listing: Listing, i: Item)
    requires depth < MAX_TREE_DEPTH
    ensures i in SurveyListing(v, path, depth, listing).items <==>
              exists names :: names != [] && TreeRoute(v, path, depth, listing, names, i.kind) && LeadsTo(names, depth, i)
    decreases listing
  {
    hide SurveyListing, SurveyEntry;
    if listing.Children? {
      SurveyListingHas(v, path, depth, listing, i);
      forall e | e in listing.entries
        ensures i in SurveyEntry(v, path, depth, e).items <==>
                  exists names :: names != [] && TreeRouteBy(v, path, depth, e, names, i.kind) && LeadsTo(names, depth, i)
      {
        EntryItemsExactly(v, path, depth, e, i);
      }
    } else {
      SurveyUnreadable(v, path, depth);
    }
  }

  lemma SurveyUnreadable(v: View, path: Str, depth: nat)
    ensures SurveyListing(v, path, depth, Unreadable).items == []
  {
  }

  predicate LeadsTo(names: seq<Str>, depth: nat, i: Item) {
    names != [] && i.name == names[|names| - 1] && i.depth == depth + |names| - 1
  }

  /** A route below a directory, put behind the directory's own name. */
  lemma RouteBelow(v: View, path: Str, depth: nat, e: Entry, names: seq<Str>, i: Item)
    requires names != []
    ensures var all := [e.name] + names;
            && (LeadsTo(all, depth, i) <==> LeadsTo(names, depth + 1, i))
            && (TreeRouteBy(v, path, depth, e, all, i.kind) <==>
                  && !v.sensitive(Under(path, e.name)) && e.Dir? && depth + 1 < MAX_TREE_DEPTH
                  && TreeRoute(v, Under(path, e.name), depth + 1, e.listing, names, i.kind))
  {
    hide TreeRoute;
    assert ([e.name] + names)[1..] == names;
  }

  lemma RouteHere(v: View, path: Str, depth: nat, e: Entry, i: Item)
    ensures TreeRouteBy(v, path, depth, e, [e.name], i.kind) && LeadsTo([e.name], depth, i) <==>
              Listed(v, path, e) && i == Item(depth, e.name, KindOf(e))
  {
    hide TreeRoute;
  }

  lemma {:induction false} EntryItemsExactly(v: View, path: Str, depth: nat, e: Entry, i: Item)
    requires depth < MAX_TREE_DEPTH
    ensures i in SurveyEntry(v, path, depth, e).items <==>
              exists names :: names != [] && TreeRouteBy(v, path, depth, e, names, i.kind) && LeadsTo(names, depth, i)
    decreases e
  {
    hide SurveyListing, SurveyEntry, TreeRoute, TreeRouteBy, Listed, KindOf;
    SurveyHas(v, path, depth, e, i);
    RouteHere(v, path, depth, e, i);
    var full := Under(path, e.name);
    if e.Dir? && depth + 1 < MAX_TREE_DEPTH {
      ItemsExactly(v, full, depth + 1, e.listing, i);
      if i in SurveyListing(v, full, depth + 1, e.listing).items && Listed(v, path, e) {
        var below :| below != [] && TreeRoute(v, full, depth + 1, e.listing, below, i.kind) && LeadsTo(below, depth + 1, i);
        RouteBelow(v, path, depth, e, below, i);
        ListedIsOpen(v, path, e);
        assert TreeRouteBy(v, path, depth, e, [e.name] + below, i.kind);
      }
    }
    forall names | names != [] && TreeRouteBy(v, path, depth, e, names, i.kind) && LeadsTo(names, depth, i)
      ensures i in SurveyEntry(v, path, depth, e).items
    {
      RouteStarts(v, path, depth, e, names, i.kind);
      if |names| == 1 {
        assert names == [e.name];
      } else {
        assert names == [e.name] + names[1..];
        RouteBelow(v, path, depth, e, names[1..], i);
        ListedIsOpen(v, path, e);
      }
    }
  }

  lemma ListedIsOpen(v: View, path: Str, e: Entry)
    requires e.Dir?
    ensures Listed(v, path, e) <==> !v.sensitive(Under(path, e.name))
  {
  }

  lemma RouteStarts(v: View, path: Str, depth: nat, e: Entry, names: seq<Str>, kind: NodeKind)
    requires names != [] && TreeRouteBy(v, path, depth, e, names, kind)
    ensures names[0] == e.name
  {
    hide TreeRoute;
  }

  /** A route through directories that are not sensitive down to one at the depth limit that has entries. */
  predicate DeepRoute(v: View, path: Str, depth: nat, listing: Listing, names: seq<Str>)
    decreases |names|, 1
  {
    && names != [] && listing.Children?
    && exists e | e in listing.entries :: DeepRouteBy(v, path, depth, e, names)
  }

  predicate DeepRouteBy(v: View, path: Str, depth: nat, e: Entry, names: seq<Str>)
    requires names != []
    decreases |names|, 0
  {
    && e.name == names[0] && !v.sensitive(Under(path, e.name)) && e.Dir?
    && if |names| == 1 then depth + 1 == 6 && e.listing.Children? && e.listing.entries != []
       else depth + 1 < 6 && DeepRoute(v, Under(path, e.name), depth + 1, e.listing, names[1..])
  }

  lemma {:induction false} DeeperAll(v: View, path: Str, depth: nat, whole: Listing, es: seq<Entry>)
    requires whole.Children? && forall e | e in es :: e in multiset(whole.entries)
    ensures SurveyAll(v, path, depth, whole, es).deeper <==> exists e | e in es :: SurveyEntry(v, path, depth, e).deeper
    decreases |es|
  {
    hide SurveyEntry;
    if es == [] {
    } else {
      SurveyFirst(v, path, depth, whole, es);
      DeeperAll(v, path, depth, whole, es[1..]);
      assert es == [es[0]] + es[1..];
    }
  }

  lemma DeeperListing(v: View, path: Str, depth: nat, listing: Listing)
    requires listing.Children?
    ensures SurveyListing(v, path, depth, listing).deeper <==> exists e | e in listing.entries :: SurveyEntry(v, path, depth, e).deeper
  {
    hide SurveyAll, SurveyListing, SurveyEntry, Sort;
    var es := Sort(listing.entries, NameKey());
    SurveyChildren(v, path, depth, listing);
    DeeperAll(v, path, depth, listing, es);
    assert forall e :: e in es <==> e in multiset(es);
  }

  /** The complete listing says that something lies deeper exactly when a directory at the depth limit has entries. */
  lemma {:induction false} DeeperExactly(v: View, path: Str, depth: nat, listing: Listing)
    requires depth < MAX_TREE_DEPTH
    ensures SurveyListing(v, path, depth, listing).deeper <==> exists names :: DeepRoute(v, path, depth, listing, names)
    decreases listing
  {
    hide SurveyListing, SurveyEntry, DeepRouteBy;
    if listing.Children? {
      DeeperListing(v, path, depth, listing);
      forall e | e in listing.entries
        ensures SurveyEntry(v, path, depth, e).deeper <==> exists names :: names != [] && DeepRouteBy(v, path, depth, e, names)
      {
        EntryDeeperExactly(v, path, depth, e);
      }
      forall names | DeepRoute(v, path, depth, listing, names) ensures SurveyListing(v, path, depth, listing).deeper {
        var e :| e in listing.entries && DeepRouteBy(v, path, depth, e, names);
      }
      if SurveyListing(v, path, depth, listing).deeper {
        var e :| e in listing.entries && SurveyEntry(v, path, depth, e).deeper;
        var names :| names != [] && DeepRouteBy(v, path, depth, e, names);
        assert DeepRoute(v, path, depth, listing, names);
      }
    } else {
      NothingDeeper(v, path, depth);
    }
  }

  lemma NothingDeeper(v: View, path: Str, depth: nat)
    ensures !SurveyListing(v, path, depth, Unreadable).deeper
  {
  }

  lemma DeeperHere(v: View, path: Str, depth: nat, e: Entry)
    requires depth < MAX_TREE_DEPTH
    ensures SurveyEntry(v, path, depth, e).deeper <==>
              && e.Dir? && !v.sensitive(Under(path, e.name))
              && if depth + 1 < MAX_TREE_DEPTH then SurveyListing(v, Under(path, e.name), depth + 1, e.listing).deeper
                 else e.listing.Children? && e.listing.entries != []
  {
    hide SurveyListing;
  }

  lemma DeepHere(v: View, path: Str, depth: nat, e: Entry)
    ensures DeepRouteBy(v, path, depth, e, [e.name]) <==>
              !v.sensitive(Under(path, e.name)) && e.Dir? && depth + 1 == MAX_TREE_DEPTH && e.listing.Children? && e.listing.entries != []
  {
    hide DeepRoute;
  }

  lemma DeepBelow(v: View, path: Str, depth: nat, e: Entry, names: seq<Str>)
    requires names != []
    ensures DeepRouteBy(v, path, depth, e, [e.name] + names) <==>
              && !v.sensitive(Under(path, e.name)) && e.Dir? && depth + 1 < MAX_TREE_DEPTH
              && DeepRoute(v, Under(path, e.name), depth + 1, e.listing, names)
  {
    hide DeepRoute;
    assert ([e.name] + names)[1..] == names;
  }

  lemma DeepStarts(v: View, path: Str, depth: nat, e: Entry, names: seq<Str>)
    requires names != [] && DeepRouteBy(v, path, depth, e, names)
    ensures names[0] == e.name
  {
    hide DeepRoute;
  }

  lemma {:induction false} EntryDeeperExactly(v: View, path: Str, depth: nat, e: Entry)
    requires depth < MAX_TREE_DEPTH
    ensures SurveyEntry(v, path, depth, e).deeper <==> exists names :: names != [] && DeepRouteBy(v, path, depth, e, names)
    decreases e
  {
    hide SurveyListing, SurveyEntry, DeepRoute, DeepRouteBy;
    DeeperHere(v, path, depth, e);
    DeepHere(v, path, depth, e);
    var full := Under(path, e.name);
    if e.Dir? && depth + 1 < MAX_TREE_DEPTH {
      DeeperExactly(v, full, depth + 1, e.listing);
    }
    if SurveyEntry(v, path, depth, e).deeper {
      var names := [e.name];
      if depth + 1 < MAX_TREE_DEPTH {
        var below :| DeepRoute(v, full, depth + 1, e.listing, below);
        RouteIsSome(v, full, depth + 1, e.listing, below);
        DeepBelow(v, path, depth, e, below);
        names := [e.name] + below;
      }
      assert names != [] && DeepRouteBy(v, path, depth, e, names);
    }
    forall names | names != [] && DeepRouteBy(v, path, depth, e, names) ensures SurveyEntry(v, path, depth, e).deeper {
      DeepStarts(v, path, depth, e, names);
      if |names| == 1 {
        assert names == [e.name];
      } else {
        assert names == [e.name] + names[1..];
        DeepBelow(v, path, depth, e, names[1..]);
      }
    }
  }

  lemma RouteIsSome(v: View, path: Str, depth: nat, listing: Listing, names: seq<Str>)
    requires DeepRoute(v, path, depth, listing, names)
    ensures names != []
  {
  }
}
