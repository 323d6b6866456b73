/** What the recogniser of fidtrackX.c makes of a finished peeling: candidates, keys and ids. */
module Recognition {
  import opened Options
  import opened Regions
  import opened DepthStrings
  import opened Peeling
  import opened Hanging
  import opened Descent
  import opened Entries
  import opened TreeIdMaps

  /** Only the records of the peeling differ. */
  ghost predicate SameGraph(g: seq<Region>, g': seq<Region>) {
    && |g'| == |g|
    && forall r | 0 <= r < |g| ::
         && g'[r] == g[r].(level := g'[r].level, depth := g'[r].depth, descendentCount := g'[r].descendentCount,
                           childrenVisited := g'[r].childrenVisited, flags := g'[r].flags)
         && g'[r].flags - {LostSymbol} == g[r].flags - {LostSymbol}
  }

  /** Lost symbols are exactly the fuzzy candidates. */
  ghost predicate LostMarked(g: seq<Region>, w: Window) {
    forall r | 0 <= r < |g| :: LostSymbol in g[r].flags <==> Traversed(g, r) && IsFuzzy(w, g[r])
  }

  const FUZZY_NODE_RANGE: int := 2
  const INVALID_FIDUCIAL_ID: int := -1

  /** What a table with the given node counts and depths makes the tracker look for. */
  function WindowFor(minNodeCount: int, maxNodeCount: int, minDepth: int, maxDepth: int): Window {
    var lo := minNodeCount - 1 - FUZZY_NODE_RANGE;
    Window(minNodeCount - 1, maxNodeCount - 1, if lo < 3 then 3 else lo, maxNodeCount - 1 + FUZZY_NODE_RANGE,
           minDepth, maxDepth)
  }

  lemma SizesInNumbers(w: Window, region: Region, minNodes: int, maxNodes: int, minDepth: int, maxDepth: int,
                       n: int, d: int)
    requires w == WindowFor(minNodes, maxNodes, minDepth, maxDepth) && (minNodes <= maxNodes || maxNodes == 0)
    requires region.descendentCount == n - 1 && region.depth == d && n >= 1
    ensures IsCandidate(w, region) <==>
              && minDepth <= d <= maxDepth
              && (minNodes <= n <= maxNodes || (4 <= n && minNodes - 2 <= n <= maxNodes + 1))
    ensures IsFuzzy(w, region) <==>
              && minDepth <= d <= maxDepth && !(minNodes <= n <= maxNodes)
              && 4 <= n && minNodes - 2 <= n <= maxNodes + 1
  {
  }

  /** A peeled tree of n nodes and depth d is recorded if its depth is one of the table and its size
      is one of the table, or at least four, at most two below the smallest and at most one above
      the largest size of the table; only trees of a size of the table are not lost. */
  lemma RecordedInNumbers(g: seq<Region>, w: Window, tr: Trace, minNodes: int, maxNodes: int, minDepth: int,
                          maxDepth: int, r: nat)
    requires w == WindowFor(minNodes, maxNodes, minDepth, maxDepth) && (minNodes <= maxNodes || maxNodes == 0)
    requires Peels(g, w, tr, -1) && r in tr.order && r < |g| && r in tr.tree
    ensures var n, d := Size(tr.tree[r]), Height(tr.tree[r]);
            && (r in Candidates(g, w, tr.order) <==>
                  && minDepth <= d <= maxDepth
                  && (minNodes <= n <= maxNodes || (4 <= n && minNodes - 2 <= n <= maxNodes + 1)))
            && (IsFuzzy(w, g[r]) <==>
                  && minDepth <= d <= maxDepth && !(minNodes <= n <= maxNodes)
                  && 4 <= n && minNodes - 2 <= n <= maxNodes + 1)
  {
    CandidatesIn(g, w, tr.order);
    PeeledCounts(g, w, tr, -1, r);
    assert Size(tr.tree[r]) >= 1;
    hide *;
    SizesInNumbers(w, g[r], minNodes, maxNodes, minDepth, maxDepth, Size(tr.tree[r]), Height(tr.tree[r]));
  }

  /** What is looked up for root r: its colour and the depth string of the tree peeled into
      it, or a lone '0' if the walk down from r stops at once. */
  ghost function Key(g: seq<Region>, tr: Trace, r: nat): Chars
    requires r < |g| && r in tr.tree
  {
    if NotCut(g, tr, r) then Coloured(g[r].colour, tr.tree[r])
    else [if g[r].colour != 0 then WHITE_PREFIX else BLACK_PREFIX, ZERO]
  }

  /** Lost symbols have no id; others have that of the first occurrence of their key. */
  ghost predicate Identified(g: seq<Region>, tr: Trace, trees: seq<Chars>, r: nat, id: int) {
    && r < |g| && r in tr.tree
    && if LostSymbol in g[r].flags then id == INVALID_FIDUCIAL_ID
       else if Key(g, tr, r) in trees then IsFirst(trees, Key(g, tr, r), id)
       else id == INVALID_TREE_ID
  }

  /** Lost and unknown symbols get the id -1.  What is looked up begins with 'b' or 'w' and a '0',
      and there is nothing more of it where the walk down stops at once. */
  lemma IdsInNumbers(g: seq<Region>, tr: Trace, trees: seq<Chars>, r: nat, id: int)
    requires Identified(g, tr, trees, r, id)
    ensures LostSymbol in g[r].flags || Key(g, tr, r) !in trees ==> id == -1
    ensures var key := Key(g, tr, r);
            && |key| >= 2 && key[0] == (if g[r].colour == 0 then 98 else 119) && key[1] == 48
            && (!NotCut(g, tr, r) ==> |key| == 2)
  {
  }

  /** Only adjacency lists were permuted. */
  ghost predicate Sorting(g: seq<Region>, g': seq<Region>) {
    && |g'| == |g|
    && forall r | 0 <= r < |g| ::
         g'[r] == g[r].(adjacent := g'[r].adjacent) && multiset(g'[r].adjacent) == multiset(g[r].adjacent)
  }

  lemma SortingReorders(base: seq<Region>, g: seq<Region>, g': seq<Region>)
    requires Reordered(base, g) && Sorting(g, g')
    ensures Reordered(base, g')
  {
  }

  lemma SortingAt(g: seq<Region>, g': seq<Region>, tr: Trace, r: nat, list: seq<nat>)
    requires Sorting(g, g') && OnlyUnder(g, g', tr, r) && r < |g| && multiset(list) == multiset(g'[r].adjacent)
    ensures var h := g'[r := g'[r].(adjacent := list)]; Sorting(g, h) && OnlyUnder(g, h, tr, r)
  {
    SelfUnder(tr, r);
  }

  lemma SortingUnder(g: seq<Region>, m: seq<Region>, g': seq<Region>, tr: Trace, c: nat, r: nat)
    requires Sorting(g, m) && Sorting(m, g') && OnlyUnder(g, m, tr, r) && OnlyUnder(m, g', tr, c)
    requires c in tr.parent && tr.parent[c] == Some(r) && !Under(tr, r, c) && r < |g|
    ensures Sorting(g, g') && OnlyUnder(g, g', tr, r) && g'[r] == m[r]
  {
    OnlyUnderChild(g, m, g', tr, c, r);
  }

  lemma ChildDepths(g: seq<Region>, m: seq<Region>, tr: Trace, r: nat, c: nat, depth: nat)
    requires Depths(g, tr, r, depth) && Sorting(g, m) && c in tr.parent && tr.parent[c] == Some(r)
    ensures Depths(m, tr, c, depth + 1) && c < |m| && m[c].depth == depth + 1
  {
    DepthsOfChild(g, tr, r, depth, c);
    assert Climbs(tr, c, c, 0);
  }

  /** The entries of the neighbours seen so far, with the strings of the children. */
  ghost predicate Spelt(tr: Trace, r: nat, list: seq<nat>, entries: seq<Entry>, depth: nat) {
    && r in tr.parent && HasTrees(tr, Kids(list, tr.parent[r])) && RegionsOf(entries) == list
    && Somes(entries) == KidStrings(tr, Kids(list, tr.parent[r]), depth + 1)
  }

  lemma NothingSpelt(g: seq<Region>, tr: Trace, r: nat, list: seq<nat>, depth: nat)
    requires r in tr.parent
    ensures Spelt(tr, r, list[..0], [], depth) && Sorting(g, g) && OnlyUnder(g, g, tr, r)
  {
  }

  lemma SpeltNext(tr: Trace, r: nat, list: seq<nat>, i: nat, entries: seq<Entry>, x: Option<Chars>, depth: nat)
    requires i < |list| && Spelt(tr, r, list[..i], entries, depth)
    requires tr.parent[r] != Some(list[i]) ==> list[i] in tr.tree
    requires x == if tr.parent[r] == Some(list[i]) then None else Some(DepthString(tr.tree[list[i]], depth + 1))
    ensures Spelt(tr, r, list[..i + 1], entries + [Entry(list[i], x)], depth)
  {
    hide KidStrings, DepthString;
    assert list[..i + 1] == list[..i] + [list[i]];
    KidsSnoc(list[..i], list[i], tr.parent[r]);
    SomesSnoc(entries, Entry(list[i], x));
    var ks := Kids(list[..i], tr.parent[r]);
    if x.Some? {
      KidStringsSnoc(tr, ks, list[i], depth + 1);
    } else {
      assert ks + [] == ks && Somes(entries) + [] == Somes(entries);
    }
  }

  lemma SpeltAll(tr: Trace, r: nat, list: seq<nat>, entries: seq<Entry>, depth: nat)
    requires Spelt(tr, r, list, entries, depth)
    ensures HasTrees(tr, Kids(list, tr.parent[r])) && RegionsOf(entries) == list
    ensures Somes(entries) == KidStrings(tr, Kids(list, tr.parent[r]), depth + 1)
  {
  }

  lemma SeveralNotCut(base: seq<Region>, g: seq<Region>, tr: Trace, r: nat)
    requires Reordered(base, g) && r < |base| && r in tr.tree && |g[r].adjacent| != 1
    ensures NotCut(base, tr, r) && multiset(g[r].adjacent) == multiset(base[r].adjacent)
  {
    ReorderedMembers(base, g, r);
  }

  lemma SingleString(base: seq<Region>, g: seq<Region>, w: Window, tr: Trace, r: nat, depth: nat)
    requires Reordered(base, g) && r < |base| && r in tr.tree && |g[r].adjacent| == 1
    ensures NotCut(base, tr, r) ==> DepthString(tr.tree[r], depth) == [ZERO + depth]
  {
    ReorderedMembers(base, g, r);
  }

  /** The sorted entries spell the string of the tree peeled into r. */
  lemma SortedString(base: seq<Region>, w: Window, tr: Trace, r: nat, list: seq<nat>, entries: seq<Entry>,
                     sorted: seq<Entry>, depth: nat)
    requires r in tr.parent && r in tr.tree && r < |base|
    requires multiset(list) == multiset(base[r].adjacent) && RegionsOf(entries) == list
    requires HasTrees(tr, Kids(list, tr.parent[r]))
    requires Somes(entries) == KidStrings(tr, Kids(list, tr.parent[r]), depth + 1)
    requires Ordered(sorted) && multiset(sorted) == multiset(entries)
    requires Peels(base, w, tr, -1)
    ensures multiset(RegionsOf(sorted)) == multiset(list)
    ensures DepthString(tr.tree[r], depth) == [ZERO + depth] + Concat(Somes(sorted))
  {
    PeeledFacts(base, w, tr, r);
    hide Peels, Kids, KidStrings, DepthStringCmp;
    var ks, kb := Kids(list, tr.parent[r]), Kids(base[r].adjacent, tr.parent[r]);
    SomesPermuted(sorted, entries);
    KidsPermuted(list, base[r].adjacent, tr.parent[r]);
    KidStringsPermuted(tr, ks, kb, depth + 1);
    SortedConcat(entries, sorted, KidStrings(tr, kb, depth + 1));
    StringOfKids(tr, kb, depth);
  }

  lemma StringOfKids(tr: Trace, ks: seq<nat>, depth: nat)
    requires HasTrees(tr, ks)
    ensures DepthString(Node(Trees(tr, ks)), depth) == [ZERO + depth] + Concat(Sorted(KidStrings(tr, ks, depth + 1)))
  {
  }

  lemma {:induction false} ConcatSnoc(ss: seq<Chars>, s: Chars)
    ensures Concat(ss + [s]) == Concat(ss) + s
  {
    if ss == [] {
      assert [] + [s] == [s] && [s][1..] == [];
    } else {
      ConcatSnoc(ss[1..], s);
      assert (ss + [s])[1..] == ss[1..] + [s];
    }
  }

  /** The window just covers the trees of the table: every tree of the table fits into it. */
  ghost predicate CoversTable(w: Window, trees: seq<Chars>) {
    && w == WindowFor(w.minCount + 1, w.maxCount + 1, w.minDepth, w.maxDepth)
    && CoversCounts(w.minCount + 1, w.maxCount + 1, trees) && CoversDepths(w.minDepth, w.maxDepth, trees)
  }

  /** What find_roots leaves behind. */
  ghost predicate Finished(g0: seq<Region>, g: seq<Region>, w: Window, tr: Trace) {
    Peels(g, w, tr, -1) && Climbed(g, w, tr) && AllStarted(g) && SameGraph(g0, g) && LostMarked(g, w)
  }

  /** The search starts at unflagged leaves only, and it climbs to a region only from a child whose
      tree has fewer nodes and less depth than the largest tree of the table. */
  lemma ClimbsFromSmaller(g0: seq<Region>, g: seq<Region>, w: Window, tr: Trace, maxNodes: int, maxDepth: int, r: nat)
    requires Finished(g0, g, w, tr) && w.maxCount == maxNodes - 1 && w.maxDepth == maxDepth && r in tr.order
    ensures r < |g|
    ensures (|g[r].adjacent| == 1 && g[r].flags !! {Saturated, Fragmented, AdjacentToRoot, Free})
            || exists c :: && c in tr.parent && c in tr.tree && tr.parent[c] == Some(r)
                           && Size(tr.tree[c]) < maxNodes && Height(tr.tree[c]) < maxDepth
  {
    var i :| 0 <= i < |tr.order| && tr.order[i] == r;
    assert Reached(g, w, tr, i, tr.order[i]);
    hide Climbed, LostMarked, AllStarted, SameGraph, Size, Height, Notifies;
    if !IsStart(g, r) {
      PeeledCounts(g, w, tr, -1, tr.order[i - 1]);
    }
  }

  /** It climbs past a region only if that region and all its children reported: none of the
      children was at the border, saturated, or of the largest size and a depth of the table. */
  lemma NothingAboveLargest(g0: seq<Region>, g: seq<Region>, w: Window, tr: Trace, maxNodes: int, minDepth: int,
                            maxDepth: int, r: nat, c: nat)
    requires r in tr.parent && tr.parent[r].Some? && c in tr.parent && tr.parent[c] == Some(r)
    requires w.maxCount == maxNodes - 1 && w.minDepth == minDepth && w.maxDepth == maxDepth
    requires Finished(g0, g, w, tr)
    ensures c in tr.tree && c < |g| && g[c].flags !! {Saturated, AdjacentToRoot, Free}
    ensures !(Size(tr.tree[c]) == maxNodes && minDepth <= Height(tr.tree[c]) <= maxDepth)
  {
    hide *;
    FinishedParts(g0, g, w, tr);
    PeeledCounts(g, w, tr, -1, c);
    ChildNotifies(g, w, tr, r, c);
    NotLargest(w, g[c]);
  }

  lemma FinishedParts(g0: seq<Region>, g: seq<Region>, w: Window, tr: Trace)
    requires Finished(g0, g, w, tr)
    ensures Peels(g, w, tr, -1) && Climbed(g, w, tr)
  {
    hide Peels, Climbed, AllStarted, SameGraph, LostMarked;
  }

  lemma ChildNotifies(g: seq<Region>, w: Window, tr: Trace, r: nat, c: nat)
    requires Climbed(g, w, tr) && r in tr.parent && tr.parent[r].Some? && c in tr.parent && tr.parent[c] == Some(r)
    ensures c < |g| && Notifies(w, g[c])
  {
    hide Notifies, Reached;
    assert ChildrenReport(g, w, tr, r);
  }

  lemma NotLargest(w: Window, region: Region)
    requires Notifies(w, region)
    ensures region.flags !! {Saturated, AdjacentToRoot, Free}
    ensures !(region.descendentCount == w.maxCount && w.minDepth <= region.depth <= w.maxDepth)
  {
  }

  /** The tree t of the table hangs from r, away from p, and the part beyond p has a region
      that is flagged. */
  ghost predicate TreeOfTable(g: seq<Region>, r: nat, p: nat, t: Tree, trees: seq<Chars>) {
    r < |g| && Hangs(g, r, p, t) && FarSideFlagged(g, r, p) && Coloured(g[r].colour, t) in trees
  }

  lemma SameFlag(g: seq<Region>, g': seq<Region>, r: nat, f: Flag)
    requires SameGraph(g, g') && r < |g| && f != LostSymbol
    ensures f in g'[r].flags <==> f in g[r].flags
  {
    assert f in g'[r].flags <==> f in g'[r].flags - {LostSymbol};
    assert f in g[r].flags <==> f in g[r].flags - {LostSymbol};
  }

  lemma {:induction false} HangsStill(g: seq<Region>, g': seq<Region>, r: nat, p: nat, t: Tree)
    requires SameGraph(g, g') && Hangs(g, r, p, t)
    ensures Hangs(g', r, p, t)
    decreases t
  {
    SameFlag(g, g', r, Saturated);
    SameFlag(g, g', r, Fragmented);
    SameFlag(g, g', r, AdjacentToRoot);
    SameFlag(g, g', r, Free);
    var ks := KidsOf(g[r], p);
    assert g'[r].adjacent == g[r].adjacent;
    forall i | 0 <= i < |ks| ensures Hangs(g', ks[i], r, t.children[i]) {
      HangsStill(g, g', ks[i], r, t.children[i]);
    }
  }

  lemma {:induction false} InTreeStill(g: seq<Region>, g': seq<Region>, r: nat, p: nat, t: Tree, m: nat)
    requires SameGraph(g, g') && Hangs(g, r, p, t) && Hangs(g', r, p, t)
    ensures InTree(g', r, p, t, m) <==> InTree(g, r, p, t, m)
    decreases t
  {
    var ks := KidsOf(g[r], p);
    assert g'[r].adjacent == g[r].adjacent;
    forall i | 0 <= i < |ks| ensures InTree(g', ks[i], r, t.children[i], m) <==> InTree(g, ks[i], r, t.children[i], m) {
      InTreeStill(g, g', ks[i], r, t.children[i], m);
    }
  }

  lemma NoRepeatsStill(g: seq<Region>, g': seq<Region>, r: nat, p: nat, t: Tree)
    requires SameGraph(g, g') && Hangs(g, r, p, t) && Hangs(g', r, p, t)
    ensures NoRepeats(g', r, p, t) <==> NoRepeats(g, r, p, t)
  {
    hide Hangs, InTree;
    forall m: nat | m < |g|
      ensures InTree(g', r, p, t, m) <==> InTree(g, r, p, t, m)
      ensures g'[m].adjacent == g[m].adjacent
    {
      InTreeStill(g, g', r, p, t, m);
    }
  }

  lemma FarSideStill(g: seq<Region>, g': seq<Region>, r: nat, p: nat)
    requires SameGraph(g, g') && FarSideFlagged(g, r, p)
    ensures FarSideFlagged(g', r, p)
  {
    var path :| Walk(g, path, r) && path[0] == p
                && (AdjacentToRoot in g[path[|path| - 1]].flags || Fragmented in g[path[|path| - 1]].flags);
    SameFlag(g, g', path[|path| - 1], AdjacentToRoot);
    SameFlag(g, g', path[|path| - 1], Fragmented);
    assert forall a, b :: Lists(g', a, b) <==> Lists(g, a, b);
    assert Walk(g', path, r);
  }

  /** A tree of the table is in the window as it was built from the table. */
  lemma TableFits(w: Window, trees: seq<Chars>, colour: nat, t: Tree)
    requires CoversTable(w, trees) && Coloured(colour, t) in trees
    ensures w.minCount <= Size(t) - 1 <= w.maxCount && w.minDepth <= Height(t) <= w.maxDepth
  {
    ColouredMeasures(colour, t);
    assert IsMaximumDepth(Coloured(colour, t), Height(t));
  }

  /** The search misses no tree of the table that hangs off a flagged rest, unless it has a
      repeated entry. */
  lemma KnownTreeIsFound(g0: seq<Region>, g: seq<Region>, w: Window, tr: Trace, trees: seq<Chars>, r: nat, p: nat,
                         t: Tree)
    requires CoversTable(w, trees) && TreeOfTable(g0, r, p, t, trees) && NoRepeats(g0, r, p, t)
    requires Finished(g0, g, w, tr)
    ensures r in Candidates(g, w, tr.order) && r < |g| && LostSymbol !in g[r].flags
    ensures r in tr.parent && r in tr.tree && tr.parent[r] == Some(p) && tr.tree[r] == t
  {
    TableFits(w, trees, g0[r].colour, t);
    HangsStill(g0, g, r, p, t);
    FarSideStill(g0, g, r, p);
    NoRepeatsStill(g0, g, r, p, t);
    assert StartedIn(g, r, p, t);
    assert LostMarked(g, w) && Peels(g, w, tr, -1) && Size(t) >= 1;
    hide *;
    FarSideNotPeeled(g, w, tr, r, p);
    HangingIsPeeled(g, w, tr, r, p, t);
    PeeledIsCandidate(g, w, tr, r);
  }

  /** It misses those that have one. */
  lemma RepeatIsMissed(g0: seq<Region>, g: seq<Region>, w: Window, tr: Trace, trees: seq<Chars>, r: nat, p: nat,
                       t: Tree)
    requires TreeOfTable(g0, r, p, t, trees) && Finished(g0, g, w, tr) && r in Candidates(g, w, tr.order)
    ensures NoRepeats(g0, r, p, t)
  {
    HangsStill(g0, g, r, p, t);
    FarSideStill(g0, g, r, p);
    NoRepeatsStill(g0, g, r, p, t);
    CandidatesIn(g, w, tr.order);
    assert Traversed(g, r);
    hide Candidates, Hangs, FarSideFlagged, Peels, Traversed, SameGraph;
    RootTraversed(g, w, tr, r, p, t);
  }

  /** A peeled region whose tree fits the windows is a candidate, and no lost symbol. */
  lemma PeeledIsCandidate(g: seq<Region>, w: Window, tr: Trace, r: nat)
    requires LostMarked(g, w) && r in tr.parent && r in tr.tree
    requires w.minCount <= Size(tr.tree[r]) - 1 <= w.maxCount && w.minDepth <= Height(tr.tree[r]) <= w.maxDepth
    requires Peels(g, w, tr, -1)
    ensures r in Candidates(g, w, tr.order) && r < |g| && LostSymbol !in g[r].flags
  {
    PeeledCounts(g, w, tr, -1, r);
    FittingIsCandidate(w, g[r]);
    NotLost(g, w, r);
    hide *;
    CandidatesIn(g, w, tr.order);
  }

  lemma FittingIsCandidate(w: Window, region: Region)
    requires w.minCount <= region.descendentCount <= w.maxCount && w.minDepth <= region.depth <= w.maxDepth
    ensures IsCandidate(w, region) && !IsFuzzy(w, region)
  {
  }

  lemma NotLost(g: seq<Region>, w: Window, r: nat)
    requires LostMarked(g, w) && r < |g| && !IsFuzzy(w, g[r])
    ensures LostSymbol !in g[r].flags
  {
  }

  lemma KnownTreeIsIdentified(g0: seq<Region>, g: seq<Region>, w: Window, tr: Trace, trees: seq<Chars>, r: nat, p: nat,
                              t: Tree, id: int)
    requires CoversTable(w, trees) && TreeOfTable(g0, r, p, t, trees) && NoRepeats(g0, r, p, t)
    requires Identified(g, tr, trees, r, id)
    requires Finished(g0, g, w, tr)
    ensures IsFirst(trees, Coloured(g0[r].colour, t), id)
  {
    KnownTreeIsFound(g0, g, w, tr, trees, r, p, t);
    ChildNotCut(g, w, tr, r);
    assert g[r].colour == g0[r].colour;
  }

  /** A tree of the table that hangs from a region r, away from a part with a flagged region, is
      among the roots exactly if none of its regions lists a neighbour twice, and the id found for
      it is that of its string. */
  ghost predicate AllFound(g0: seq<Region>, trees: seq<Chars>, roots: seq<nat>, ids: seq<int>)
    requires |ids| <= |roots|
  {
    forall r: nat, p: nat, t | TreeOfTable(g0, r, p, t, trees) ::
      && (r in roots <==> NoRepeats(g0, r, p, t))
      && forall i | 0 <= i < |ids| && roots[i] == r :: IsFirst(trees, Coloured(g0[r].colour, t), ids[i])
  }

  lemma KnownTreesAreFound(g0: seq<Region>, g: seq<Region>, w: Window, tr: Trace, trees: seq<Chars>,
                           roots: seq<nat>, ids: seq<int>)
    requires CoversTable(w, trees) && Finished(g0, g, w, tr)
    requires roots == Candidates(g, w, tr.order) && |ids| <= |roots|
    requires forall i | 0 <= i < |ids| :: Identified(g, tr, trees, roots[i], ids[i])
    ensures AllFound(g0, trees, roots, ids)
  {
    hide CoversTable, Finished, Candidates, Identified, IsFirst, Coloured, Hangs, FarSideFlagged, NoRepeats;
    forall r: nat, p: nat, t | TreeOfTable(g0, r, p, t, trees)
      ensures r in roots <==> NoRepeats(g0, r, p, t)
      ensures forall i | 0 <= i < |ids| && roots[i] == r :: IsFirst(trees, Coloured(g0[r].colour, t), ids[i])
    {
      if NoRepeats(g0, r, p, t) { KnownTreeIsFound(g0, g, w, tr, trees, r, p, t); }
      if r in roots { RepeatIsMissed(g0, g, w, tr, trees, r, p, t); }
      forall i | 0 <= i < |ids| && roots[i] == r ensures IsFirst(trees, Coloured(g0[r].colour, t), ids[i]) {
        KnownTreeIsIdentified(g0, g, w, tr, trees, r, p, t, ids[i]);
      }
    }
  }

  /** An id is given only to a root of the right colour into which a tree isomorphic to that
      of the table was peeled, or to an only child's parent for the tree of one node. */
  lemma IdentifiedTreeIsKnown(g: seq<Region>, tr: Trace, trees: seq<Chars>, r: nat, id: int, colour: nat, u: Tree)
    requires Identified(g, tr, trees, r, id) && 0 <= id < |trees| && trees[id] == Coloured(colour, u)
    ensures colour != 0 <==> g[r].colour != 0
    ensures if NotCut(g, tr, r) then Isomorphic(tr.tree[r], u) else Size(u) == 1
  {
    hide DepthString;
    var key := Key(g, tr, r);
    assert key == Coloured(colour, u);
    assert key[0] == if colour != 0 then WHITE_PREFIX else BLACK_PREFIX;
    assert Coloured(colour, u)[1..] == DepthString(u, 0);
    ColouredMeasures(colour, u);
    if NotCut(g, tr, r) {
      assert key[1..] == DepthString(tr.tree[r], 0);
      CanonicalForm(tr.tree[r], u, 0);
    }
  }
}
