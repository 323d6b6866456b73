/** The fiducial recogniser of fidtrackX.c on the regions handed over by the segmenter. */
module Fidtracking {
  import opened Options
  import opened Regions
  import opened DepthStrings
  import opened Peeling
  import opened Hanging
  import opened Descent
  import opened Entries
  import opened TreeIdMaps
  import opened Recognition
  import opened Sequences

  class FidtrackerX {
    /** The regions of the segmenter. */
    var regions: seq<Region>
    /** The ring of candidates, from its head. */
    var rootRegions: seq<nat>
    const treeIdMap: TreeIdMap
    const window: Window
    ghost var trace: Trace

    /** initialize_fidtrackerX: the windows follow from the table. */
    constructor (treeIdMap: TreeIdMap, ghost trees: seq<Chars>)
      requires treeIdMap.Holds(trees)
      ensures this.treeIdMap == treeIdMap && CoversTable(window, trees)
      ensures window == WindowFor(treeIdMap.minNodeCount, treeIdMap.maxNodeCount,
                                  treeIdMap.minDepth, treeIdMap.maxDepth)
    {
      this.treeIdMap := treeIdMap;
      window := WindowFor(treeIdMap.minNodeCount, treeIdMap.maxNodeCount, treeIdMap.minDepth, treeIdMap.maxDepth);
      regions, rootRegions := [], [];
      trace := Trace([], map[], map[]);
      new;
      assert CoversTable(window, trees);
    }

    ghost predicate Consistent(exempt: int)
      reads this
    {
      && Peels(regions, window, trace, exempt) && Climbed(regions, window, trace)
      && rootRegions == Candidates(regions, window, trace.order)
      && LostMarked(regions, window)
    }

    /** Counts the peeled neighbours of r and finds the unpeeled one. */
    method CollectChildren(r: nat) returns (parent: Option<nat>)
      requires Peels(regions, window, trace, r) && Ready(regions, r)
      modifies this`regions
      ensures IsParent(old(regions), r, parent) && HasTrees(trace, Peeled(old(regions), old(regions)[r].adjacent))
      ensures var t := PeeledTree(old(regions), trace, r);
              regions == old(regions)[r := old(regions)[r].(level := TRAVERSED, descendentCount := Size(t) - 1,
                                                            depth := Height(t))]
    {
      hide Peels, Size, SizeOf, Height, HeightOf, SoleUnpeeled, Peeled;
      ghost var g := regions;
      var list := regions[r].adjacent;
      NeighboursApart(g, window, trace, r);
      assert Trees(trace, []) == [] && list[..0] == [];
      NoTrees();
      NoneSeen(g, list);
      regions := regions[r := regions[r].(descendentCount := 0, depth := 0, level := TRAVERSING)];
      parent := None;
      ghost var ks := [];
      var i := 0;
      while i < |list|
        invariant i <= |list| && |regions| == |g|
        invariant ks == Peeled(g, list[..i]) && HasTrees(trace, ks)
        invariant regions == Counting(g, trace, r, ks)
        invariant SoleUnpeeled(g, list, i, parent)
      {
        var a := list[i];
        assert a in list && list[..i + 1] == list[..i] + [a];
        PeeledSnoc(g, list[..i], a);
        if regions[a].level == TRAVERSED {
          PeeledTowards(g, window, trace, r, r, a);
          PeeledCounts(g, window, trace, r, a);
          CountChild(r, a, g, ks);
          ks := ks + [a];
          AlsoPeeled(g, list, i, parent);
        } else {
          NoneUnpeeled(g, window, trace, r, i, parent);
          assert parent.None?;
          parent := Some(a);
        }
        i := i + 1;
      }
      assert list[..i] == list;
      SoleIsParent(g, r, parent);
      SizeHeight(Trees(trace, ks));
      regions := regions[r := regions[r].(level := TRAVERSED)];
    }

    /** The records while r is counting, after the peeled neighbours ks. */
    ghost function Counting(g: seq<Region>, tr: Trace, r: nat, ks: seq<nat>): seq<Region>
      requires r < |g| && HasTrees(tr, ks)
    {
      g[r := g[r].(level := TRAVERSING, descendentCount := SizeOf(Trees(tr, ks)), depth := HeightOf(Trees(tr, ks)))]
    }

    /** Adds the tree of a peeled neighbour to the counts of r. */
    method CountChild(r: nat, a: nat, ghost g: seq<Region>, ghost ks: seq<nat>)
      requires r < |g| && HasTrees(trace, ks) && regions == Counting(g, trace, r, ks)
      requires a in trace.tree && a < |g| && a != r
      requires g[a].descendentCount == Size(trace.tree[a]) - 1 && g[a].depth == Height(trace.tree[a])
      modifies this`regions
      ensures HasTrees(trace, ks + [a]) && regions == Counting(g, trace, r, ks + [a])
    {
      hide Size, SizeOf, Height, HeightOf;
      ghost var t := trace.tree[a];
      assert Trees(trace, ks + [a]) == Trees(trace, ks) + [t];
      SizeSnoc(Trees(trace, ks), t);
      var depth := if regions[r].depth < regions[a].depth + 1 then regions[a].depth + 1 else regions[r].depth;
      regions := regions[r := regions[r].(
        descendentCount := regions[r].descendentCount + regions[a].descendentCount + 1, depth := depth)];
    }

    /** Of the first i neighbours only the parent is unpeeled. */
    ghost predicate SoleUnpeeled(g: seq<Region>, list: seq<nat>, i: nat, parent: Option<nat>) {
      && i <= |list|
      && (parent.Some? ==> exists j | 0 <= j < i :: list[j] == parent.value && !Traversed(g, list[j]))
      && (forall j | 0 <= j < i && !Traversed(g, list[j]) :: parent == Some(list[j]))
    }

    lemma NoneSeen(g: seq<Region>, list: seq<nat>)
      ensures SoleUnpeeled(g, list, 0, None) && Peeled(g, []) == []
    {
    }

    lemma AlsoPeeled(g: seq<Region>, list: seq<nat>, i: nat, parent: Option<nat>)
      requires SoleUnpeeled(g, list, i, parent) && i < |list| && Traversed(g, list[i])
      ensures SoleUnpeeled(g, list, i + 1, parent)
    {
    }

    lemma SoleIsParent(g: seq<Region>, r: nat, parent: Option<nat>)
      requires r < |g| && SoleUnpeeled(g, g[r].adjacent, |g[r].adjacent|, parent)
      requires Distinct(g[r].adjacent)
      ensures IsParent(g, r, parent)
    {
    }

    lemma NoneUnpeeled(g: seq<Region>, w: Window, tr: Trace, r: nat, i: nat, parent: Option<nat>)
      requires Peels(g, w, tr, r) && Ready(g, r) && i < |g[r].adjacent| && !Traversed(g, g[r].adjacent[i])
      requires SoleUnpeeled(g, g[r].adjacent, i, parent)
      ensures parent.None? && SoleUnpeeled(g, g[r].adjacent, i + 1, Some(g[r].adjacent[i]))
    {
      hide Peels;
      var list := g[r].adjacent;
      if parent.Some? {
        var j :| 0 <= j < i && list[j] == parent.value && !Traversed(g, list[j]);
        OneParent(g, w, tr, r, r, j, i);
        assert false;
      }
      assert list[i] == Some(list[i]).value;
    }

    lemma NoTrees()
      ensures SizeOf([]) == 0 && HeightOf([]) == 0
    {
    }

    lemma SizeHeight(ts: seq<Tree>)
      ensures Size(Node(ts)) == 1 + SizeOf(ts) && Height(Node(ts)) == HeightOf(ts)
    {
    }

    lemma NeighboursApart(g: seq<Region>, w: Window, tr: Trace, r: nat)
      requires Peels(g, w, tr, r) && Ready(g, r)
      ensures forall a | a in g[r].adjacent :: a < |g| && a != r && Lists(g, r, a)
      ensures forall a | Traversed(g, a) :: a in tr.parent
      ensures Distinct(g[r].adjacent)
    {
      ReadyNoRepeat(g, w, tr, r, r);
      assert forall a | a in g[r].adjacent :: Lists(g, r, a);
    }

    /** Records r if it is a candidate, and reports it to its parent. */
    method Record(r: nat, parent: Option<nat>) returns (notifies: bool)
      requires r < |regions| && (parent.Some? ==> parent.value < |regions| && parent.value != r)
      requires LostSymbol !in regions[r].flags
      modifies this`regions, this`rootRegions
      ensures |regions| == |old(regions)|
      ensures regions[r] == old(regions)[r].(flags := regions[r].flags)
      ensures regions[r].flags == old(regions)[r].flags + if IsFuzzy(window, old(regions)[r]) then {LostSymbol} else {}
      ensures rootRegions == old(rootRegions) + if IsCandidate(window, old(regions)[r]) then [r] else []
      ensures notifies <==> parent.Some? && Notifies(window, regions[r])
      ensures forall q | 0 <= q < |regions| && q != r ::
                regions[q] == if Some(q) == parent && notifies
                              then old(regions)[q].(childrenVisited := old(regions)[q].childrenVisited + 1)
                              else old(regions)[q]
    {
      notifies := false;
      if IsLargest(window, regions[r]) {
        rootRegions := rootRegions + [r];
      } else {
        if IsFitting(window, regions[r]) {
          rootRegions := rootRegions + [r];
        } else if window.minRange <= regions[r].descendentCount < window.maxRange && InDepth(window, regions[r]) {
          regions := regions[r := regions[r].(flags := regions[r].flags + {LostSymbol})];
          rootRegions := rootRegions + [r];
        }
        if parent.Some? && regions[r].flags !! {Saturated, AdjacentToRoot, Free} {
          notifies := true;
          var p := parent.value;
          regions := regions[p := regions[p].(childrenVisited := regions[p].childrenVisited + 1)];
        }
      }
    }

    /** propagate_descendent_count_and_max_depth_upwards: peels r, records it if it is a
        candidate, and goes on at its parent when r was the last child to report. */
    method Propagate(r: nat)
      requires Consistent(r) && Ready(regions, r) && Reached(regions, window, trace, |trace.order|, r)
      modifies this`regions, this`rootRegions, this`trace
      ensures Consistent(-1) && SameGraph(old(regions), regions)
      ensures old(trace).order + [r] <= trace.order
      ensures forall t | t in trace.order && t !in old(trace).order && t != r :: t < |regions| && !IsStart(regions, t)
      decreases |regions| - |trace.order|
    {
      hide Peels, Climbed, Reached, LostMarked, Candidates, GoesOn, SameGraph;
      ghost var g := regions;
      var parent, notifies := PeelOne(r);
      ghost var m := regions;
      if notifies && GoesOn(regions, window, r, parent.value) {
        Propagate(parent.value);
        StartKept(m, regions, parent.value);
        SameGraphTrans(g, m, regions);
      }
    }

    /** One step of the propagation: counts the children, records the region and reports it. */
    method PeelOne(r: nat) returns (parent: Option<nat>, notifies: bool)
      requires Consistent(r) && Ready(regions, r) && Reached(regions, window, trace, |trace.order|, r)
      modifies this`regions, this`rootRegions, this`trace
      ensures |regions| == |old(regions)| && r < |regions|
      ensures trace.order == old(trace).order + [r] && |old(trace).order| < |regions| && r !in old(trace).order
      ensures parent.Some? ==> parent.value < |regions|
      ensures SameGraph(old(regions), regions) && (notifies ==> parent.Some?)
      ensures if notifies && GoesOn(regions, window, r, parent.value)
              then Consistent(parent.value) && Ready(regions, parent.value) && !IsStart(regions, parent.value)
                   && Reached(regions, window, trace, |trace.order|, parent.value)
              else Consistent(-1)
    {
      hide Peels, Climbed, Reached, Notifies, GoesOn, Size, Height, HasTrees;
      ghost var g, tr := regions, trace;
      RoomInOrder(g, window, tr, r, r);
      parent := CollectChildren(r);
      ParentApart(g, window, tr, r, parent);
      notifies := Record(r, parent);
      ghost var g' := regions;
      assert Peel(g, g', window, tr, r, parent);
      trace := Extended(g, tr, r, parent);
      PeelStep(g, g', window, tr, r, parent);
      RecordsKept(g, g', window, tr, r, parent);
      ClimbKept(g, g', window, tr, r, parent);
      hide Peel, Ready, SameGraph, LostMarked;
      if notifies && GoesOn(regions, window, r, parent.value) {
        ParentReady(g, g', window, tr, r, parent.value);
      } else if parent.Some? {
        ParentWaits(g, g', window, tr, r, parent.value);
        StopsWaiting(g', window, trace, parent.value);
      }
    }

    lemma ParentApart(g: seq<Region>, w: Window, tr: Trace, r: nat, parent: Option<nat>)
      requires Peels(g, w, tr, r) && Ready(g, r) && IsParent(g, r, parent) && LostMarked(g, w)
      ensures parent.Some? ==> parent.value < |g| && parent.value != r
      ensures LostSymbol !in g[r].flags && r !in tr.order
    {
      assert parent.Some? ==> Lists(g, r, parent.value);
      Unpeeled(g, w, tr, r, r);
    }

    lemma ParentsInOrder(g: seq<Region>, w: Window, tr: Trace, r: nat)
      requires Peels(g, w, tr, r) && r !in tr.order
      ensures (forall t | t in tr.parent :: t in tr.order) && r !in tr.parent
    {
    }

    lemma StartKept(g: seq<Region>, g': seq<Region>, p: nat)
      requires SameGraph(g, g') && p < |g|
      ensures IsStart(g', p) <==> IsStart(g, p)
    {
      assert forall f: Flag | f != LostSymbol :: f in g'[p].flags <==> f in g'[p].flags - {LostSymbol};
      assert forall f: Flag | f != LostSymbol :: f in g[p].flags <==> f in g[p].flags - {LostSymbol};
    }

    lemma OrderTraversed(g: seq<Region>, w: Window, tr: Trace, exempt: int)
      requires Peels(g, w, tr, exempt)
      ensures forall t | t in tr.order :: Traversed(g, t)
    {
    }

    /** The candidates and the lost symbols after one more region was peeled. */
    lemma RecordsKept(g: seq<Region>, g': seq<Region>, w: Window, tr: Trace, r: nat, parent: Option<nat>)
      requires Peels(g, w, tr, r) && Ready(g, r) && LostMarked(g, w) && Peel(g, g', w, tr, r, parent)
      requires g'[r].flags == g[r].flags + if IsFuzzy(w, g'[r]) then {LostSymbol} else {}
      ensures LostMarked(g', w)
      ensures Candidates(g', w, Extended(g, tr, r, parent).order)
              == Candidates(g, w, tr.order) + if IsCandidate(w, g'[r]) then [r] else []
      ensures SameGraph(g, g')
    {
      hide Size, Height, IsFuzzy, IsCandidate, HasTrees, Notifies;
      hide Peels, Ready, LostMarked, Candidates, SameGraph;
      ParentApart(g, w, tr, r, parent);
      OrderTraversed(g, w, tr, r);
      PeelChanges(g, g', w, tr, r, parent);
      LostKept(g, g', w, r);
      NextCandidate(g, g', w, tr.order, r);
    }

    lemma ClimbKept(g: seq<Region>, g': seq<Region>, w: Window, tr: Trace, r: nat, parent: Option<nat>)
      requires Peels(g, w, tr, r) && Ready(g, r) && LostMarked(g, w) && Peel(g, g', w, tr, r, parent)
      requires Climbed(g, w, tr) && Reached(g, w, tr, |tr.order|, r)
      ensures Climbed(g', w, Extended(g, tr, r, parent))
      ensures parent.Some? && parent.value < |g| && Notifies(w, g'[r]) && GoesOn(g', w, r, parent.value) ==>
                Reached(g', w, Extended(g, tr, r, parent), |tr.order| + 1, parent.value)
    {
      hide Size, Height, HasTrees, Notifies, GoesOn;
      hide Peels, Ready, LostMarked, Climbed, Reached, SameGraph;
      ParentApart(g, w, tr, r, parent);
      OrderTraversed(g, w, tr, r);
      PeelChanges(g, g', w, tr, r, parent);
      ParentsInOrder(g, w, tr, r);
      if parent.Some? { ReadyReports(g, w, tr, r, parent); }
      ClimbStep(g, g', w, tr, r, parent);
    }

    /** Peeling r changes the records of r and one count at its parent. */
    lemma PeelChanges(g: seq<Region>, g': seq<Region>, w: Window, tr: Trace, r: nat, parent: Option<nat>)
      requires Peel(g, g', w, tr, r, parent) && r !in tr.order && forall t | t in tr.order :: Traversed(g, t)
      ensures SameGraph(g, g') && Traversed(g', r)
      ensures forall q | 0 <= q < |g| && q != r :: g'[q] == g[q].(childrenVisited := g'[q].childrenVisited)
      ensures forall t | t in tr.order :: t < |g| && g'[t] == g[t]
    {
      hide Size, Height, HasTrees, Notifies;
      assert parent.Some? ==> parent.value in g[r].adjacent && !Traversed(g, parent.value);
      forall t | t in tr.order ensures t < |g| && g'[t] == g[t] {
        assert Traversed(g, t) && t != r;
      }
    }

    lemma NextCandidate(g: seq<Region>, g': seq<Region>, w: Window, order: seq<nat>, r: nat)
      requires r < |g'| && forall t | t in order :: t < |g| && t < |g'| && g'[t] == g[t]
      ensures Candidates(g', w, order + [r]) == Candidates(g, w, order) + if IsCandidate(w, g'[r]) then [r] else []
    {
      hide IsCandidate;
      CandidatesKept(g, g', w, order);
      assert (order + [r])[..|order|] == order;
    }

    lemma LostKept(g: seq<Region>, g': seq<Region>, w: Window, r: nat)
      requires LostMarked(g, w) && |g'| == |g| && r < |g| && LostSymbol !in g[r].flags
      requires Traversed(g', r) && g'[r].flags == g[r].flags + if IsFuzzy(w, g'[r]) then {LostSymbol} else {}
      requires forall q | 0 <= q < |g| && q != r ::
                 g'[q] == g[q].(childrenVisited := g'[q].childrenVisited)
      ensures LostMarked(g', w)
    {
      forall t | 0 <= t < |g| ensures LostSymbol in g'[t].flags <==> Traversed(g', t) && IsFuzzy(w, g'[t]) {
        assert LostSymbol in g[t].flags <==> Traversed(g, t) && IsFuzzy(w, g[t]);
      }
    }

    // ----- the roots

    /** find_roots: peels from every leaf without flags. */
    method FindRoots()
      requires Symmetric(regions) && Pristine(regions)
      requires rootRegions == [] && trace == Trace([], map[], map[])
      modifies this`regions, this`rootRegions, this`trace
      ensures Consistent(-1) && AllStarted(regions) && SameGraph(old(regions), regions)
    {
      Begin(regions, window);
      NothingClimbed(regions, window);
      hide Peels, Climbed, LostMarked, SameGraph, Candidates;
      ghost var g0 := regions;
      SameGraphSelf(g0);
      var i := 0;
      while i < |regions|
        invariant i <= |regions| && Consistent(-1) && SameGraph(g0, regions)
        invariant StartedUpTo(regions, trace.order, i)
      {
        ghost var g := regions;
        StartAt(i);
        SameGraphTrans(g0, g, regions);
        i := i + 1;
      }
      OrderTraversed(regions, window, trace, -1);
    }

    /** One step of find_roots. */
    method StartAt(i: nat)
      requires i < |regions| && Consistent(-1) && StartedUpTo(regions, trace.order, i)
      modifies this`regions, this`rootRegions, this`trace
      ensures Consistent(-1) && SameGraph(old(regions), regions) && StartedUpTo(regions, trace.order, i + 1)
    {
      hide Peels, Climbed, LostMarked, SameGraph, Candidates;
      ghost var g, order := regions, trace.order;
      if |regions[i].adjacent| == 1 && regions[i].flags !! {Saturated, Fragmented, AdjacentToRoot, Free} {
        StartReady(regions, window, trace, i);
        Propagate(i);
        StartedNext(g, regions, order, trace.order, i);
      } else {
        SameGraphSelf(g);
      }
    }

    lemma SameGraphSelf(g: seq<Region>)
      ensures SameGraph(g, g)
    {
    }

    lemma SameGraphTrans(g: seq<Region>, m: seq<Region>, g': seq<Region>)
      requires SameGraph(g, m) && SameGraph(m, g')
      ensures SameGraph(g, g')
    {
    }

    /** Of the regions at which peeling may start, exactly those before i have been peeled. */
    ghost predicate StartedUpTo(g: seq<Region>, order: seq<nat>, i: nat) {
      && (forall t | t in order && t < |g| && IsStart(g, t) :: t < i)
      && (forall t: nat | t < i && t < |g| && IsStart(g, t) :: t in order)
    }

    lemma StartedNext(g: seq<Region>, g': seq<Region>, order: seq<nat>, order': seq<nat>, i: nat)
      requires StartedUpTo(g, order, i) && SameGraph(g, g') && order + [i] <= order'
      requires forall t | t in order' && t !in order && t != i :: t < |g'| && !IsStart(g', t)
      ensures StartedUpTo(g', order', i + 1)
    {
      StartsKept(g, g');
      Prefix(order + [i], order');
      assert forall t :: t in order + [i] <==> t in order || t == i;
    }

    lemma Prefix(a: seq<nat>, b: seq<nat>)
      ensures a <= b ==> forall t | t in a :: t in b
    {
    }

    lemma StartsKept(g: seq<Region>, g': seq<Region>)
      requires SameGraph(g, g')
      ensures forall t: nat | t < |g| :: IsStart(g', t) <==> IsStart(g, t)
    {
      forall t: nat | t < |g| ensures IsStart(g', t) <==> IsStart(g, t) { StartKept(g, g', t); }
    }

    lemma StartReady(g: seq<Region>, w: Window, tr: Trace, r: nat)
      requires Peels(g, w, tr, -1) && r < |g| && IsStart(g, r) && r !in tr.order
      ensures Ready(g, r) && Peels(g, w, tr, r)
    {
    }

    // ----- the ids

    /** set_depth: depth records under r count from r, found by their smaller counts. */
    method SetDepth(r: nat, depth: int, ghost base: seq<Region>)
      requires r in trace.parent && r < |base| && base[r].descendentCount <= MAX_SHORT
      requires Reordered(base, regions)
      requires Peels(base, window, trace, -1)
      modifies this`regions
      ensures |regions| == |base| && forall q | 0 <= q < |base| ::
                regions[q] == old(regions)[q].(depth := regions[q].depth)
      ensures regions[r].depth == depth
      ensures OnlyUnder(old(regions), regions, trace, r)
      ensures NotCut(base, trace, r) ==> Depths(regions, trace, r, depth)
      decreases base[r].descendentCount
    {
      hide Peels, Under, NotCut, Depths;
      ghost var g0 := regions;
      SelfUnder(trace, r);
      regions := regions[r := regions[r].(depth := depth)];
      var list := regions[r].adjacent;
      if |list| != 1 {
        var i := 0;
        while i < |list|
          invariant i <= |list| && |regions| == |base|
          invariant forall q | 0 <= q < |base| :: regions[q] == g0[q].(depth := regions[q].depth)
          invariant regions[r].depth == depth && OnlyUnder(g0, regions, trace, r)
          invariant forall j | 0 <= j < i && Some(list[j]) != trace.parent[r] ::
                      Depths(regions, trace, list[j], depth + 1)
        {
          var a := list[i];
          NeighbourTest(base, g0, window, trace, r, a);
          if regions[a].descendentCount < regions[r].descendentCount {
            ghost var m := regions;
            ChildFacts(base, window, trace, a, r);
            SetDepth(a, depth + 1, base);
            OnlyUnderChild(g0, m, regions, trace, a, r);
            forall j | 0 <= j < i && Some(list[j]) != trace.parent[r]
              ensures Depths(regions, trace, list[j], depth + 1)
            {
              if list[j] != a {
                NeighbourTest(base, g0, window, trace, r, list[j]);
                DepthsKept(base, m, regions, window, trace, list[j], a, r, depth + 1);
              }
            }
          }
          i := i + 1;
        }
      }
      if NotCut(base, trace, r) {
        forall c | c in trace.parent && trace.parent[c] == Some(r) ensures Depths(regions, trace, c, depth + 1) {
          ChildListed(base, g0, window, trace, r, c);
        }
        DepthsFromChildren(base, regions, window, trace, r, depth);
      }
    }

    /** The test of the two walks down, on reordered lists. */
    lemma NeighbourTest(base: seq<Region>, g: seq<Region>, w: Window, tr: Trace, r: nat, a: nat)
      requires Reordered(base, g) && r in tr.parent && r < |base|
      requires Peels(base, w, tr, -1) && a in g[r].adjacent
      ensures a < |base| && base[a] == g[a].(adjacent := base[a].adjacent, depth := base[a].depth)
      ensures g[a].level == TRAVERSED && g[a].descendentCount < g[r].descendentCount <==> tr.parent[r] != Some(a)
      ensures base[r].descendentCount <= MAX_SHORT ==>
                (g[a].descendentCount < g[r].descendentCount <==> tr.parent[r] != Some(a))
      ensures tr.parent[r] != Some(a) ==> a in tr.parent && tr.parent[a] == Some(r)
    {
      ReorderedMembers(base, g, r);
      assert Lists(base, r, a);
      ChildTest(base, w, tr, r, a);
    }

    lemma ChildFacts(base: seq<Region>, w: Window, tr: Trace, c: nat, r: nat)
      requires Peels(base, w, tr, -1) && r in tr.parent && c in tr.parent && tr.parent[c] == Some(r)
      ensures c < |base| && r < |base| && 0 <= base[c].descendentCount < base[r].descendentCount
      ensures NotCut(base, tr, c) && !Under(tr, r, c) && c in tr.tree
    {
      PeeledFacts(base, w, tr, c);
      ChildCount(base, w, tr, c, r);
      ChildNotCut(base, w, tr, c);
      NotUnderChild(base, w, tr, c, r);
    }

    /** A region with children whose walk is not cut lists them among several neighbours. */
    lemma ChildListed(base: seq<Region>, g: seq<Region>, w: Window, tr: Trace, r: nat, c: nat)
      requires Reordered(base, g) && r in tr.parent && r < |base|
      requires Peels(base, w, tr, -1) && c in tr.parent && tr.parent[c] == Some(r) && NotCut(base, tr, r)
      ensures c in g[r].adjacent && |g[r].adjacent| != 1 && Some(c) != tr.parent[r]
    {
      PeeledFacts(base, w, tr, r);
      ChildCount(base, w, tr, c, r);
      ReorderedMembers(base, g, r);
      KidsIn(base[r].adjacent, tr.parent[r]);
      assert c in Kids(base[r].adjacent, tr.parent[r]);
    }

    /** build_left_heavy_depth_string: spells the tree peeled into r, sorting the adjacency
        lists under r on the way. */
    method BuildLeftHeavyDepthString(r: nat, ghost depth: nat, ghost base: seq<Region>) returns (s: Chars)
      requires r in trace.parent && r in trace.tree && r < |base| && r < |regions| && regions[r].depth == depth
      requires NotCut(base, trace, r) ==> Depths(regions, trace, r, depth)
      requires Reordered(base, regions)
      requires Peels(base, window, trace, -1)
      modifies this`regions
      ensures Sorting(old(regions), regions) && OnlyUnder(old(regions), regions, trace, r)
      ensures s == if NotCut(base, trace, r) then DepthString(trace.tree[r], depth) else [ZERO + depth]
      ensures NotCut(base, trace, r) ==> IsGreatest(trace.tree[r], depth, s)
      decreases base[r].descendentCount
    {
      hide Peels, Under, Depths, NotCut, DepthString, IsGreatest, Reordered, Kids, DepthStringCmp;
      ghost var g0 := regions;
      var list := regions[r].adjacent;
      s := [(ZERO as int + regions[r].depth) as nat];
      if |list| == 1 {
        SingleString(base, g0, window, trace, r, depth);
      } else {
        SeveralNotCut(base, g0, trace, r);
        var entries := ChildEntries(r, depth, base);
        var sorted := SortEntries(entries);
        SortedString(base, window, trace, r, list, entries, sorted, depth);
        SortingAt(g0, regions, trace, r, RegionsOf(sorted));
        regions := regions[r := regions[r].(adjacent := RegionsOf(sorted))];
        var rest := SpellEntries(sorted);
        s := s + rest;
      }
      DepthStringIsGreatest(trace.tree[r], depth, s);
    }

    /** The strings of the neighbours of r, before sorting. */
    method ChildEntries(r: nat, ghost depth: nat, ghost base: seq<Region>) returns (entries: seq<Entry>)
      requires r in trace.parent && r in trace.tree && r < |base| && r < |regions|
      requires NotCut(base, trace, r) && Depths(regions, trace, r, depth)
      requires Reordered(base, regions)
      requires Peels(base, window, trace, -1)
      modifies this`regions
      ensures Sorting(old(regions), regions) && OnlyUnder(old(regions), regions, trace, r)
      ensures regions[r] == old(regions)[r] && RegionsOf(entries) == regions[r].adjacent
      ensures HasTrees(trace, Kids(regions[r].adjacent, trace.parent[r]))
      ensures Somes(entries) == KidStrings(trace, Kids(regions[r].adjacent, trace.parent[r]), depth + 1)
      decreases base[r].descendentCount, 0
    {
      hide Peels, Under, Depths, NotCut, DepthString, Reordered, Kids, KidStrings, Somes, RegionsOf, Sorting, OnlyUnder;
      ghost var g0 := regions;
      var list := regions[r].adjacent;
      entries := [];
      NothingSpelt(g0, trace, r, list, depth);
      var i := 0;
      while i < |list|
        invariant i <= |list| && r < |regions| && regions[r] == g0[r]
        invariant Sorting(g0, regions) && OnlyUnder(g0, regions, trace, r)
        invariant Spelt(trace, r, list[..i], entries, depth)
      {
        var a := list[i];
        ghost var m := regions;
        SortingReorders(base, g0, m);
        NeighbourTest(base, m, window, trace, r, a);
        var x := None;
        if regions[a].level == TRAVERSED && regions[a].descendentCount < regions[r].descendentCount {
          ChildFacts(base, window, trace, a, r);
          ChildDepths(g0, m, trace, r, a, depth);
          var t := BuildLeftHeavyDepthString(a, depth + 1, base);
          x := Some(t);
          SortingUnder(g0, m, regions, trace, a, r);
        }
        SpeltNext(trace, r, list, i, entries, x, depth);
        entries := entries + [Entry(a, x)];
        i := i + 1;
      }
      assert list[..i] == list;
      SpeltAll(trace, r, list, entries, depth);
    }

    /** Copies the strings of the entries one behind the other. */
    method SpellEntries(entries: seq<Entry>) returns (s: Chars)
      ensures s == Concat(Somes(entries))
    {
      s := [];
      var i := 0;
      assert entries[..0] == [];
      while i < |entries|
        invariant i <= |entries| && s == Concat(Somes(entries[..i]))
      {
        assert entries[..i + 1] == entries[..i] + [entries[i]];
        SomesSnoc(entries[..i], entries[i]);
        if entries[i].depthString.Some? {
          ConcatSnoc(Somes(entries[..i]), entries[i].depthString.value);
          s := s + entries[i].depthString.value;
        } else {
          assert Somes(entries[..i]) + [] == Somes(entries[..i]);
        }
        i := i + 1;
      }
      assert entries[..i] == entries;
    }

    /** The part of compute_fiducial_statistics that finds the id. */
    method Identify(r: nat, ghost base: seq<Region>, ghost trees: seq<Chars>) returns (id: int)
      requires r in trace.parent && r in trace.tree && r < |base| && base[r].descendentCount <= MAX_SHORT
      requires r < |regions| && Reordered(base, regions)
      requires treeIdMap.Holds(trees)
      requires Peels(base, window, trace, -1)
      modifies this`regions
      ensures Reordered(base, regions) && Identified(base, trace, trees, r, id)
    {
      hide Peels, Under, Depths, NotCut, DepthString, TreeIdMap.Holds, IsFirst, OnlyUnder;
      SetDepth(r, 0, base);
      assert Reordered(base, regions);
      if LostSymbol in regions[r].flags {
        id := INVALID_FIDUCIAL_ID;
      } else {
        ghost var m := regions;
        var s := BuildLeftHeavyDepthString(r, 0, base);
        SortingReorders(base, m, regions);
        var coloured := [if regions[r].colour != 0 then WHITE_PREFIX else BLACK_PREFIX] + s;
        assert coloured == Key(base, trace, r);
        id := treeIdMap.TreestringToId(coloured, trees);
      }
    }

    /** find_fiducialsX: the ids of the candidates, at most maxCount of them but the first in
        any case.  A tree of the table that hangs from r, away from a part with a flagged
        region, is found at r. */
    method FindFiducials(maxCount: int, ghost trees: seq<Chars>) returns (ids: seq<int>, ghost peeled: seq<Region>)
      requires Symmetric(regions) && Pristine(regions)
      requires treeIdMap.Holds(trees) && CoversTable(window, trees) && window.maxRange <= MAX_SHORT
      modifies this
      ensures Finished(old(regions), peeled, window, trace) && Reordered(peeled, regions)
      ensures rootRegions == Candidates(peeled, window, trace.order)
      ensures |ids| == if |rootRegions| <= 1 || |rootRegions| <= maxCount then |rootRegions|
                       else if maxCount < 1 then 1 else maxCount
      ensures forall i | 0 <= i < |ids| :: Identified(peeled, trace, trees, rootRegions[i], ids[i])
      ensures AllFound(old(regions), trees, rootRegions, ids)
    {
      assert window.maxCount <= window.maxRange;
      hide *;
      ghost var g0 := regions;
      trace := Trace([], map[], map[]);
      rootRegions := [];
      FindRoots();
      peeled := regions;
      FinishedNow(g0, peeled);
      RootsFit(peeled, window, trace);
      ids := IdentifyRoots(maxCount, peeled, trees);
      KnownTreesAreFound(g0, peeled, window, trace, trees, rootRegions, ids);
    }

    lemma FinishedNow(g0: seq<Region>, g: seq<Region>)
      requires g == regions && Consistent(-1) && AllStarted(g) && SameGraph(g0, g)
      ensures Finished(g0, g, window, trace) && rootRegions == Candidates(g, window, trace.order)
      ensures Peels(g, window, trace, -1)
    {
    }

    /** The loop over the ring of candidates. */
    method IdentifyRoots(maxCount: int, ghost base: seq<Region>, ghost trees: seq<Chars>) returns (ids: seq<int>)
      requires forall r | r in rootRegions ::
                 r in trace.parent && r in trace.tree && r < |base| && base[r].descendentCount <= MAX_SHORT
      requires treeIdMap.Holds(trees) && Reordered(base, regions)
      requires Peels(base, window, trace, -1)
      modifies this`regions
      ensures Reordered(base, regions)
      ensures |ids| == if |rootRegions| <= 1 || |rootRegions| <= maxCount then |rootRegions|
                       else if maxCount < 1 then 1 else maxCount
      ensures forall i | 0 <= i < |ids| :: Identified(base, trace, trees, rootRegions[i], ids[i])
    {
      hide *;
      ids := [];
      var i := 0;
      while i < |rootRegions|
        invariant i == |ids| <= |rootRegions| && (i == 0 || i < maxCount)
        invariant Reordered(base, regions)
        invariant forall j | 0 <= j < i :: Identified(base, trace, trees, rootRegions[j], ids[j])
      {
        assert rootRegions[i] in rootRegions;
        ReorderedSize(base, regions);
        var id := Identify(rootRegions[i], base, trees);
        ids := ids + [id];
        i := i + 1;
        if i >= maxCount {
          break;
        }
      }
    }

    lemma ReorderedSize(g: seq<Region>, g': seq<Region>)
      requires Reordered(g, g')
      ensures |g| == |g'|
    {
    }

    lemma RootsFit(g: seq<Region>, w: Window, tr: Trace)
      requires Peels(g, w, tr, -1) && w.maxRange <= MAX_SHORT && w.maxCount <= w.maxRange
      ensures forall r | r in Candidates(g, w, tr.order) ::
                r in tr.parent && r in tr.tree && r < |g| && g[r].descendentCount <= MAX_SHORT
      ensures Reordered(g, g)
    {
      CandidatesIn(g, w, tr.order);
    }
  }
}
