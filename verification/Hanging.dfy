/** The parts of the region graph that are trees, and what a finished peeling has found
    out about them. */
module Hanging {
  import opened Options
  import opened Regions
  import opened DepthStrings
  import opened Peeling
  import opened Sequences

  /** The entries of a list, each of them once. */
  ghost function Once(list: seq<nat>): seq<nat> {
    if list == [] then []
    else (if list[0] in list[1..] then [] else [list[0]]) + Once(list[1..])
  }

  lemma {:induction false} OnceIn(list: seq<nat>)
    ensures forall c :: c in Once(list) <==> c in list
  {
    if list == [] {
    } else {
      OnceIn(list[1..]);
      assert list == [list[0]] + list[1..];
    }
  }

  lemma {:induction false} OnceSame(list: seq<nat>)
    requires Distinct(list)
    ensures Once(list) == list
  {
    if list == [] {
    } else {
      assert Distinct(list[1..]);
      OnceSame(list[1..]);
      assert list[0] !in list[1..];
    }
  }

  /** The neighbours of a region other than p. */
  ghost function KidsOf(region: Region, p: nat): seq<nat> { Kids(Once(region.adjacent), Some(p)) }

  lemma KidsOfIn(region: Region, p: nat)
    ensures forall c :: c in KidsOf(region, p) <==> c in region.adjacent && c != p
  {
    OnceIn(region.adjacent);
    KidsIn(Once(region.adjacent), Some(p));
  }

  lemma KidsOfDistinct(region: Region, p: nat)
    ensures Distinct(KidsOf(region, p))
  {
    OnceDistinct(region.adjacent);
    KidsDistinct(Once(region.adjacent), Some(p));
  }

  lemma {:induction false} OnceDistinct(list: seq<nat>)
    ensures Distinct(Once(list))
  {
    if list == [] {
    } else {
      OnceDistinct(list[1..]);
      OnceIn(list[1..]);
    }
  }

  lemma {:induction false} KidsDistinct(list: seq<nat>, p: Option<nat>)
    requires Distinct(list)
    ensures Distinct(Kids(list, p))
  {
    if list == [] {
    } else {
      assert Distinct(list[1..]);
      KidsDistinct(list[1..], p);
      KidsIn(list[1..], p);
    }
  }

  /** The part of the graph that hangs below r, away from its neighbour p, is the tree t,
      and none of its regions is flagged. */
  ghost predicate Hangs(g: seq<Region>, r: nat, p: nat, t: Tree)
    decreases t
  {
    && r < |g| && Lists(g, r, p)
    && g[r].flags !! {Saturated, Fragmented, AdjacentToRoot, Free}
    && var ks := KidsOf(g[r], p);
       |ks| == |t.children| && forall i | 0 <= i < |ks| :: Hangs(g, ks[i], r, t.children[i])
  }

  /** m is one of the regions of the tree t that hangs from r, away from p. */
  ghost predicate InTree(g: seq<Region>, r: nat, p: nat, t: Tree, m: nat)
    requires Hangs(g, r, p, t)
    decreases t
  {
    m == r
    || var ks := KidsOf(g[r], p);
       exists i | 0 <= i < |ks| :: InTree(g, ks[i], r, t.children[i], m)
  }

  /** The peeling has started wherever it may in that tree. */
  ghost predicate StartedIn(g: seq<Region>, r: nat, p: nat, t: Tree)
    requires Hangs(g, r, p, t)
  {
    forall m: nat | m < |g| && InTree(g, r, p, t, m) && IsStart(g, m) :: Traversed(g, m)
  }

  /** No region of that tree lists a neighbour twice. */
  ghost predicate NoRepeats(g: seq<Region>, r: nat, p: nat, t: Tree)
    requires Hangs(g, r, p, t)
  {
    forall m: nat | m < |g| && InTree(g, r, p, t, m) :: Distinct(g[m].adjacent)
  }

  /** Every region at which the peeling may start has been peeled. */
  ghost predicate AllStarted(g: seq<Region>) {
    forall r: nat | r < |g| && IsStart(g, r) :: Traversed(g, r)
  }

  lemma {:induction false} ChildSmaller(ts: seq<Tree>, i: nat)
    requires i < |ts|
    ensures Size(ts[i]) <= SizeOf(ts) && Height(ts[i]) + 1 <= HeightOf(ts)
  {
    if i == 0 {
    } else {
      ChildSmaller(ts[1..], i - 1);
    }
  }

  lemma {:induction false} KidReports(g: seq<Region>, w: Window, list: seq<nat>, p: nat)
    requires forall c | c in list && c != p :: Counted(g, w, c)
    requires Distinct(list)
    ensures Reports(g, w, list) >= |list| - 1
    ensures p !in list ==> Reports(g, w, list) == |list|
  {
    if list == [] {
    } else {
      assert list == [list[0]] + list[1..];
      assert forall c | c in list[1..] :: c in list;
      KidReports(g, w, list[1..], p);
    }
  }

  /** A tree of unflagged regions without repeated entries that fits the window has been peeled
      from its leaves up to its root, unless the rest of the graph was peeled into the root
      first. */
  lemma {:induction false} HangingIsPeeled(g: seq<Region>, w: Window, tr: Trace, r: nat, p: nat, t: Tree)
    requires Peels(g, w, tr, -1) && Hangs(g, r, p, t) && StartedIn(g, r, p, t) && NoRepeats(g, r, p, t)
    requires Size(t) - 1 <= w.maxCount && Height(t) <= w.maxDepth
    requires !(p in tr.parent && tr.parent[p] == Some(r))
    ensures r in tr.parent && r in tr.tree && tr.parent[r] == Some(p) && tr.tree[r] == t
    decreases t
  {
    hide Peels, Counted, InWindow;
    var list := g[r].adjacent;
    var ks := KidsOf(g[r], p);
    KidsOfIn(g[r], p);
    assert InTree(g, r, p, t, r);
    OnceSame(list);
    forall i | 0 <= i < |ks|
      ensures ks[i] in tr.parent && ks[i] in tr.tree && tr.parent[ks[i]] == Some(r) && tr.tree[ks[i]] == t.children[i]
      ensures Counted(g, w, ks[i]) && InWindow(w, g[ks[i]])
    {
      KidIsPeeled(g, w, tr, r, p, t, i);
    }
    forall c | c in list && c != p ensures Counted(g, w, c) && InWindow(w, g[c]) && c in tr.parent {
      assert c in ks;
    }
    RootIsPeeled(g, w, tr, r, p);
    PeeledFacts(g, w, tr, r);
    assert tr.parent[r] == Some(p);
    assert Trees(tr, ks) == t.children;
  }

  lemma PeeledFacts(g: seq<Region>, w: Window, tr: Trace, r: nat)
    requires Peels(g, w, tr, -1) && r in tr.parent
    ensures PeeledAt(g, tr, r)
  {
  }

  lemma {:induction false} KidIsPeeled(g: seq<Region>, w: Window, tr: Trace, r: nat, p: nat, t: Tree, i: nat)
    requires Peels(g, w, tr, -1) && Hangs(g, r, p, t) && StartedIn(g, r, p, t) && NoRepeats(g, r, p, t)
    requires Size(t) - 1 <= w.maxCount && Height(t) <= w.maxDepth
    requires !(p in tr.parent && tr.parent[p] == Some(r)) && i < |t.children|
    ensures var c := KidsOf(g[r], p)[i];
            && c in tr.parent && c in tr.tree && tr.parent[c] == Some(r) && tr.tree[c] == t.children[i]
            && Counted(g, w, c) && InWindow(w, g[c])
    decreases t, 0
  {
    var c := KidsOf(g[r], p)[i];
    KidsOfIn(g[r], p);
    ChildSmaller(t.children, i);
    assert Lists(g, r, c) && c != p && Lists(g, r, p);
    assert r in tr.parent ==> PeeledAt(g, tr, r);
    assert StartedIn(g, c, r, t.children[i]) && NoRepeats(g, c, r, t.children[i]) by {
      forall m: nat | m < |g| && InTree(g, c, r, t.children[i], m) ensures InTree(g, r, p, t, m) {}
    }
    HangingIsPeeled(g, w, tr, c, r, t.children[i]);
    assert PeeledAt(g, tr, c) && c in tr.order;
  }

  /** A region all of whose neighbours but p have reported has been peeled. */
  lemma RootIsPeeled(g: seq<Region>, w: Window, tr: Trace, r: nat, p: nat)
    requires Peels(g, w, tr, -1) && r < |g| && Lists(g, r, p) && (IsStart(g, r) ==> Traversed(g, r))
    requires Distinct(g[r].adjacent)
    requires g[r].flags !! {Saturated, Fragmented, AdjacentToRoot, Free}
    requires forall c | c in g[r].adjacent && c != p :: Counted(g, w, c) && InWindow(w, g[c]) && c in tr.parent
    requires !(p in tr.parent && tr.parent[p] == Some(r))
    ensures r in tr.parent
  {
    if !Traversed(g, r) {
      assert !IsStart(g, r);
      assert Waiting(g, w, r);
      KidReports(g, w, g[r].adjacent, p);
      if Traversed(g, p) {
        PeeledTowards(g, w, tr, -1, r, p);
      }
      assert false;
    }
    assert r in tr.order;
  }

  /** What was peeled towards p hangs below its root, away from p, without repeated entries. */
  lemma {:induction false} PeeledHangs(g: seq<Region>, w: Window, tr: Trace, r: nat, p: nat)
    requires Peels(g, w, tr, -1) && r in tr.parent && r in tr.tree && tr.parent[r] == Some(p)
    ensures Hangs(g, r, p, tr.tree[r]) && NoRepeats(g, r, p, tr.tree[r])
    decreases tr.tree[r]
  {
    hide *;
    PeeledKids(g, w, tr, r, p);
    var ks := KidsOf(g[r], p);
    forall i | 0 <= i < |ks|
      ensures Hangs(g, ks[i], r, tr.tree[r].children[i]) && NoRepeats(g, ks[i], r, tr.tree[r].children[i])
    {
      PeeledHangs(g, w, tr, ks[i], r);
    }
    TreeFromKids(g, r, p, tr.tree[r]);
  }

  lemma TreeFromKids(g: seq<Region>, r: nat, p: nat, t: Tree)
    requires r < |g| && Lists(g, r, p) && Distinct(g[r].adjacent)
    requires g[r].flags !! {Saturated, Fragmented, AdjacentToRoot, Free}
    requires |KidsOf(g[r], p)| == |t.children|
    requires forall i | 0 <= i < |t.children| ::
               Hangs(g, KidsOf(g[r], p)[i], r, t.children[i]) && NoRepeats(g, KidsOf(g[r], p)[i], r, t.children[i])
    ensures Hangs(g, r, p, t) && NoRepeats(g, r, p, t)
  {
    hide Distinct, KidsOf;
  }

  lemma PeeledKids(g: seq<Region>, w: Window, tr: Trace, r: nat, p: nat)
    requires Peels(g, w, tr, -1) && r in tr.parent && r in tr.tree && tr.parent[r] == Some(p)
    ensures r < |g| && Lists(g, r, p) && Distinct(g[r].adjacent)
    ensures g[r].flags !! {Saturated, Fragmented, AdjacentToRoot, Free}
    ensures var ks := KidsOf(g[r], p);
            && |ks| == |tr.tree[r].children|
            && forall i | 0 <= i < |ks| ::
                 && ks[i] in tr.parent && ks[i] in tr.tree && tr.parent[ks[i]] == Some(r)
                 && tr.tree[r].children[i] == tr.tree[ks[i]] < tr.tree[r]
  {
    PeeledFacts(g, w, tr, r);
    KidsAt(g, tr, r, p);
  }

  lemma KidsAt(g: seq<Region>, tr: Trace, r: nat, p: nat)
    requires PeeledAt(g, tr, r) && tr.parent[r] == Some(p)
    ensures Lists(g, r, p) && g[r].flags !! {Saturated, Fragmented, AdjacentToRoot, Free}
    ensures var ks := KidsOf(g[r], p);
            && HasTrees(tr, ks) && tr.tree[r].children == Trees(tr, ks)
            && forall i | 0 <= i < |ks| ::
                 && ks[i] in tr.parent && tr.parent[ks[i]] == Some(r)
                 && tr.tree[r].children[i] == tr.tree[ks[i]] < tr.tree[r]
  {
    hide Size, Height, Kids, Once;
    KidsOfIn(g[r], p);
    OnceSame(g[r].adjacent);
    var ks := KidsOf(g[r], p);
    assert ks == Kids(g[r].adjacent, tr.parent[r]);
    hide HasTrees, Distinct;
    forall i | 0 <= i < |ks| ensures ks[i] in tr.parent && tr.parent[ks[i]] == Some(r) {
      assert ks[i] in ks && Lists(g, r, ks[i]);
    }
  }

  // ----- a start whose neighbour has been peeled into it

  /** find_roots takes for granted that nothing has reported to a leaf at which it starts. That
      holds exactly when the only neighbour of the leaf has not been peeled into it and reported;
      when it fails, everything but the leaf hangs from that neighbour as an unflagged tree. */
  lemma StartUnvisited(g: seq<Region>, w: Window, tr: Trace, r: nat)
    requires Peels(g, w, tr, -1) && r < |g| && IsStart(g, r) && !Traversed(g, r)
    ensures var c := g[r].adjacent[0];
            && c < |g| && Lists(g, c, r)
            && (g[r].childrenVisited == 0 <==> !(c in tr.parent && tr.parent[c] == Some(r) && Notifies(w, g[c])))
            && (g[r].childrenVisited != 0 ==> c in tr.tree && Hangs(g, c, r, tr.tree[c]))
  {
    var c := g[r].adjacent[0];
    assert Lists(g, r, c);
    OneReport(g, w, c);
    assert g[r].adjacent == [c];
    if Traversed(g, c) {
      PeeledTowards(g, w, tr, -1, r, c);
      PeeledHangs(g, w, tr, c, r);
    }
    assert c in tr.parent ==> c in tr.order;
  }

  /** It does fail: when the rest of the graph of a leaf is a tree in the window all of whose
      leaves come earlier, that tree has been peeled into the leaf and has reported. */
  lemma LastLeafIsVisited(g: seq<Region>, w: Window, tr: Trace, r: nat, c: nat, t: Tree)
    requires Peels(g, w, tr, -1) && r < |g| && IsStart(g, r) && !Traversed(g, r) && g[r].adjacent == [c]
    requires Hangs(g, c, r, t) && StartedIn(g, c, r, t) && NoRepeats(g, c, r, t)
    requires Size(t) - 1 < w.maxCount && Height(t) <= w.maxDepth
    ensures g[r].childrenVisited == 1
  {
    Unpeeled(g, w, tr, -1, r);
    HangingIsPeeled(g, w, tr, c, r, t);
    HasReported(g, w, tr, r, c);
    OneReport(g, w, c);
  }

  lemma OneReport(g: seq<Region>, w: Window, c: nat)
    ensures Reports(g, w, [c]) == if Counted(g, w, c) then 1 else 0
  {
    hide Counted;
    assert [c][1..] == [];
  }

  lemma HasReported(g: seq<Region>, w: Window, tr: Trace, r: nat, c: nat)
    requires Peels(g, w, tr, -1) && r < |g| && !Traversed(g, r) && g[r].adjacent == [c]
    requires c in tr.parent && c in tr.tree && tr.parent[c] == Some(r) && Size(tr.tree[c]) - 1 < w.maxCount
    ensures Counted(g, w, c) && g[r].childrenVisited == Reports(g, w, [c])
  {
    hide Size, Height, Kids, HasTrees, Reports, Notifies, Waiting;
    PeeledFacts(g, w, tr, c);
    assert c in tr.order && Traversed(g, c);
    ReportsAt(g, w, tr, c);
  }

  lemma ReportsAt(g: seq<Region>, w: Window, tr: Trace, c: nat)
    requires PeeledAt(g, tr, c) && tr.parent[c].Some? && Size(tr.tree[c]) - 1 < w.maxCount
    ensures Notifies(w, g[c])
  {
    hide Size, Height, Kids, HasTrees;
  }

  /** Two linked regions without flags. */
  function TwoLeaves(): seq<Region> {
    [Region(BLACK, 0, 0, 0, 0, {}, NOT_TRAVERSED, 0, 0, MAX_SHORT, None, [1]),
     Region(WHITE, 0, 0, 0, 0, {}, NOT_TRAVERSED, 0, 0, MAX_SHORT, None, [0])]
  }

  /** When the first of two linked leaves has been peeled, it has reported to the second one. */
  lemma SecondLeafIsVisited(w: Window, g': seq<Region>, tr: Trace)
    requires tr == Trace([], map[], map[]) && w.maxCount > 0 && w.maxDepth > 0
    requires Peel(TwoLeaves(), g', w, tr, 0, Some(1))
    ensures Symmetric(TwoLeaves()) && Pristine(TwoLeaves())
    ensures Peels(g', w, Extended(TwoLeaves(), tr, 0, Some(1)), -1)
    ensures IsStart(g', 1) && !Traversed(g', 1) && g'[1].childrenVisited == 1
  {
    var g := TwoLeaves();
    TwoLeavesBegin(w, tr);
    FirstLeafPeeled(w, g', tr);
    hide *;
    PeelStep(g, g', w, tr, 0, Some(1));
    StopsWaiting(g', w, Extended(g, tr, 0, Some(1)), 1);
  }

  lemma TwoLeavesBegin(w: Window, tr: Trace)
    requires tr == Trace([], map[], map[])
    ensures Symmetric(TwoLeaves()) && Pristine(TwoLeaves()) && Peels(TwoLeaves(), w, tr, 0) && Ready(TwoLeaves(), 0)
  {
    var g := TwoLeaves();
    TwoLeavesSymmetric();
    assert Pristine(g);
    hide Symmetric;
    Begin(g, w);
  }

  lemma TwoLeavesSymmetric()
    ensures Symmetric(TwoLeaves())
  {
  }

  lemma FirstLeafPeeled(w: Window, g': seq<Region>, tr: Trace)
    requires tr == Trace([], map[], map[]) && w.maxCount > 0 && w.maxDepth > 0
    requires Peel(TwoLeaves(), g', w, tr, 0, Some(1))
    ensures |g'| == 2 && IsStart(g', 1) && !Traversed(g', 1) && g'[1].childrenVisited == 1 && Waiting(g', w, 1)
    ensures HasTrees(tr, Peeled(TwoLeaves(), TwoLeaves()[0].adjacent))
  {
    var g := TwoLeaves();
    assert Peeled(g, [1]) == Peeled(g, [1][1..]) == [];
    assert Trees(tr, Peeled(g, g[0].adjacent)) == [];
    assert g'[0].descendentCount == 0;
  }

  lemma StopsWaiting(g: seq<Region>, w: Window, tr: Trace, p: nat)
    requires Peels(g, w, tr, p) && p < |g| && Waiting(g, w, p)
    ensures Peels(g, w, tr, -1)
  {
  }

  // ----- the far side

  /** A walk along the graph that avoids region r. */
  ghost predicate Walk(g: seq<Region>, path: seq<nat>, r: nat) {
    && path != []
    && (forall i | 0 <= i < |path| :: path[i] != r && path[i] < |g|)
    && (forall i | 0 <= i < |path| - 1 :: Lists(g, path[i], path[i + 1]))
  }

  /** Away from r, a flagged region can be reached from p. */
  ghost predicate FarSideFlagged(g: seq<Region>, r: nat, p: nat) {
    exists path :: Walk(g, path, r) && path[0] == p
                   && (AdjacentToRoot in g[path[|path| - 1]].flags || Fragmented in g[path[|path| - 1]].flags)
  }

  /** k parent steps lead from u to v. */
  ghost predicate Climbs(tr: Trace, u: nat, v: nat, k: nat)
    decreases k
  {
    if k == 0 then u == v
    else u in tr.parent && tr.parent[u].Some? && Climbs(tr, tr.parent[u].value, v, k - 1)
  }

  /** If p was peeled towards r, so was everything that can be reached from p away from r. */
  lemma {:induction false} WalkStaysBelow(g: seq<Region>, w: Window, tr: Trace, r: nat, path: seq<nat>, n: nat)
    requires Peels(g, w, tr, -1) && Walk(g, path, r) && n < |path|
    requires path[0] in tr.parent && tr.parent[path[0]] == Some(r)
    ensures path[n] in tr.parent && tr.parent[path[n]].Some?
    ensures exists k :: Climbs(tr, path[n], path[0], k)
    decreases n
  {
    hide Peels;
    if n == 0 {
      assert Climbs(tr, path[0], path[0], 0);
    } else {
      WalkStaysBelow(g, w, tr, r, path, n - 1);
      var u, v := path[n - 1], path[n - 1 + 1];
      assert Lists(g, u, v);
      var k: nat :| Climbs(tr, u, path[0], k);
      PeeledFacts(g, w, tr, u);
      if tr.parent[u] == Some(v) {
        assert k > 0;
        assert Climbs(tr, v, path[0], k - 1);
      } else {
        assert Climbs(tr, v, path[0], k + 1);
      }
    }
  }

  /** A flagged region on the far side keeps the far side from being peeled into r. */
  lemma FarSideNotPeeled(g: seq<Region>, w: Window, tr: Trace, r: nat, p: nat)
    requires Peels(g, w, tr, -1) && FarSideFlagged(g, r, p)
    ensures !(p in tr.parent && tr.parent[p] == Some(r))
  {
    var path :| Walk(g, path, r) && path[0] == p
                && (AdjacentToRoot in g[path[|path| - 1]].flags || Fragmented in g[path[|path| - 1]].flags);
    var last := path[|path| - 1];
    FlaggedParentless(g, w, tr, last);
    hide *;
    if p in tr.parent && tr.parent[p] == Some(r) {
      WalkStaysBelow(g, w, tr, r, path, |path| - 1);
      assert false;
    }
  }

  /** The tree that hangs from r away from p is determined by the graph. */
  lemma {:induction false} HangsUnique(g: seq<Region>, r: nat, p: nat, t: Tree, u: Tree)
    requires Hangs(g, r, p, t) && Hangs(g, r, p, u)
    ensures t == u
    decreases t
  {
    var ks := KidsOf(g[r], p);
    forall i | 0 <= i < |ks| ensures t.children[i] == u.children[i] {
      HangsUnique(g, ks[i], r, t.children[i], u.children[i]);
    }
    assert t.children == u.children;
  }

  /** When a hanging tree has a flagged region on its far side, its root can only have been
      peeled away from the tree, and none of its regions has a repeated entry. */
  lemma RootTraversed(g: seq<Region>, w: Window, tr: Trace, r: nat, p: nat, t: Tree)
    requires Peels(g, w, tr, -1) && Hangs(g, r, p, t) && FarSideFlagged(g, r, p) && Traversed(g, r)
    ensures r in tr.parent && r in tr.tree && tr.parent[r] == Some(p) && tr.tree[r] == t && NoRepeats(g, r, p, t)
  {
    assert r in tr.order && PeeledAt(g, tr, r) && Lists(g, r, p);
    FarSideNotPeeled(g, w, tr, r, p);
    PeeledHangs(g, w, tr, r, p);
    HangsUnique(g, r, p, t, tr.tree[r]);
  }

  lemma FlaggedParentless(g: seq<Region>, w: Window, tr: Trace, t: nat)
    requires t < |g| && (AdjacentToRoot in g[t].flags || Fragmented in g[t].flags)
    requires Peels(g, w, tr, -1)
    ensures t in tr.parent ==> tr.parent[t] == None
  {
    if t in tr.parent { PeeledFacts(g, w, tr, t); }
  }

  // ----- parts of the graph that no link leaves

  /** A set of regions that no link leaves. */
  ghost predicate Closed(g: seq<Region>, part: set<nat>) {
    forall a: nat, b: nat | a in part && Lists(g, a, b) :: b in part
  }

  predicate Flagged(region: Region) {
    AdjacentToRoot in region.flags || Fragmented in region.flags || Saturated in region.flags
  }

  /** The only link that leaves a hanging tree is that of its root. */
  lemma {:induction false} TreeClosed(g: seq<Region>, r: nat, p: nat, t: Tree, m: nat)
    requires Hangs(g, r, p, t) && InTree(g, r, p, t, m)
    ensures m < |g| && !Flagged(g[m]) && Free !in g[m].flags
    ensures forall b: nat | Lists(g, m, b) :: (m == r && b == p) || InTree(g, r, p, t, b)
    decreases t
  {
    var ks := KidsOf(g[r], p);
    KidsOfIn(g[r], p);
    if m == r {
      forall b: nat | Lists(g, m, b) && b != p ensures InTree(g, r, p, t, b) {
        var i :| 0 <= i < |ks| && ks[i] == b;
        assert InTree(g, ks[i], r, t.children[i], b);
      }
    } else {
      var i :| 0 <= i < |ks| && InTree(g, ks[i], r, t.children[i], m);
      TreeClosed(g, ks[i], r, t.children[i], m);
      forall b: nat | Lists(g, m, b) ensures InTree(g, r, p, t, b) {
        if b != r { assert InTree(g, ks[i], r, t.children[i], b); }
      }
    }
  }

  /** Some walk that avoids r leads from p to m. */
  ghost predicate Reaches(g: seq<Region>, r: nat, p: nat, m: nat) {
    exists path :: Walk(g, path, r) && path[0] == p && path[|path| - 1] == m
  }

  lemma ReachesNext(g: seq<Region>, r: nat, p: nat, m: nat, n: nat)
    requires Reaches(g, r, p, m) && Lists(g, m, n) && n < |g| && n != r
    ensures Reaches(g, r, p, n)
  {
    var path :| Walk(g, path, r) && path[0] == p && path[|path| - 1] == m;
    var longer := path + [n];
    forall i | 0 <= i < |longer| - 1 ensures Lists(g, longer[i], longer[i + 1]) {
      if i < |path| - 1 { assert Lists(g, path[i], path[i + 1]); }
    }
    assert Walk(g, longer, r) && longer[0] == p && longer[|longer| - 1] == n;
  }

  /** The hanging tree and what can be reached on its far side. */
  ghost function Component(g: seq<Region>, r: nat, p: nat, t: Tree): set<nat>
    requires Hangs(g, r, p, t)
  {
    set m: nat | m < |g| && (InTree(g, r, p, t, m) || Reaches(g, r, p, m))
  }

  /** They are a closed part of the graph, so a flag in every closed part puts one on the far
      side. */
  lemma ComponentClosed(g: seq<Region>, r: nat, p: nat, t: Tree)
    requires Hangs(g, r, p, t) && p < |g| && p != r
    requires forall a: nat, b: nat | Lists(g, a, b) :: b < |g|
    ensures Closed(g, Component(g, r, p, t)) && r in Component(g, r, p, t)
  {
    assert Walk(g, [p], r) && [p][0] == p;
    assert Reaches(g, r, p, p);
    var part := Component(g, r, p, t);
    forall a: nat, b: nat | a in part && Lists(g, a, b) ensures b in part {
      if InTree(g, r, p, t, a) {
        TreeClosed(g, r, p, t, a);
      } else if b != r {
        ReachesNext(g, r, p, a, b);
      }
    }
  }

  /** A region reached on the far side has a link. */
  lemma ReachedIsLinked(g: seq<Region>, r: nat, p: nat, m: nat)
    requires Reaches(g, r, p, m) && Lists(g, r, p)
    requires forall a: nat, b: nat | Lists(g, a, b) :: Lists(g, b, a)
    ensures m < |g| && g[m].adjacent != []
  {
    var path :| Walk(g, path, r) && path[0] == p && path[|path| - 1] == m;
    if |path| == 1 {
      assert Lists(g, p, r);
    } else {
      assert Lists(g, path[|path| - 2], path[|path| - 2 + 1]);
      assert Lists(g, m, path[|path| - 2]);
    }
  }

  /** If every closed part has a flag, then a hanging tree has one on its far side. */
  lemma FarSideHasFlag(g: seq<Region>, r: nat, p: nat, t: Tree, m: nat)
    requires Hangs(g, r, p, t) && m in Component(g, r, p, t) && Flagged(g[m])
    requires forall a: nat, b: nat | Lists(g, a, b) :: Lists(g, b, a)
    requires Saturated in g[m].flags ==> g[m].adjacent == []
    ensures FarSideFlagged(g, r, p)
  {
    if InTree(g, r, p, t, m) { TreeClosed(g, r, p, t, m); assert false; }
    ReachedIsLinked(g, r, p, m);
    var path :| Walk(g, path, r) && path[0] == p && path[|path| - 1] == m;
    assert AdjacentToRoot in g[path[|path| - 1]].flags || Fragmented in g[path[|path| - 1]].flags;
  }
}
