/** The leaf peeling of fidtrackX.c on a region graph: what has been peeled so far, as a
    value, and what peeling one more region keeps. */
module Peeling {
  import opened Options
  import opened Regions
  import opened DepthStrings
  import opened Sequences

  const NOT_TRAVERSED: int := UNKNOWN_REGION_LEVEL
  const TRAVERSED: int := NOT_TRAVERSED - 1
  const TRAVERSING: int := NOT_TRAVERSED - 2

  /** The size and depth windows of FidtrackerX. */
  datatype Window = Window(minCount: int, maxCount: int, minRange: int, maxRange: int, minDepth: int, maxDepth: int)

  /** x is listed more than once. */
  predicate Repeats(list: seq<nat>, x: nat) {
    exists i, j | 0 <= i < j < |list| :: list[i] == x && list[j] == x
  }

  /** A symmetric graph without loops, in which freed regions have no links.  An entry may be
      repeated, but then it is repeated at both ends of the link. */
  ghost predicate Symmetric(g: seq<Region>) {
    && (forall a | 0 <= a < |g| && Free in g[a].flags :: g[a].adjacent == [])
    && (forall a, b | Lists(g, a, b) :: b < |g| && b != a && Lists(g, b, a))
    && (forall a: nat, b: nat | a < |g| && b < |g| && Repeats(g[a].adjacent, b) :: Repeats(g[b].adjacent, a))
  }

  predicate Traversed(g: seq<Region>, r: int) { 0 <= r < |g| && g[r].level == TRAVERSED }

  /** A region at which peeling may start: a leaf without flags. */
  predicate IsStart(g: seq<Region>, r: nat)
    requires r < |g|
  {
    |g[r].adjacent| == 1 && g[r].flags !! {Saturated, Fragmented, AdjacentToRoot, Free}
  }

  predicate InDepth(w: Window, region: Region) { w.minDepth <= region.depth <= w.maxDepth }

  /** The largest candidates; the search does not look above them. */
  predicate IsLargest(w: Window, region: Region) {
    region.descendentCount == w.maxCount && InDepth(w, region)
  }

  predicate IsFitting(w: Window, region: Region) {
    w.minCount <= region.descendentCount < w.maxCount && InDepth(w, region)
  }

  /** Regions of nearly the right size, recorded as lost symbols. */
  predicate IsFuzzy(w: Window, region: Region) {
    && !IsLargest(w, region) && !IsFitting(w, region)
    && w.minRange <= region.descendentCount < w.maxRange && InDepth(w, region)
  }

  predicate IsCandidate(w: Window, region: Region) {
    IsLargest(w, region) || IsFitting(w, region) || IsFuzzy(w, region)
  }

  /** A peeled region that reports to its parent. */
  predicate Notifies(w: Window, region: Region) {
    !IsLargest(w, region) && region.flags !! {Saturated, AdjacentToRoot, Free}
  }

  /** The search may continue above such a region. */
  predicate InWindow(w: Window, region: Region) {
    region.descendentCount < w.maxCount && region.depth < w.maxDepth
  }

  // ----- the trace of the peeling

  /** The regions in the order of peeling, the neighbour each of them was peeled towards
      and the tree that has been peeled into it. */
  datatype Trace = Trace(order: seq<nat>, parent: map<nat, Option<nat>>, tree: map<nat, Tree>)

  /** The neighbours of a region other than its parent. */
  ghost function Kids(list: seq<nat>, p: Option<nat>): seq<nat> {
    if list == [] then []
    else (if Some(list[0]) == p then [] else [list[0]]) + Kids(list[1..], p)
  }

  /** The neighbours that the loop of the propagation counts. */
  ghost function Peeled(g: seq<Region>, list: seq<nat>): seq<nat> {
    if list == [] then []
    else (if Traversed(g, list[0]) then [list[0]] else []) + Peeled(g, list[1..])
  }

  ghost predicate HasTrees(tr: Trace, ks: seq<nat>) {
    forall i | 0 <= i < |ks| :: ks[i] in tr.tree
  }

  ghost function Trees(tr: Trace, ks: seq<nat>): seq<Tree>
    requires HasTrees(tr, ks)
  {
    seq(|ks|, i requires 0 <= i < |ks| => tr.tree[ks[i]])
  }

  ghost predicate Counted(g: seq<Region>, w: Window, c: nat) {
    Traversed(g, c) && Notifies(w, g[c])
  }

  /** The number of neighbours that have reported, each of them once. */
  ghost function Reports(g: seq<Region>, w: Window, list: seq<nat>): nat {
    if list == [] then 0
    else (if Counted(g, w, list[0]) && list[0] !in list[1..] then 1 else 0) + Reports(g, w, list[1..])
  }

  /** Region t has been peeled towards its parent: all its other neighbours were peeled
      towards t before, none of them listed twice, and its counts are those of the tree they
      form. */
  ghost predicate PeeledAt(g: seq<Region>, tr: Trace, t: nat) {
    && t < |g| && t in tr.parent && t in tr.tree && Distinct(g[t].adjacent)
    && (tr.parent[t].Some? ==>
          var p := tr.parent[t].value; Lists(g, t, p) && (p in tr.parent ==> tr.parent[p] != Some(t)))
    && (forall c | Lists(g, t, c) && tr.parent[t] != Some(c) :: c in tr.parent && tr.parent[c] == Some(t))
    && HasTrees(tr, Kids(g[t].adjacent, tr.parent[t]))
    && tr.tree[t] == Node(Trees(tr, Kids(g[t].adjacent, tr.parent[t])))
    && g[t].descendentCount == Size(tr.tree[t]) - 1 && g[t].depth == Height(tr.tree[t])
    && Saturated !in g[t].flags && Free !in g[t].flags
    && (AdjacentToRoot in g[t].flags || Fragmented in g[t].flags ==> tr.parent[t] == None)
  }

  /** An unpeeled inner region without flags still waits for neighbours, unless one of
      its peeled neighbours ended the search. */
  ghost predicate Waiting(g: seq<Region>, w: Window, p: nat)
    requires p < |g|
  {
    g[p].flags !! {Saturated, AdjacentToRoot, Fragmented} && |g[p].adjacent| >= 2
    && (forall c | c in g[p].adjacent && Traversed(g, c) :: Notifies(w, g[c]) && InWindow(w, g[c]))
    ==> g[p].childrenVisited < |g[p].adjacent| - 1
  }

  ghost predicate OrderOf(g: seq<Region>, tr: Trace) {
    && (forall i, j | 0 <= i < j < |tr.order| :: tr.order[i] != tr.order[j])
    && (forall r | r in tr.order :: Traversed(g, r))
    && (forall r: nat | Traversed(g, r) :: r in tr.order)
    && (forall r | r in tr.order :: r in tr.parent && r in tr.tree)
    && (forall r | r in tr.parent :: r in tr.order)
    && (forall r | r in tr.tree :: r in tr.order)
  }

  /** The state of the peeling; region exempt, if any, may no longer be waiting. */
  ghost predicate Peels(g: seq<Region>, w: Window, tr: Trace, exempt: int) {
    && Symmetric(g)
    && OrderOf(g, tr)
    && (forall t | t in tr.parent :: PeeledAt(g, tr, t))
    && (forall p: nat | p < |g| && !Traversed(g, p) ::
          && g[p].level == NOT_TRAVERSED && g[p].descendentCount == MAX_SHORT
          && g[p].childrenVisited == Reports(g, w, g[p].adjacent))
    && (forall p: nat | p < |g| && !Traversed(g, p) && p != exempt :: Waiting(g, w, p))
  }

  /** The candidates among the peeled regions, in the order of peeling. */
  ghost function Candidates(g: seq<Region>, w: Window, order: seq<nat>): seq<nat> {
    if order == [] then []
    else
      var init, last := order[..|order| - 1], order[|order| - 1];
      Candidates(g, w, init) + if last < |g| && IsCandidate(w, g[last]) then [last] else []
  }

  // ----- lists of neighbours

  lemma {:induction false} PeeledAreKids(g: seq<Region>, list: seq<nat>, p: Option<nat>)
    requires forall c | c in list :: Traversed(g, c) <==> Some(c) != p
    ensures Peeled(g, list) == Kids(list, p)
  {
    if list == [] {
    } else {
      assert list[0] in list;
      assert forall c | c in list[1..] :: c in list;
      PeeledAreKids(g, list[1..], p);
    }
  }

  lemma {:induction false} PeeledSnoc(g: seq<Region>, list: seq<nat>, c: nat)
    ensures Peeled(g, list + [c]) == Peeled(g, list) + if Traversed(g, c) then [c] else []
  {
    if list == [] {
    } else {
      PeeledSnoc(g, list[1..], c);
      assert (list + [c])[1..] == list[1..] + [c];
    }
  }

  lemma {:induction false} KidsIn(list: seq<nat>, p: Option<nat>)
    ensures forall c :: c in Kids(list, p) <==> c in list && Some(c) != p
  {
    if list == [] {
    } else {
      KidsIn(list[1..], p);
      assert list == [list[0]] + list[1..];
    }
  }

  /** The slot does not count: its region has not reported, or stands in a later slot again. */
  ghost predicate Silent(g: seq<Region>, w: Window, list: seq<nat>, i: nat)
    requires i < |list|
  {
    !Counted(g, w, list[i]) || list[i] in list[i + 1..]
  }

  lemma {:induction false} ReportsBound(g: seq<Region>, w: Window, list: seq<nat>)
    ensures Reports(g, w, list) <= |list|
    ensures forall i: nat | i < |list| && Silent(g, w, list, i) :: Reports(g, w, list) <= |list| - 1
    ensures forall i: nat, j: nat | i < j < |list| && Silent(g, w, list, i) && Silent(g, w, list, j) ::
              Reports(g, w, list) <= |list| - 2
  {
    hide Counted;
    if list == [] {
    } else {
      ReportsBound(g, w, list[1..]);
      forall i: nat | 0 < i < |list| ensures Silent(g, w, list, i) <==> Silent(g, w, list[1..], i - 1) {
        assert list[1..][i - 1] == list[i] && list[1..][i - 1 + 1..] == list[i + 1..];
      }
      assert list[0 + 1..] == list[1..];
    }
  }

  /** Reports change by the newly counted region only. */
  lemma {:induction false} ReportsChange(g: seq<Region>, g': seq<Region>, w: Window, list: seq<nat>, r: nat)
    requires forall c | c in list && c != r :: Counted(g', w, c) == Counted(g, w, c)
    requires !Counted(g, w, r)
    ensures Reports(g', w, list) == Reports(g, w, list) + if r in list && Counted(g', w, r) then 1 else 0
  {
    hide Counted;
    if list == [] {
    } else {
      assert list == [list[0]] + list[1..];
      assert forall c | c in list[1..] :: c in list;
      ReportsChange(g, g', w, list[1..], r);
    }
  }

  lemma {:induction false} SizeSnoc(ts: seq<Tree>, t: Tree)
    ensures SizeOf(ts + [t]) == SizeOf(ts) + Size(t)
    ensures HeightOf(ts + [t]) == if Height(t) + 1 > HeightOf(ts) then Height(t) + 1 else HeightOf(ts)
  {
    if ts == [] {
    } else {
      SizeSnoc(ts[1..], t);
      assert (ts + [t])[1..] == ts[1..] + [t];
    }
  }

  // ----- peeling one region

  /** Region r may be peeled now. */
  ghost predicate Ready(g: seq<Region>, r: nat) {
    && r < |g| && g[r].level == NOT_TRAVERSED
    && Saturated !in g[r].flags && Free !in g[r].flags
    && |g[r].adjacent| - 1 <= g[r].childrenVisited
    && (AdjacentToRoot in g[r].flags || Fragmented in g[r].flags ==> g[r].childrenVisited == |g[r].adjacent|)
  }

  /** The peeled neighbours of an unpeeled region were all peeled towards it. */
  lemma PeeledTowards(g: seq<Region>, w: Window, tr: Trace, exempt: int, r: nat, c: nat)
    requires Peels(g, w, tr, exempt) && r < |g| && !Traversed(g, r) && Lists(g, r, c) && Traversed(g, c)
    ensures c in tr.parent && c in tr.tree && tr.parent[c] == Some(r)
  {
    assert c in tr.order && PeeledAt(g, tr, c) && Lists(g, c, r);
    assert r !in tr.parent;
  }

  /** The counts recorded at a peeled region. */
  lemma PeeledCounts(g: seq<Region>, w: Window, tr: Trace, exempt: int, c: nat)
    requires Peels(g, w, tr, exempt) && c in tr.parent
    ensures c in tr.order && c in tr.tree && c < |g|
    ensures g[c].descendentCount == Size(tr.tree[c]) - 1 && g[c].depth == Height(tr.tree[c])
  {
    assert PeeledAt(g, tr, c);
  }

  /** A region with a repeated entry is never peeled. */
  lemma RepeatNotPeeled(g: seq<Region>, w: Window, tr: Trace, exempt: int, r: nat)
    requires Peels(g, w, tr, exempt) && r < |g| && !Distinct(g[r].adjacent)
    ensures !Traversed(g, r)
  {
    assert Traversed(g, r) ==> r in tr.order && PeeledAt(g, tr, r);
  }

  /** Nor is it ever ready: the neighbour that is listed twice would have to report first, but it
      lists the region twice itself. */
  lemma ReadyNoRepeat(g: seq<Region>, w: Window, tr: Trace, exempt: int, r: nat)
    requires Peels(g, w, tr, exempt) && Ready(g, r)
    ensures Distinct(g[r].adjacent)
  {
    var list := g[r].adjacent;
    forall i, j | 0 <= i < j < |list| && list[i] == list[j] ensures false {
      RepeatIsSilent(g, w, tr, exempt, r, i, j);
      hide Peels;
      ReportsBound(g, w, list);
      assert false;
    }
  }

  lemma RepeatIsSilent(g: seq<Region>, w: Window, tr: Trace, exempt: int, r: nat, i: nat, j: nat)
    requires Peels(g, w, tr, exempt) && r < |g| && !Traversed(g, r)
    requires i < j < |g[r].adjacent| && g[r].adjacent[i] == g[r].adjacent[j]
    ensures Silent(g, w, g[r].adjacent, i) && Silent(g, w, g[r].adjacent, j)
    ensures g[r].childrenVisited == Reports(g, w, g[r].adjacent)
  {
    var list, a := g[r].adjacent, g[r].adjacent[i];
    assert Lists(g, r, a);
    assert Repeats(list, a);
    assert Repeats(g[a].adjacent, r);
    RepeatNotPeeled(g, w, tr, exempt, a);
  }

  /** When a region is peeled, at most one of its neighbours is unpeeled, and none if it
      is flagged. */
  lemma OneParent(g: seq<Region>, w: Window, tr: Trace, exempt: int, r: nat, i: nat, j: nat)
    requires Peels(g, w, tr, exempt) && Ready(g, r) && i < j < |g[r].adjacent|
    ensures Traversed(g, g[r].adjacent[i]) || Traversed(g, g[r].adjacent[j])
  {
    var list := g[r].adjacent;
    ReportsBound(g, w, list);
    assert !Traversed(g, list[i]) ==> Silent(g, w, list, i);
    assert !Traversed(g, list[j]) ==> Silent(g, w, list, j);
  }

  lemma FlaggedHasNoParent(g: seq<Region>, w: Window, tr: Trace, exempt: int, r: nat, i: nat)
    requires Peels(g, w, tr, exempt) && Ready(g, r) && i < |g[r].adjacent|
    requires AdjacentToRoot in g[r].flags || Fragmented in g[r].flags
    ensures Traversed(g, g[r].adjacent[i])
  {
    var list := g[r].adjacent;
    ReportsBound(g, w, list);
    assert !Traversed(g, list[i]) ==> Silent(g, w, list, i);
  }

  /** p is the unpeeled neighbour of r, if there is one. */
  ghost predicate IsParent(g: seq<Region>, r: nat, p: Option<nat>)
    requires r < |g|
  {
    && (p.Some? ==> Lists(g, r, p.value))
    && forall c | c in g[r].adjacent :: Traversed(g, c) <==> Some(c) != p
  }

  /** The tree formed by the peeled neighbours of r. */
  ghost function PeeledTree(g: seq<Region>, tr: Trace, r: nat): Tree
    requires r < |g| && HasTrees(tr, Peeled(g, g[r].adjacent))
  {
    Node(Trees(tr, Peeled(g, g[r].adjacent)))
  }

  /** The records after r was peeled towards p; flags may have gained LostSymbol. */
  ghost predicate Peel(g: seq<Region>, g': seq<Region>, w: Window, tr: Trace, r: nat, p: Option<nat>) {
    && r < |g| && IsParent(g, r, p) && |g'| == |g|
    && HasTrees(tr, Peeled(g, g[r].adjacent))
    && g'[r] == g[r].(level := TRAVERSED, descendentCount := Size(PeeledTree(g, tr, r)) - 1,
                      depth := Height(PeeledTree(g, tr, r)), flags := g'[r].flags)
    && (g'[r].flags == g[r].flags || g'[r].flags == g[r].flags + {LostSymbol})
    && forall q | 0 <= q < |g| && q != r ::
         g'[q] == if Some(q) == p && Notifies(w, g'[r])
                  then g[q].(childrenVisited := g[q].childrenVisited + 1)
                  else g[q]
  }

  ghost function Extended(g: seq<Region>, tr: Trace, r: nat, p: Option<nat>): Trace
    requires r < |g| && HasTrees(tr, Peeled(g, g[r].adjacent))
  {
    Trace(tr.order + [r], tr.parent[r := p], tr.tree[r := PeeledTree(g, tr, r)])
  }

  lemma PeelKeepsOrder(g: seq<Region>, g': seq<Region>, w: Window, tr: Trace, r: nat, p: Option<nat>)
    requires OrderOf(g, tr) && !Traversed(g, r) && Peel(g, g', w, tr, r, p)
    ensures OrderOf(g', Extended(g, tr, r, p))
    ensures forall q: nat | q != r :: Traversed(g', q) <==> Traversed(g, q)
  {
    var tr' := Extended(g, tr, r, p);
    assert forall q: nat | q != r :: Traversed(g', q) <==> Traversed(g, q);
    forall q: nat | Traversed(g', q) ensures q in tr'.order {
      if q == r {
        assert tr'.order[|tr.order|] == r;
      } else {
        assert q in tr.order;
      }
    }
  }

  lemma PeelKeepsOthers(g: seq<Region>, g': seq<Region>, w: Window, tr: Trace, r: nat, p: Option<nat>, t: nat)
    requires Peels(g, w, tr, r) && Ready(g, r) && Peel(g, g', w, tr, r, p) && t in tr.parent
    ensures PeeledAt(g', Extended(g, tr, r, p), t)
  {
    assert t in tr.order && Traversed(g, t) && PeeledAt(g, tr, t);
    assert r !in tr.order && r !in tr.parent && r !in tr.tree;
    assert t != r && Some(t) != p;
    TraceGrows(g, g', tr, Extended(g, tr, r, p), t, r);
  }

  /** A longer trace says the same about a region that was peeled before. */
  lemma TraceGrows(g: seq<Region>, g': seq<Region>, tr: Trace, tr': Trace, t: nat, r: nat)
    requires PeeledAt(g, tr, t) && t != r && r !in tr.parent && r !in tr.tree
    requires |g'| == |g| && g'[t] == g[t]
    requires r in tr'.parent && tr'.parent == tr.parent[r := tr'.parent[r]] && tr'.parent[r] != Some(t)
    requires r in tr'.tree && tr'.tree == tr.tree[r := tr'.tree[r]]
    ensures PeeledAt(g', tr', t)
  {
    var ks := Kids(g[t].adjacent, tr.parent[t]);
    assert Trees(tr', ks) == Trees(tr, ks);
    assert forall c :: Lists(g', t, c) <==> Lists(g, t, c);
  }

  lemma Unpeeled(g: seq<Region>, w: Window, tr: Trace, exempt: int, r: nat)
    requires Peels(g, w, tr, exempt) && !Traversed(g, r)
    ensures r !in tr.order && r !in tr.parent && r !in tr.tree
  {
  }

  lemma NewParentOk(g: seq<Region>, g': seq<Region>, w: Window, tr: Trace, r: nat, p: Option<nat>)
    requires Peels(g, w, tr, r) && Ready(g, r) && Peel(g, g', w, tr, r, p)
    ensures p.Some? ==> p.value != r && p.value !in tr.parent
    ensures AdjacentToRoot in g[r].flags || Fragmented in g[r].flags ==> p == None
  {
    if p.Some? {
      assert Lists(g, r, p.value);
      Unpeeled(g, w, tr, r, p.value);
      var i :| 0 <= i < |g[r].adjacent| && g[r].adjacent[i] == p.value;
      if AdjacentToRoot in g[r].flags || Fragmented in g[r].flags {
        FlaggedHasNoParent(g, w, tr, r, r, i);
        assert false;
      }
    }
  }

  lemma PeelAtNew(g: seq<Region>, g': seq<Region>, w: Window, tr: Trace, r: nat, p: Option<nat>)
    requires Peels(g, w, tr, r) && Ready(g, r) && Peel(g, g', w, tr, r, p)
    ensures PeeledAt(g', Extended(g, tr, r, p), r)
  {
    hide Peels, Size, Height;
    var tr' := Extended(g, tr, r, p);
    var list := g[r].adjacent;
    ReadyNoRepeat(g, w, tr, r, r);
    PeeledAreKids(g, list, p);
    Unpeeled(g, w, tr, r, r);
    NewParentOk(g, g', w, tr, r, p);
    forall c | Lists(g', r, c) && p != Some(c) ensures c in tr'.parent && tr'.parent[c] == Some(r) {
      assert Lists(g, r, c) && Traversed(g, c);
      PeeledTowards(g, w, tr, r, r, c);
    }
    var ks := Peeled(g, list);
    assert Trees(tr', ks) == Trees(tr, ks);
  }

  lemma PeelKeepsReports(g: seq<Region>, g': seq<Region>, w: Window, tr: Trace, r: nat, p: Option<nat>, q: nat)
    requires Peels(g, w, tr, r) && Ready(g, r) && Peel(g, g', w, tr, r, p) && q < |g| && !Traversed(g, q) && q != r
    ensures g'[q].level == NOT_TRAVERSED && g'[q].descendentCount == MAX_SHORT
    ensures g'[q].childrenVisited == Reports(g', w, g'[q].adjacent)
  {
    hide HasTrees, Size, Height, PeeledAt, OrderOf, Waiting;
    assert Lists(g, q, r) <==> Lists(g, r, q);
    assert r in g[q].adjacent <==> Some(q) == p by {
      if r in g[q].adjacent {
        assert Lists(g, q, r);
        assert q in g[r].adjacent;
      }
    }
    forall c | c in g[q].adjacent && c != r ensures Counted(g', w, c) == Counted(g, w, c) {
      assert Lists(g, q, c);
    }
    ReportsChange(g, g', w, g[q].adjacent, r);
  }

  lemma PeelKeepsWaiting(g: seq<Region>, g': seq<Region>, w: Window, tr: Trace, r: nat, p: Option<nat>, q: nat)
    requires Peels(g, w, tr, r) && Ready(g, r) && Peel(g, g', w, tr, r, p)
    requires q < |g| && !Traversed(g, q) && q != r && Some(q) != p
    ensures Waiting(g', w, q)
  {
    assert Waiting(g, w, q);
    assert !Lists(g, r, q);
    assert !Lists(g, q, r);
    if forall c | c in g'[q].adjacent && Traversed(g', c) :: Notifies(w, g'[c]) && InWindow(w, g'[c]) {
      forall c | c in g[q].adjacent && Traversed(g, c) ensures Notifies(w, g[c]) && InWindow(w, g[c]) {
        assert Lists(g, q, c) && c != r && Some(c) != p;
        assert g'[c] == g[c];
      }
    }
  }

  lemma PeelKeepsSymmetric(g: seq<Region>, g': seq<Region>, w: Window, tr: Trace, r: nat, p: Option<nat>)
    requires Symmetric(g) && Peel(g, g', w, tr, r, p)
    ensures Symmetric(g')
  {
    hide HasTrees, Size, Height, Notifies;
    forall a | 0 <= a < |g| ensures g'[a].adjacent == g[a].adjacent && (Free in g'[a].flags <==> Free in g[a].flags) {}
    assert forall a, b :: Lists(g', a, b) <==> Lists(g, a, b);
  }

  lemma NewKept(g: seq<Region>, g': seq<Region>, w: Window, tr: Trace, r: nat, p: Option<nat>)
    requires Peels(g, w, tr, r) && Ready(g, r) && Peel(g, g', w, tr, r, p)
    ensures Traversed(g', r) && |g'| == |g| && forall q: nat | q != r :: Traversed(g', q) <==> Traversed(g, q)
    ensures p.Some? ==> p.value < |g|
  {
    hide Symmetric, OrderOf, PeeledAt, Waiting, Size, Height, Notifies, HasTrees, Reports, Counted, Kids;
    NewParentOk(g, g', w, tr, r, p);
    assert p.Some? ==> Lists(g, r, p.value);
    SymmetricBound(g, r);
  }

  lemma SymmetricBound(g: seq<Region>, r: nat)
    requires Symmetric(g)
    ensures forall b | Lists(g, r, b) :: b < |g|
  {
  }

  /** Peeling a region that is ready keeps the trace; only its parent may stop waiting. */
  lemma PeelStep(g: seq<Region>, g': seq<Region>, w: Window, tr: Trace, r: nat, p: Option<nat>)
    requires Peels(g, w, tr, r) && Ready(g, r) && Peel(g, g', w, tr, r, p)
    ensures Peels(g', w, Extended(g, tr, r, p), if p.Some? then p.value else -1)
  {
    hide Symmetric, OrderOf, PeeledAt, Waiting, Size, Height, Notifies, HasTrees, Reports, Counted, Kids;
    var tr' := Extended(g, tr, r, p);
    PeelKeepsSymmetric(g, g', w, tr, r, p);
    PeelKeepsOrder(g, g', w, tr, r, p);
    NewKept(g, g', w, tr, r, p);
    hide Peel, Ready;
    forall t | t in tr'.parent ensures PeeledAt(g', tr', t) {
      if t == r { PeelAtNew(g, g', w, tr, r, p); } else { PeelKeepsOthers(g, g', w, tr, r, p, t); }
    }
    forall q: nat | q < |g'| && !Traversed(g', q)
      ensures g'[q].level == NOT_TRAVERSED && g'[q].descendentCount == MAX_SHORT
      ensures g'[q].childrenVisited == Reports(g', w, g'[q].adjacent)
      ensures Some(q) != p ==> Waiting(g', w, q)
    {
      PeelKeepsReports(g, g', w, tr, r, p, q);
      if Some(q) != p { PeelKeepsWaiting(g, g', w, tr, r, p, q); }
    }
  }

  // ----- the parent of the peeled region

  /** The test that decides whether the propagation goes on at the parent. */
  predicate GoesOn(g: seq<Region>, w: Window, r: nat, p: nat)
    requires r < |g| && p < |g|
  {
    && InWindow(w, g[r]) && Saturated !in g[p].flags
    && if AdjacentToRoot in g[p].flags || Fragmented in g[p].flags
       then g[p].childrenVisited == |g[p].adjacent|
       else g[p].childrenVisited == |g[p].adjacent| - 1
  }

  /** If the propagation stops below p, then p is still waiting. */
  lemma ParentWaits(g: seq<Region>, g': seq<Region>, w: Window, tr: Trace, r: nat, p: nat)
    requires Peels(g, w, tr, r) && Ready(g, r) && Peel(g, g', w, tr, r, Some(p))
    requires p < |g| && !(Notifies(w, g'[r]) && GoesOn(g', w, r, p))
    ensures Waiting(g', w, p)
  {
    assert Lists(g, r, p) && Lists(g, p, r) && p != r && !Traversed(g, p);
    assert Waiting(g, w, p);
    assert r in g'[p].adjacent && Traversed(g', r);
    if forall c | c in g'[p].adjacent && Traversed(g', c) :: Notifies(w, g'[c]) && InWindow(w, g'[c]) {
      forall c | c in g[p].adjacent && Traversed(g, c) ensures Notifies(w, g[c]) && InWindow(w, g[c]) {
        assert Lists(g, p, c) && c != r && c != p;
        assert g'[c] == g[c];
      }
    }
  }

  /** If it goes on, then p is ready. */
  lemma ParentReady(g: seq<Region>, g': seq<Region>, w: Window, tr: Trace, r: nat, p: nat)
    requires Peels(g, w, tr, r) && Ready(g, r) && Peel(g, g', w, tr, r, Some(p))
    requires p < |g| && Notifies(w, g'[r]) && GoesOn(g', w, r, p)
    ensures Ready(g', p) && !IsStart(g', p)
  {
    assert Lists(g, r, p) && Lists(g, p, r) && p != r && !Traversed(g, p);
  }

  // ----- where the peeling goes

  /** Behind the first n peeled regions t is a leaf to start from, or the parent of the last one,
      which reported and is smaller and flatter than the largest trees searched for. */
  ghost predicate Reached(g: seq<Region>, w: Window, tr: Trace, n: nat, t: nat)
    requires n <= |tr.order|
  {
    && t < |g|
    && (IsStart(g, t)
        || (n > 0
            && var c := tr.order[n - 1];
               && c < |g| && c in tr.parent && tr.parent[c] == Some(t)
               && Notifies(w, g[c]) && InWindow(w, g[c])))
  }

  /** Every peeled region was reached in this way, and those that were peeled towards a parent had
      reports of all their children. */
  ghost predicate Climbed(g: seq<Region>, w: Window, tr: Trace) {
    && (forall i | 0 <= i < |tr.order| :: Reached(g, w, tr, i, tr.order[i]))
    && (forall t | t in tr.parent && tr.parent[t].Some? :: ChildrenReport(g, w, tr, t))
  }

  ghost predicate ChildrenReport(g: seq<Region>, w: Window, tr: Trace, t: nat) {
    forall c | c in tr.parent && tr.parent[c] == Some(t) :: c < |g| && Notifies(w, g[c])
  }

  lemma TwoSilent(g: seq<Region>, w: Window, list: seq<nat>, i: nat, j: nat)
    requires i < |list| && j < |list| && i != j && Silent(g, w, list, i) && Silent(g, w, list, j)
    ensures Reports(g, w, list) <= |list| - 2
  {
    ReportsBound(g, w, list);
  }

  /** A region that is ready and has a parent has had reports of all its other neighbours. */
  lemma ReadyReports(g: seq<Region>, w: Window, tr: Trace, r: nat, p: Option<nat>)
    requires Peels(g, w, tr, r) && Ready(g, r) && IsParent(g, r, p) && p.Some?
    ensures ChildrenReport(g, w, tr, r) && p.value !in tr.parent
  {
    assert Lists(g, r, p.value);
    Unpeeled(g, w, tr, r, p.value);
    hide Peels, Ready, IsParent, Notifies;
    forall c | c in tr.parent && tr.parent[c] == Some(r) ensures c < |g| && Notifies(w, g[c]) {
      ChildReported(g, w, tr, r, p.value, c);
    }
  }

  lemma ChildReported(g: seq<Region>, w: Window, tr: Trace, r: nat, p: nat, c: nat)
    requires Peels(g, w, tr, r) && Ready(g, r) && IsParent(g, r, Some(p))
    requires c in tr.parent && tr.parent[c] == Some(r)
    ensures c < |g| && Notifies(w, g[c])
  {
    var list := g[r].adjacent;
    ChildListedBack(g, w, tr, r, c);
    var i :| 0 <= i < |list| && list[i] == c;
    var j :| 0 <= j < |list| && list[j] == p;
    assert !Traversed(g, p) && p != c;
    assert g[r].childrenVisited == Reports(g, w, list);
    if !Counted(g, w, c) {
      assert Silent(g, w, list, i) && Silent(g, w, list, j);
      TwoSilent(g, w, list, i, j);
    }
  }

  lemma ChildListedBack(g: seq<Region>, w: Window, tr: Trace, r: nat, c: nat)
    requires Peels(g, w, tr, r) && c in tr.parent && tr.parent[c] == Some(r)
    ensures Lists(g, r, c) && Traversed(g, c)
  {
    assert PeeledAt(g, tr, c) && Lists(g, c, r);
  }

  lemma NothingClimbed(g: seq<Region>, w: Window)
    ensures Climbed(g, w, Trace([], map[], map[]))
  {
  }

  lemma ClimbStep(g: seq<Region>, g': seq<Region>, w: Window, tr: Trace, r: nat, p: Option<nat>)
    requires Climbed(g, w, tr) && Reached(g, w, tr, |tr.order|, r) && Peel(g, g', w, tr, r, p)
    requires p.Some? ==> ChildrenReport(g, w, tr, r) && p.value !in tr.parent && p.value != r
    requires (forall t | t in tr.parent :: t in tr.order) && r !in tr.parent
    requires r !in tr.order && forall t | t in tr.order :: t < |g| && g'[t] == g[t]
    ensures Climbed(g', w, Extended(g, tr, r, p))
    ensures p.Some? && p.value < |g| && Notifies(w, g'[r]) && GoesOn(g', w, r, p.value) ==>
              Reached(g', w, Extended(g, tr, r, p), |tr.order| + 1, p.value)
  {
    hide Notifies, Size, Height, HasTrees, PeeledTree, IsParent;
    var tr' := Extended(g, tr, r, p);
    forall i | 0 <= i < |tr'.order| ensures Reached(g', w, tr', i, tr'.order[i]) {
      if i > 0 { assert tr'.order[i - 1] == tr.order[i - 1] && tr.order[i - 1] in tr.order; }
      if i < |tr.order| { assert Reached(g, w, tr, i, tr.order[i]) && tr.order[i] in tr.order; }
    }
    forall t | t in tr'.parent && tr'.parent[t].Some? ensures ChildrenReport(g', w, tr', t) {
      if t != r { assert ChildrenReport(g, w, tr, t); }
    }
  }

  lemma {:induction false} CandidatesKept(g: seq<Region>, g': seq<Region>, w: Window, order: seq<nat>)
    requires forall r | r in order :: r < |g| && r < |g'| && g'[r] == g[r]
    ensures Candidates(g', w, order) == Candidates(g, w, order)
  {
    if order == [] {
    } else {
      var init := order[..|order| - 1];
      assert forall r | r in init :: r in order;
      CandidatesKept(g, g', w, init);
    }
  }

  lemma {:induction false} CandidatesIn(g: seq<Region>, w: Window, order: seq<nat>)
    ensures forall r :: r in Candidates(g, w, order) <==> r in order && r < |g| && IsCandidate(w, g[r])
  {
    if order == [] {
    } else {
      var init := order[..|order| - 1];
      CandidatesIn(g, w, init);
      assert order == init + [order[|order| - 1]];
    }
  }

  /** Nothing has been peeled yet. */
  ghost predicate Pristine(g: seq<Region>) {
    forall r: nat | r < |g| ::
      && g[r].level == NOT_TRAVERSED && g[r].childrenVisited == 0 && g[r].descendentCount == MAX_SHORT
      && LostSymbol !in g[r].flags
  }

  lemma {:induction false} NothingReports(g: seq<Region>, w: Window, list: seq<nat>)
    requires forall r :: !Traversed(g, r)
    ensures Reports(g, w, list) == 0
  {
    if list == [] {
    } else {
      NothingReports(g, w, list[1..]);
    }
  }

  lemma Begin(g: seq<Region>, w: Window)
    requires Symmetric(g) && Pristine(g)
    ensures Peels(g, w, Trace([], map[], map[]), -1)
  {
    assert forall r :: !Traversed(g, r);
    forall p: nat | p < |g| ensures Reports(g, w, g[p].adjacent) == 0 {
      NothingReports(g, w, g[p].adjacent);
    }
  }

  /** While a region is unpeeled the trace is shorter than the pool. */
  lemma RoomInOrder(g: seq<Region>, w: Window, tr: Trace, exempt: int, r: nat)
    requires Peels(g, w, tr, exempt) && r < |g| && !Traversed(g, r)
    ensures |tr.order| < |g|
  {
    Unpeeled(g, w, tr, exempt, r);
    OrderBound(tr.order + [r], |g|);
  }
}
