/** The bottom-up classification of topologysearch.c, and the intrusive rings of segment.c that
    it links the regions into.  A ring node is a region, or one of three heads behind them. */
module TopologySearch {
  import opened Regions

  const UNKNOWN_LEVEL: int := -1
  const DISCARDED_LEVEL: int := -2
  const LEAF_LEVEL: int := 0
  const LEAF_CONTAINER_LEVEL: int := 1
  const ROOT_LEVEL: int := 2

  // ----- rings

  /** The nodes follow one another in both directions, the last one leading back to the first. */
  ghost predicate IsCycle(next: seq<nat>, previous: seq<nat>, c: seq<nat>) {
    && c != [] && |previous| == |next|
    && (forall i | 0 <= i < |c| :: c[i] < |next|)
    && (forall i, j | 0 <= i < j < |c| :: c[i] != c[j])
    && (forall i | 0 <= i < |c| - 1 :: next[c[i]] == c[i + 1] && previous[c[i + 1]] == c[i])
    && next[c[|c| - 1]] == c[0] && previous[c[0]] == c[|c| - 1]
  }

  ghost predicate Apart(a: seq<nat>, b: seq<nat>) {
    forall i, j | 0 <= i < |a| && 0 <= j < |b| :: a[i] != b[j]
  }

  /** Inserting r before the head appends it to the ring. */
  lemma CycleLinked(next: seq<nat>, previous: seq<nat>, c: seq<nat>, r: nat, next': seq<nat>, previous': seq<nat>)
    requires IsCycle(next, previous, c) && r < |next| && r !in c
    requires var last, head := c[|c| - 1], c[0];
             next' == next[r := head][last := r] && previous' == previous[r := last][head := r]
    ensures IsCycle(next', previous', c + [r])
  {
    assert forall i | 0 <= i < |c| :: c[i] in c;
    var d := c + [r];
    forall i | 0 <= i < |d| - 1 ensures next'[d[i]] == d[i + 1] && previous'[d[i + 1]] == d[i] {
      if i < |c| - 1 { assert c[i] != c[|c| - 1] && c[i + 1] != c[0]; }
    }
  }

  /** A ring is not affected by changes at the nodes of another one. */
  lemma CycleKept(next: seq<nat>, previous: seq<nat>, c: seq<nat>, next': seq<nat>, previous': seq<nat>, d: seq<nat>)
    requires IsCycle(next, previous, c) && Apart(c, d) && |next'| == |previous'| == |next|
    requires forall i | 0 <= i < |next| && i !in d :: next'[i] == next[i] && previous'[i] == previous[i]
    ensures IsCycle(next', previous', c)
  {
    assert forall i | 0 <= i < |c| :: c[i] !in d;
  }

  /** Three disjoint rings, given from their heads on. */
  ghost predicate ThreeRings(next: seq<nat>, previous: seq<nat>, a: seq<nat>, b: seq<nat>, c: seq<nat>) {
    && IsCycle(next, previous, a) && IsCycle(next, previous, b) && IsCycle(next, previous, c)
    && Apart(a, b) && Apart(a, c) && Apart(b, c)
  }

  lemma RingsSwapped(next: seq<nat>, previous: seq<nat>, a: seq<nat>, b: seq<nat>, c: seq<nat>)
    requires ThreeRings(next, previous, a, b, c)
    ensures ThreeRings(next, previous, b, a, c) && ThreeRings(next, previous, c, a, b)
            && ThreeRings(next, previous, b, c, a)
  {
    hide IsCycle;
  }

  lemma EmptyRings(next: seq<nat>, previous: seq<nat>, n: nat)
    requires |next| == |previous| == n + 3 && forall i | 0 <= i < n + 3 :: next[i] == previous[i] == i
    ensures ThreeRings(next, previous, [n] + [], [n + 1] + [], [n + 2] + [])
  {
  }

  // ----- what the search is for

  /** Links join black regions to others and are listed at both ends. */
  ghost predicate TwoColoured(g: seq<Region>) {
    forall a, b | Lists(g, a, b) :: b < |g| && Lists(g, b, a) && (g[a].colour == BLACK <==> g[b].colour != BLACK)
  }

  predicate IsLeaf(g: seq<Region>, r: nat) {
    r < |g| && g[r].colour == BLACK && |g[r].adjacent| == 1
  }

  ghost function NonLeafs(g: seq<Region>, list: seq<nat>): nat {
    if list == [] then 0 else (if IsLeaf(g, list[0]) then 0 else 1) + NonLeafs(g, list[1..])
  }

  /** A region that holds leafs, not too many, and has one neighbour beside them. */
  ghost predicate IsContainer(g: seq<Region>, r: nat, symbols: int) {
    && r < |g| && (exists c | c in g[r].adjacent :: IsLeaf(g, c))
    && NonLeafs(g, g[r].adjacent) == 1 && 2 <= |g[r].adjacent| <= symbols + 1
  }

  ghost function NonContainers(g: seq<Region>, list: seq<nat>, symbols: int): nat {
    if list == [] then 0 else (if IsContainer(g, list[0], symbols) then 0 else 1) + NonContainers(g, list[1..], symbols)
  }

  /** A region, itself no leaf, that holds all the symbols and has at most one neighbour beside. */
  ghost predicate IsRoot(g: seq<Region>, r: nat, symbols: int) {
    && r < |g| && g[r].colour == BLACK && !IsLeaf(g, r)
    && (exists c | c in g[r].adjacent :: IsContainer(g, c, symbols))
    && |g[r].adjacent| - NonContainers(g, g[r].adjacent, symbols) == symbols
    && NonContainers(g, g[r].adjacent, symbols) <= 1
  }

  ghost predicate SameButLevels(g: seq<Region>, h: seq<Region>) {
    |h| == |g| && forall r | 0 <= r < |g| :: h[r] == g[r].(level := h[r].level)
  }

  lemma LeafUp(g: seq<Region>, r: nat)
    requires TwoColoured(g) && IsLeaf(g, r)
    ensures g[r].adjacent[0] < |g| && g[g[r].adjacent[0]].colour != BLACK && Lists(g, g[r].adjacent[0], r)
  {
    assert Lists(g, r, g[r].adjacent[0]);
  }

  /** Containers are not black, and their neighbours are. */
  lemma ContainerColours(g: seq<Region>, w: nat, symbols: int)
    requires TwoColoured(g) && IsContainer(g, w, symbols)
    ensures g[w].colour != BLACK
    ensures forall r | r in g[w].adjacent :: r < |g| && g[r].colour == BLACK && w in g[r].adjacent
  {
    var c :| c in g[w].adjacent && IsLeaf(g, c);
    assert Lists(g, w, c);
    forall r | r in g[w].adjacent ensures r < |g| && g[r].colour == BLACK && w in g[r].adjacent {
      assert Lists(g, w, r);
    }
  }

  lemma {:induction false} NonLeafsSnoc(g: seq<Region>, list: seq<nat>, r: nat)
    ensures NonLeafs(g, list + [r]) == NonLeafs(g, list) + if IsLeaf(g, r) then 0 else 1
  {
    if list == [] {
    } else {
      NonLeafsSnoc(g, list[1..], r);
      assert (list + [r])[1..] == list[1..] + [r];
    }
  }

  lemma {:induction false} NonContainersSnoc(g: seq<Region>, list: seq<nat>, r: nat, symbols: int)
    ensures NonContainers(g, list + [r], symbols) ==
              NonContainers(g, list, symbols) + if IsContainer(g, r, symbols) then 0 else 1
  {
    if list == [] {
    } else {
      NonContainersSnoc(g, list[1..], r, symbols);
      assert (list + [r])[1..] == list[1..] + [r];
    }
  }

  /** The places of a list at which there are leafs. */
  ghost function LeafsIn(g: seq<Region>, list: seq<nat>): set<nat> {
    set i: nat | i < |list| && IsLeaf(g, list[i])
  }

  ghost function ContainersIn(g: seq<Region>, list: seq<nat>, symbols: int): set<nat> {
    set i: nat | i < |list| && IsContainer(g, list[i], symbols)
  }

  lemma {:induction false} LeafsCounted(g: seq<Region>, list: seq<nat>)
    ensures NonLeafs(g, list) + |LeafsIn(g, list)| == |list|
  {
    hide IsLeaf, NonLeafs;
    if list == [] {
      NoneCounted(g, 0);
      assert LeafsIn(g, list) == {};
    } else {
      var init, last := list[..|list| - 1], list[|list| - 1];
      assert list == init + [last];
      LeafsCounted(g, init);
      NonLeafsSnoc(g, init, last);
      LeafsSnoc(g, init, last);
    }
  }

  lemma NoneCounted(g: seq<Region>, symbols: int)
    ensures NonLeafs(g, []) == 0 && NonContainers(g, [], symbols) == 0
  {
  }

  lemma LeafsSnoc(g: seq<Region>, list: seq<nat>, r: nat)
    ensures |LeafsIn(g, list + [r])| == |LeafsIn(g, list)| + if IsLeaf(g, r) then 1 else 0
  {
    hide IsLeaf;
    assert LeafsIn(g, list + [r]) == LeafsIn(g, list) + if IsLeaf(g, r) then {|list|} else {};
  }

  lemma {:induction false} ContainersCounted(g: seq<Region>, list: seq<nat>, symbols: int)
    ensures NonContainers(g, list, symbols) + |ContainersIn(g, list, symbols)| == |list|
  {
    hide IsContainer, NonContainers;
    if list == [] {
      NoneCounted(g, symbols);
      assert ContainersIn(g, list, symbols) == {};
    } else {
      var init, last := list[..|list| - 1], list[|list| - 1];
      assert list == init + [last];
      ContainersCounted(g, init, symbols);
      NonContainersSnoc(g, init, last, symbols);
      ContainersSnoc(g, init, last, symbols);
    }
  }

  lemma ContainersSnoc(g: seq<Region>, list: seq<nat>, r: nat, symbols: int)
    ensures |ContainersIn(g, list + [r], symbols)|
            == |ContainersIn(g, list, symbols)| + if IsContainer(g, r, symbols) then 1 else 0
  {
    hide IsContainer;
    assert ContainersIn(g, list + [r], symbols)
           == ContainersIn(g, list, symbols) + if IsContainer(g, r, symbols) then {|list|} else {};
  }

  /** A container is the parent of at least one and at most so many leafs as there are symbols, and
      has one more neighbour. */
  lemma ContainerShape(g: seq<Region>, r: nat, symbols: int)
    requires r < |g|
    ensures var n := |LeafsIn(g, g[r].adjacent)|;
            IsContainer(g, r, symbols) <==> 1 <= n <= symbols && |g[r].adjacent| == n + 1
  {
    var list := g[r].adjacent;
    LeafsCounted(g, list);
    if c :| c in list && IsLeaf(g, c) {
      var i: nat :| i < |list| && list[i] == c;
      assert i in LeafsIn(g, list);
    }
    if LeafsIn(g, list) != {} {
      var i :| i in LeafsIn(g, list);
      assert list[i] in list;
    }
  }

  /** A root is black, no leaf, and the parent of one container for each symbol; it has at most one
      more neighbour. */
  lemma RootShape(g: seq<Region>, r: nat, symbols: int)
    requires r < |g|
    ensures IsRoot(g, r, symbols) <==>
              && g[r].colour == 0 && |g[r].adjacent| != 1 && 1 <= symbols
              && |ContainersIn(g, g[r].adjacent, symbols)| == symbols && |g[r].adjacent| <= symbols + 1
  {
    hide IsContainer;
    var list := g[r].adjacent;
    ContainersCounted(g, list, symbols);
    if c :| c in list && IsContainer(g, c, symbols) {
      var i: nat :| i < |list| && list[i] == c;
      assert i in ContainersIn(g, list, symbols);
    }
    if ContainersIn(g, list, symbols) != {} {
      var i :| i in ContainersIn(g, list, symbols);
      assert list[i] in list;
    }
  }

  // ----- the state of the passes

  /** A region that the last step up from one of the leafs leads to. */
  ghost predicate Above(g: seq<Region>, w: nat, leafs: seq<nat>) {
    exists l | l in leafs :: l < |g| && g[l].adjacent != [] && g[l].adjacent[0] == w
  }

  ghost predicate BlackLevels(g: seq<Region>, h: seq<Region>, roots: seq<nat>) {
    |h| == |g| && forall r: nat | r < |g| && g[r].colour == BLACK ::
      h[r].level == if IsLeaf(g, r) then LEAF_LEVEL else if r in roots then ROOT_LEVEL else UNKNOWN_LEVEL
  }

  /** The other regions above the leafs visited so far are classified. */
  ghost predicate WhiteLevels(g: seq<Region>, h: seq<Region>, leafs: seq<nat>, symbols: int) {
    |h| == |g| && forall w: nat | w < |g| && g[w].colour != BLACK ::
      h[w].level == if !Above(g, w, leafs) then UNKNOWN_LEVEL
                    else if IsContainer(g, w, symbols) then LEAF_CONTAINER_LEVEL else DISCARDED_LEVEL
  }

  ghost predicate HoldsLeafs(g: seq<Region>, leafs: seq<nat>) {
    forall r :: r in leafs <==> IsLeaf(g, r)
  }

  ghost predicate HoldsContainers(g: seq<Region>, containers: seq<nat>, leafs: seq<nat>, symbols: int) {
    forall w :: w in containers <==> IsContainer(g, w, symbols) && Above(g, w, leafs)
  }

  lemma AboveNext(g: seq<Region>, leafs: seq<nat>, k: nat)
    requires k < |leafs| && IsLeaf(g, leafs[k])
    ensures forall w :: Above(g, w, leafs[..k + 1]) <==> Above(g, w, leafs[..k]) || w == g[leafs[k]].adjacent[0]
  {
    var before, after := leafs[..k], leafs[..k + 1];
    assert after == before + [leafs[k]];
    forall w ensures Above(g, w, after) <==> Above(g, w, before) || w == g[leafs[k]].adjacent[0] {
      if Above(g, w, after) {
        var l :| l in after && l < |g| && g[l].adjacent != [] && g[l].adjacent[0] == w;
        assert l in before || l == leafs[k];
      }
      if Above(g, w, before) {
        var l :| l in before && l < |g| && g[l].adjacent != [] && g[l].adjacent[0] == w;
        assert l in after;
      }
      assert leafs[k] in after;
    }
  }

  /** Every container lies above some leaf. */
  lemma ContainersAbove(g: seq<Region>, leafs: seq<nat>, w: nat, symbols: int)
    requires TwoColoured(g) && HoldsLeafs(g, leafs) && IsContainer(g, w, symbols)
    ensures Above(g, w, leafs)
  {
    var c :| c in g[w].adjacent && IsLeaf(g, c);
    assert Lists(g, w, c) && Lists(g, c, w);
    assert c in leafs;
  }

  /** A root that has been met as a neighbour of a container visited so far. */
  ghost predicate Met(g: seq<Region>, r: nat, containers: seq<nat>) {
    exists c | c in containers :: c < |g| && r in g[c].adjacent
  }

  ghost predicate HoldsRoots(g: seq<Region>, roots: seq<nat>, containers: seq<nat>, part: seq<nat>, symbols: int) {
    forall r :: r in roots <==> IsRoot(g, r, symbols) && (Met(g, r, containers) || r in part)
  }

  lemma MetNext(g: seq<Region>, containers: seq<nat>, k: nat)
    requires k < |containers| && containers[k] < |g|
    ensures forall r :: Met(g, r, containers[..k + 1]) <==> Met(g, r, containers[..k]) || r in g[containers[k]].adjacent
  {
    assert containers[..k + 1] == containers[..k] + [containers[k]];
    assert containers[k] in containers[..k + 1];
    forall r | Met(g, r, containers[..k]) ensures Met(g, r, containers[..k + 1]) {
      var c :| c in containers[..k] && c < |g| && r in g[c].adjacent;
      assert c in containers[..k + 1];
    }
  }

  /** Every root is a neighbour of some container. */
  lemma RootsMet(g: seq<Region>, containers: seq<nat>, r: nat, symbols: int)
    requires TwoColoured(g) && (forall w | IsContainer(g, w, symbols) :: w in containers) && IsRoot(g, r, symbols)
    ensures Met(g, r, containers)
  {
    var c :| c in g[r].adjacent && IsContainer(g, c, symbols);
    assert Lists(g, r, c) && Lists(g, c, r);
  }

  class PartialSegmentTopology {
    var regions: seq<Region>
    var next: array<nat>
    var previous: array<nat>
    ghost var leafs: seq<nat>
    ghost var containers: seq<nat>
    ghost var roots: seq<nat>

    /** The regions as they were, up to their levels, and the three rings. */
    ghost predicate Valid(g: seq<Region>)
      reads this, next, previous
    {
      && SameButLevels(g, regions) && next != previous
      && next.Length == |g| + 3 && previous.Length == |g| + 3
      && ThreeRings(next[..], previous[..], [|g|] + leafs, [|g| + 1] + containers, [|g| + 2] + roots)
    }

    /** The rings hold exactly the leafs, the containers and the roots. */
    ghost predicate Classified(g: seq<Region>, symbols: int)
      reads this
    {
      && (forall r :: r in leafs <==> IsLeaf(g, r))
      && (forall r :: r in containers <==> IsContainer(g, r, symbols))
      && (forall r :: r in roots <==> IsRoot(g, r, symbols))
    }

    /** The levels in numbers: leafs, containers, roots, discarded parents of leafs, others. */
    ghost predicate Levelled(g: seq<Region>, symbols: int)
      reads this
    {
      |regions| == |g| && forall r: nat | r < |g| ::
        regions[r].level == if IsLeaf(g, r) then 0
                            else if IsContainer(g, r, symbols) then 1
                            else if IsRoot(g, r, symbols) then 2
                            else if g[r].colour != 0 && (exists c | c in g[r].adjacent :: IsLeaf(g, c)) then -2
                            else -1
    }

    /** initialize_segment_topology. */
    constructor (g: seq<Region>, symbols: int)
      requires TwoColoured(g)
      ensures fresh(next) && fresh(previous) && Valid(g) && Classified(g, symbols) && Levelled(g, symbols)
    {
      hide TwoColoured, Classified, Levelled, HoldsLeafs, HoldsContainers, BlackLevels;
      regions := g;
      next := new nat[|g| + 3](i => i);
      previous := new nat[|g| + 3](i => i);
      leafs, containers, roots := [], [], [];
      new;
      EmptyRings(next[..], previous[..], |g|);
      hide ThreeRings;
      FindBlackLeafs(g);
      FindBlackLeafContainerRegions(g, symbols);
      FindRootRegions(g, symbols);
    }

    /** link_region: inserts r before the head. */
    method LinkRegion(head: nat, r: nat, ghost a: seq<nat>, ghost b: seq<nat>, ghost c: seq<nat>)
      requires next != previous && a != [] && a[0] == head && r < next.Length
      requires ThreeRings(next[..], previous[..], a, b, c) && r !in a && r !in b && r !in c
      modifies next, previous
      ensures ThreeRings(next[..], previous[..], a + [r], b, c)
    {
      hide IsCycle;
      ghost var n: seq<nat>, p: seq<nat> := next[..], previous[..];
      CycleEnds(n, p, a);
      ghost var last := a[|a| - 1];
      previous[r] := previous[head];
      next[r] := head;
      next[previous[r]] := r;
      previous[next[r]] := r;
      assert next[..] == n[r := head][last := r] && previous[..] == p[r := last][head := r];
      RingsLinked(n, p, a, b, c, r, next[..], previous[..]);
    }

    lemma CycleEnds(next: seq<nat>, previous: seq<nat>, a: seq<nat>)
      requires IsCycle(next, previous, a)
      ensures |previous| == |next| && a[0] < |next| && a[|a| - 1] < |next| && previous[a[0]] == a[|a| - 1]
    {
    }

    lemma RingsLinked(next: seq<nat>, previous: seq<nat>, a: seq<nat>, b: seq<nat>, c: seq<nat>, r: nat,
                      next': seq<nat>, previous': seq<nat>)
      requires ThreeRings(next, previous, a, b, c) && r < |next| && r !in a && r !in b && r !in c
      requires a != [] && a[0] < |next| == |previous| && a[|a| - 1] < |next|
      requires next' == next[r := a[0]][a[|a| - 1] := r] && previous' == previous[r := a[|a| - 1]][a[0] := r]
      ensures ThreeRings(next', previous', a + [r], b, c)
    {
      hide IsCycle;
      CycleLinked(next, previous, a, r, next', previous');
      ghost var d := a + [r];
      assert d[|a|] == r && d[0] == a[0] && d[|a| - 1] == a[|a| - 1];
      assert forall i | 0 <= i < |next| && i !in d :: i != r && i != a[0] && i != a[|a| - 1];
      CycleKept(next, previous, b, next', previous', d);
      CycleKept(next, previous, c, next', previous', d);
    }

    method FindBlackLeafs(ghost g: seq<Region>)
      requires Valid(g) && leafs == [] && containers == [] && roots == []
      modifies this`regions, this`leafs, next, previous
      ensures Valid(g) && HoldsLeafs(g, leafs)
      ensures BlackLevels(g, regions, []) && WhiteLevels(g, regions, [], 0)
    {
      hide ThreeRings;
      var i := 0;
      while i < |regions|
        invariant 0 <= i <= |regions| && Valid(g)
        invariant forall r: nat :: r in leafs <==> r < i && IsLeaf(g, r)
        invariant forall r | 0 <= r < i :: regions[r].level == if IsLeaf(g, r) then LEAF_LEVEL else UNKNOWN_LEVEL
      {
        if regions[i].colour == BLACK && |regions[i].adjacent| == 1 {
          regions := regions[i := regions[i].(level := LEAF_LEVEL)];
          LinkRegion(|regions|, i, [|g|] + leafs, [|g| + 1] + containers, [|g| + 2] + roots);
          assert [|g|] + leafs + [i] == [|g|] + (leafs + [i]);
          leafs := leafs + [i];
        } else {
          regions := regions[i := regions[i].(level := UNKNOWN_LEVEL)];
        }
        i := i + 1;
      }
    }

    method HasOnlyOneNonLeafAdjacentRegion(r: nat, ghost g: seq<Region>) returns (only: bool)
      requires r < |g| && SameButLevels(g, regions) && BlackLevels(g, regions, roots)
      requires TwoColoured(g) && g[r].colour != BLACK
      ensures only <==> NonLeafs(g, g[r].adjacent) == 1
    {
      var list := regions[r].adjacent;
      var count := 0;
      var i := 0;
      assert list[..0] == [];
      while i < |list|
        invariant 0 <= i <= |list| && count == NonLeafs(g, list[..i])
      {
        assert list[..i + 1] == list[..i] + [list[i]];
        NonLeafsSnoc(g, list[..i], list[i]);
        assert Lists(g, r, list[i]);
        if regions[list[i]].level != LEAF_LEVEL {
          count := count + 1;
        }
        i := i + 1;
      }
      assert list[..i] == list;
      only := count == 1;
    }

    /** Where the walk along a ring goes next. */
    lemma RingNext(a: seq<nat>, k: nat)
      requires k < |a| && IsCycle(next[..], previous[..], a)
      ensures a[k] < next.Length && next[a[k]] == if k + 1 < |a| then a[k + 1] else a[0]
      ensures k > 0 ==> a[k] != a[0]
    {
    }

    method FindBlackLeafContainerRegions(ghost g: seq<Region>, symbols: int)
      requires Valid(g) && HoldsLeafs(g, leafs) && containers == [] && roots == [] && TwoColoured(g)
      requires BlackLevels(g, regions, []) && WhiteLevels(g, regions, [], symbols)
      modifies this`regions, this`containers, next, previous
      ensures Valid(g) && HoldsContainers(g, containers, leafs, symbols)
      ensures BlackLevels(g, regions, []) && WhiteLevels(g, regions, leafs, symbols)
    {
      hide IsCycle, Apart, TwoColoured, IsContainer, Above, HoldsLeafs, HoldsContainers, BlackLevels, WhiteLevels;
      var head := |regions|;
      ghost var k := 0;
      ghost var ring := [|g|] + leafs;
      RingNext(ring, 0);
      var node := next[head];
      assert leafs[..0] == [];
      NobodyAbove(g, symbols);
      while node != head
        invariant 0 <= k <= |leafs| && Valid(g) && node == if k < |leafs| then leafs[k] else head
        invariant HoldsContainers(g, containers, leafs[..k], symbols)
        invariant BlackLevels(g, regions, []) && WhiteLevels(g, regions, leafs[..k], symbols)
        decreases |leafs| - k
      {
        VisitLeaf(node, k, g, symbols);
        RingNext(ring, k + 1);
        k := k + 1;
        node := next[node];
      }
      if k < |leafs| { RingNext(ring, k + 1); }
      assert leafs[..k] == leafs;
    }

    lemma NobodyAbove(g: seq<Region>, symbols: int)
      ensures HoldsContainers(g, [], [], symbols)
    {
    }

    /** Classifies the region above a leaf, unless that has been done. */
    method VisitLeaf(node: nat, ghost k: nat, ghost g: seq<Region>, symbols: int)
      requires Valid(g) && HoldsLeafs(g, leafs) && k < |leafs| && node == leafs[k] && roots == [] && TwoColoured(g)
      requires HoldsContainers(g, containers, leafs[..k], symbols)
      requires BlackLevels(g, regions, []) && WhiteLevels(g, regions, leafs[..k], symbols)
      modifies this`regions, this`containers, next, previous
      ensures Valid(g) && HoldsContainers(g, containers, leafs[..k + 1], symbols)
      ensures BlackLevels(g, regions, []) && WhiteLevels(g, regions, leafs[..k + 1], symbols)
    {
      hide ThreeRings, TwoColoured, IsContainer, Above, NonLeafs, HoldsContainers, BlackLevels, WhiteLevels;
      assert node in leafs;
      LeafUp(g, node);
      AboveNext(g, leafs, k);
      var container := regions[node].adjacent[0];
      ghost var h, was := regions, containers;
      FreshContainer(g, regions, leafs, k, containers, symbols);
      if regions[container].level == UNKNOWN_LEVEL {
        var only := HasOnlyOneNonLeafAdjacentRegion(container, g);
        LeafInside(g, container, node, symbols);
        if only && |regions[container].adjacent| >= 2 && |regions[container].adjacent| <= symbols + 1 {
          regions := regions[container := regions[container].(level := LEAF_CONTAINER_LEVEL)];
          RingsSwapped(next[..], previous[..], [|g|] + leafs, [|g| + 1] + containers, [|g| + 2] + roots);
          LinkRegion(|regions| + 1, container, [|g| + 1] + containers, [|g|] + leafs, [|g| + 2] + roots);
          assert [|g| + 1] + containers + [container] == [|g| + 1] + (containers + [container]);
          containers := containers + [container];
          RingsSwapped(next[..], previous[..], [|g| + 1] + containers, [|g|] + leafs, [|g| + 2] + roots);
        } else {
          regions := regions[container := regions[container].(level := DISCARDED_LEVEL)];
        }
      }
      LeafVisited(g, h, regions, leafs, k, was, containers, symbols);
    }

    lemma LeafInside(g: seq<Region>, w: nat, leaf: nat, symbols: int)
      requires Lists(g, w, leaf) && IsLeaf(g, leaf)
      ensures IsContainer(g, w, symbols) <==> NonLeafs(g, g[w].adjacent) == 1 && 2 <= |g[w].adjacent| <= symbols + 1
    {
    }

    lemma FreshContainer(g: seq<Region>, h: seq<Region>, leafs: seq<nat>, k: nat, containers: seq<nat>, symbols: int)
      requires HoldsLeafs(g, leafs) && k < |leafs| && IsLeaf(g, leafs[k]) && TwoColoured(g)
      requires HoldsContainers(g, containers, leafs[..k], symbols) && WhiteLevels(g, h, leafs[..k], symbols)
      ensures var w := g[leafs[k]].adjacent[0];
              w < |g| && w !in leafs && (h[w].level == UNKNOWN_LEVEL <==> !Above(g, w, leafs[..k]))
              && (h[w].level == UNKNOWN_LEVEL ==> w !in containers)
    {
      hide Above, IsContainer;
      assert leafs[k] in leafs;
      LeafUp(g, leafs[k]);
    }

    lemma LeafVisited(g: seq<Region>, h: seq<Region>, h': seq<Region>, leafs: seq<nat>, k: nat, containers: seq<nat>,
                      containers': seq<nat>, symbols: int)
      requires HoldsLeafs(g, leafs) && k < |leafs| && TwoColoured(g)
      requires HoldsContainers(g, containers, leafs[..k], symbols)
      requires BlackLevels(g, h, []) && WhiteLevels(g, h, leafs[..k], symbols)
      requires IsLeaf(g, leafs[k]) && |h| == |g|
      requires var w := g[leafs[k]].adjacent[0];
               && w < |g|
               && if Above(g, w, leafs[..k]) then h' == h && containers' == containers
                  else if IsContainer(g, w, symbols) then
                    h' == h[w := h[w].(level := LEAF_CONTAINER_LEVEL)] && containers' == containers + [w]
                  else h' == h[w := h[w].(level := DISCARDED_LEVEL)] && containers' == containers
      ensures HoldsContainers(g, containers', leafs[..k + 1], symbols)
      ensures BlackLevels(g, h', []) && WhiteLevels(g, h', leafs[..k + 1], symbols)
    {
      hide Above, IsContainer;
      AboveNext(g, leafs, k);
      LeafUp(g, leafs[k]);
    }

    method CountNonLeafContainerAdjacentRegions(r: nat, ghost g: seq<Region>, symbols: int) returns (count: int)
      requires r < |g| && SameButLevels(g, regions) && WhiteLevels(g, regions, leafs, symbols)
      requires TwoColoured(g) && g[r].colour == BLACK && HoldsLeafs(g, leafs)
      ensures count == NonContainers(g, g[r].adjacent, symbols)
    {
      hide Above, IsContainer, HoldsLeafs;
      var list := regions[r].adjacent;
      count := 0;
      var i := 0;
      assert list[..0] == [];
      while i < |list|
        invariant 0 <= i <= |list| && count == NonContainers(g, list[..i], symbols)
      {
        assert list[..i + 1] == list[..i] + [list[i]];
        NonContainersSnoc(g, list[..i], list[i], symbols);
        assert Lists(g, r, list[i]);
        if IsContainer(g, list[i], symbols) { ContainersAbove(g, leafs, list[i], symbols); }
        if regions[list[i]].level != LEAF_CONTAINER_LEVEL {
          count := count + 1;
        }
        i := i + 1;
      }
      assert list[..i] == list;
    }

    method FindRootRegions(ghost g: seq<Region>, symbols: int)
      requires Valid(g) && HoldsLeafs(g, leafs) && HoldsContainers(g, containers, leafs, symbols) && roots == []
      requires BlackLevels(g, regions, []) && WhiteLevels(g, regions, leafs, symbols)
      requires TwoColoured(g)
      modifies this`regions, this`roots, next, previous
      ensures Valid(g) && Classified(g, symbols) && Levelled(g, symbols)
    {
      hide IsCycle, Apart, TwoColoured, IsContainer, Above, HoldsLeafs, HoldsContainers, BlackLevels, WhiteLevels,
           HoldsRoots, Classified, Levelled;
      var head := |regions| + 1;
      ghost var k := 0;
      ghost var ring := [|g| + 1] + containers;
      RingNext(ring, 0);
      var node := next[head];
      assert containers[..0] == [];
      NobodyMet(g, symbols);
      while node != head
        invariant 0 <= k <= |containers| && Valid(g) && node == if k < |containers| then containers[k] else head
        invariant HoldsRoots(g, roots, containers[..k], [], symbols)
        invariant BlackLevels(g, regions, roots) && WhiteLevels(g, regions, leafs, symbols)
        decreases |containers| - k
      {
        VisitContainer(node, k, g, symbols);
        RingNext(ring, k + 1);
        k := k + 1;
        node := next[node];
      }
      if k < |containers| { RingNext(ring, k + 1); }
      assert containers[..k] == containers;
      AllClassified(g, symbols);
      AllLevelled(g, symbols);
    }

    lemma NobodyMet(g: seq<Region>, symbols: int)
      ensures HoldsRoots(g, [], [], [], symbols)
    {
    }

    lemma AllClassified(g: seq<Region>, symbols: int)
      requires HoldsLeafs(g, leafs) && HoldsContainers(g, containers, leafs, symbols)
      requires HoldsRoots(g, roots, containers, [], symbols)
      requires TwoColoured(g)
      ensures Classified(g, symbols)
    {
      hide Above, Met, IsRoot, IsContainer;
      forall w | IsContainer(g, w, symbols) ensures Above(g, w, leafs) {
        ContainersAbove(g, leafs, w, symbols);
      }
      forall r | IsRoot(g, r, symbols) ensures Met(g, r, containers) {
        RootsMet(g, containers, r, symbols);
      }
    }

    lemma AllLevelled(g: seq<Region>, symbols: int)
      requires HoldsLeafs(g, leafs) && Classified(g, symbols) && TwoColoured(g)
      requires BlackLevels(g, regions, roots) && WhiteLevels(g, regions, leafs, symbols)
      ensures Levelled(g, symbols)
    {
      forall r: nat | r < |g| && g[r].colour != BLACK
        ensures Above(g, r, leafs) <==> exists c | c in g[r].adjacent :: IsLeaf(g, c)
      {
        ParentsAbove(g, leafs, r);
      }
      hide Above, TwoColoured;
      forall r: nat | IsContainer(g, r, symbols) ensures g[r].colour != BLACK { ContainerColours(g, r, symbols); }
      hide IsContainer, IsRoot, HoldsLeafs;
      forall r: nat | IsRoot(g, r, symbols) ensures r < |g| && g[r].colour == BLACK { RootsAreBlack(g, r, symbols); }
    }

    lemma RootsAreBlack(g: seq<Region>, r: nat, symbols: int)
      requires IsRoot(g, r, symbols)
      ensures r < |g| && g[r].colour == BLACK
    {
    }

    lemma ParentsAbove(g: seq<Region>, leafs: seq<nat>, w: nat)
      requires TwoColoured(g) && HoldsLeafs(g, leafs) && w < |g|
      ensures Above(g, w, leafs) <==> exists c | c in g[w].adjacent :: IsLeaf(g, c)
    {
      if c :| c in g[w].adjacent && IsLeaf(g, c) {
        assert Lists(g, w, c) && Lists(g, c, w);
        assert c in leafs;
      }
      if l :| l in leafs && l < |g| && g[l].adjacent != [] && g[l].adjacent[0] == w {
        assert Lists(g, l, w) && Lists(g, w, l);
      }
    }

    /** Examines the neighbours of a container. */
    method VisitContainer(node: nat, ghost k: nat, ghost g: seq<Region>, symbols: int)
      requires k < |containers| && node == containers[k]
      requires HoldsRoots(g, roots, containers[..k], [], symbols)
      requires BlackLevels(g, regions, roots) && WhiteLevels(g, regions, leafs, symbols)
      requires Valid(g) && HoldsLeafs(g, leafs) && HoldsContainers(g, containers, leafs, symbols) && TwoColoured(g)
      modifies this`regions, this`roots, next, previous
      ensures Valid(g) && HoldsRoots(g, roots, containers[..k + 1], [], symbols)
      ensures BlackLevels(g, regions, roots) && WhiteLevels(g, regions, leafs, symbols)
    {
      ContainerFacts(g, k, symbols);
      hide ThreeRings, TwoColoured, IsContainer, Above, HoldsContainers, BlackLevels, WhiteLevels, HoldsRoots,
           HoldsLeafs, Valid;
      var list := regions[node].adjacent;
      var i := 0;
      assert list[..0] == [];
      while i < |list|
        invariant 0 <= i <= |list| && Valid(g)
        invariant HoldsRoots(g, roots, containers[..k], list[..i], symbols)
        invariant BlackLevels(g, regions, roots) && WhiteLevels(g, regions, leafs, symbols)
      {
        PrefixGrows(list, i);
        VisitNeighbour(list[i], node, containers[..k], list[..i], g, symbols);
        i := i + 1;
      }
      assert list[..i] == list;
      NeighboursVisited(g, roots, containers, k, symbols);
    }

    lemma PrefixGrows(list: seq<nat>, i: nat)
      requires i < |list|
      ensures list[..i + 1] == list[..i] + [list[i]] && list[i] in list
    {
    }

    lemma ContainerFacts(g: seq<Region>, k: nat, symbols: int)
      requires HoldsContainers(g, containers, leafs, symbols) && k < |containers| && TwoColoured(g) && Valid(g)
      ensures var w := containers[k];
              IsContainer(g, w, symbols) && w < |g| == |regions| && regions[w].adjacent == g[w].adjacent
              && forall r | r in g[w].adjacent :: r < |g| && g[r].colour == BLACK && w in g[r].adjacent
    {
      assert containers[k] in containers;
      ContainerColours(g, containers[k], symbols);
    }

    lemma NeighboursVisited(g: seq<Region>, roots: seq<nat>, containers: seq<nat>, k: nat, symbols: int)
      requires k < |containers| && containers[k] < |g|
      requires HoldsRoots(g, roots, containers[..k], g[containers[k]].adjacent, symbols)
      ensures HoldsRoots(g, roots, containers[..k + 1], [], symbols)
    {
      hide Met, IsRoot;
      MetNext(g, containers, k);
    }

    method VisitNeighbour(r: nat, ghost w: nat, ghost done: seq<nat>, ghost part: seq<nat>, ghost g: seq<Region>,
                          symbols: int)
      requires Valid(g) && HoldsLeafs(g, leafs) && r < |g| && g[r].colour == BLACK && w in g[r].adjacent
      requires IsContainer(g, w, symbols) && TwoColoured(g)
      requires HoldsContainers(g, containers, leafs, symbols) && HoldsRoots(g, roots, done, part, symbols)
      requires BlackLevels(g, regions, roots) && WhiteLevels(g, regions, leafs, symbols)
      modifies this`regions, this`roots, next, previous
      ensures Valid(g) && HoldsRoots(g, roots, done, part + [r], symbols)
      ensures BlackLevels(g, regions, roots) && WhiteLevels(g, regions, leafs, symbols)
    {
      hide ThreeRings, TwoColoured, IsContainer, Above, NonContainers, HoldsContainers, BlackLevels, WhiteLevels,
           HoldsRoots, HoldsLeafs;
      ghost var h, was := regions, roots;
      var count := CountNonLeafContainerAdjacentRegions(r, g, symbols);
      RootTest(g, r, w, symbols);
      RootsNotLeafs(g, roots, done, part, symbols);
      NeighbourFresh(g, regions, r, symbols);
      if regions[r].level == UNKNOWN_LEVEL
        && ((|regions[r].adjacent| == symbols && count == 0) || (|regions[r].adjacent| == symbols + 1 && count == 1))
      {
        regions := regions[r := regions[r].(level := ROOT_LEVEL)];
        RingsSwapped(next[..], previous[..], [|g|] + leafs, [|g| + 1] + containers, [|g| + 2] + roots);
        LinkRegion(|regions| + 2, r, [|g| + 2] + roots, [|g|] + leafs, [|g| + 1] + containers);
        assert [|g| + 2] + roots + [r] == [|g| + 2] + (roots + [r]);
        roots := roots + [r];
        RingsSwapped(next[..], previous[..], [|g| + 2] + roots, [|g|] + leafs, [|g| + 1] + containers);
      }
      NeighbourVisited(g, h, regions, was, roots, done, part, r, symbols);
    }

    lemma RootTest(g: seq<Region>, r: nat, w: nat, symbols: int)
      requires r < |g| && g[r].colour == BLACK && w in g[r].adjacent && IsContainer(g, w, symbols)
      ensures var n := NonContainers(g, g[r].adjacent, symbols);
              IsRoot(g, r, symbols)
              <==> !IsLeaf(g, r)
                   && ((|g[r].adjacent| == symbols && n == 0) || (|g[r].adjacent| == symbols + 1 && n == 1))
    {
      hide IsContainer;
    }

    lemma RootsNotLeafs(g: seq<Region>, roots: seq<nat>, done: seq<nat>, part: seq<nat>, symbols: int)
      requires HoldsRoots(g, roots, done, part, symbols)
      ensures forall x | x in roots :: !IsLeaf(g, x)
    {
    }

    lemma NeighbourFresh(g: seq<Region>, h: seq<Region>, r: nat, symbols: int)
      requires TwoColoured(g) && r < |g| && g[r].colour == BLACK && BlackLevels(g, h, roots)
      requires HoldsLeafs(g, leafs) && HoldsContainers(g, containers, leafs, symbols)
      requires forall x | x in roots :: !IsLeaf(g, x)
      ensures h[r].level == UNKNOWN_LEVEL <==> !IsLeaf(g, r) && r !in roots
      ensures h[r].level == UNKNOWN_LEVEL ==> r !in leafs && r !in containers
    {
      hide IsContainer, Above;
      forall x | x in containers ensures x < |g| ==> g[x].colour != BLACK {
        ContainerColours(g, x, symbols);
      }
    }

    lemma NeighbourVisited(g: seq<Region>, h: seq<Region>, h': seq<Region>, roots: seq<nat>, roots': seq<nat>,
                           done: seq<nat>, part: seq<nat>, r: nat, symbols: int)
      requires r < |g| && g[r].colour == BLACK && HoldsRoots(g, roots, done, part, symbols)
      requires BlackLevels(g, h, roots) && WhiteLevels(g, h, leafs, symbols) && |h| == |g|
      requires if IsRoot(g, r, symbols) && r !in roots
               then h' == h[r := h[r].(level := ROOT_LEVEL)] && roots' == roots + [r]
               else h' == h && roots' == roots
      ensures HoldsRoots(g, roots', done, part + [r], symbols)
      ensures BlackLevels(g, h', roots') && WhiteLevels(g, h', leafs, symbols)
    {
      hide Above, Met, IsContainer, NonContainers;
    }
  }
}
