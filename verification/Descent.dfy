/** Walking down again through the trees that were peeled: children are recognised by their
    smaller descendant counts, and the subtrees of different children are disjoint. */
module Descent {
  import opened Options
  import opened Regions
  import opened DepthStrings
  import opened Peeling
  import opened Hanging

  /** The adjacency lists may have been reordered and the depths overwritten. */
  ghost predicate Reordered(g: seq<Region>, g': seq<Region>) {
    && |g'| == |g|
    && forall r | 0 <= r < |g| ::
         && g'[r] == g[r].(adjacent := g'[r].adjacent, depth := g'[r].depth)
         && multiset(g'[r].adjacent) == multiset(g[r].adjacent)
  }

  lemma ReorderedMembers(g: seq<Region>, g': seq<Region>, r: nat)
    requires Reordered(g, g') && r < |g|
    ensures forall c :: c in g'[r].adjacent <==> c in g[r].adjacent
    ensures |g'[r].adjacent| == |g[r].adjacent|
  {
    assert forall c :: c in g'[r].adjacent <==> c in multiset(g'[r].adjacent);
    assert |multiset(g'[r].adjacent)| == |g'[r].adjacent|;
    assert |multiset(g[r].adjacent)| == |g[r].adjacent|;
  }

  /** m lies in the tree peeled into r. */
  ghost predicate Under(tr: Trace, m: nat, r: nat) {
    exists k: nat :: Climbs(tr, m, r, k)
  }

  lemma {:induction false} ClimbsOn(tr: Trace, m: nat, u: nat, v: nat, j: nat, k: nat)
    requires Climbs(tr, m, u, j) && Climbs(tr, m, v, k) && j <= k
    ensures Climbs(tr, u, v, k - j)
    decreases j
  {
    if j == 0 {
    } else {
      ClimbsOn(tr, tr.parent[m].value, u, v, j - 1, k - 1);
    }
  }

  lemma {:induction false} ClimbsUp(tr: Trace, m: nat, u: nat, k: nat)
    requires Climbs(tr, m, u, k) && u in tr.parent && tr.parent[u].Some?
    ensures Climbs(tr, m, tr.parent[u].value, k + 1)
    decreases k
  {
    if k > 0 {
      ClimbsUp(tr, tr.parent[m].value, u, k - 1);
    } else {
      assert Climbs(tr, tr.parent[u].value, tr.parent[u].value, 0);
    }
  }

  /** The last region before r on the way up from m. */
  lemma {:induction false} LastChild(tr: Trace, m: nat, r: nat, k: nat) returns (c: nat)
    requires Climbs(tr, m, r, k) && k > 0
    ensures c in tr.parent && tr.parent[c] == Some(r) && Climbs(tr, m, c, k - 1)
    decreases k
  {
    if k == 1 {
      c := m;
      assert Climbs(tr, tr.parent[m].value, r, 0);
    } else {
      c := LastChild(tr, tr.parent[m].value, r, k - 1);
    }
  }

  lemma ChildLinked(g: seq<Region>, w: Window, tr: Trace, c: nat, r: nat)
    requires Peels(g, w, tr, -1) && c in tr.parent && tr.parent[c] == Some(r) && r in tr.parent
    ensures PeeledAt(g, tr, c) && PeeledAt(g, tr, r) && Lists(g, r, c) && tr.parent[r] != Some(c)
  {
    PeeledFacts(g, w, tr, c);
    PeeledFacts(g, w, tr, r);
    assert Lists(g, c, r);
  }

  /** A child that was peeled towards r has a smaller descendant count. */
  lemma ChildCount(g: seq<Region>, w: Window, tr: Trace, c: nat, r: nat)
    requires Peels(g, w, tr, -1) && c in tr.parent && tr.parent[c] == Some(r) && r in tr.parent
    ensures c < |g| && r < |g| && Lists(g, r, c) && tr.parent[r] != Some(c)
    ensures 0 <= g[c].descendentCount < g[r].descendentCount
  {
    ChildLinked(g, w, tr, c, r);
    hide Peels;
    KidsIn(g[r].adjacent, tr.parent[r]);
    KidSmaller(tr, Kids(g[r].adjacent, tr.parent[r]), c);
    hide Size, Kids, HasTrees;
  }

  lemma KidSmaller(tr: Trace, ks: seq<nat>, c: nat)
    requires HasTrees(tr, ks) && c in ks
    ensures c in tr.tree && 1 <= Size(tr.tree[c]) < Size(Node(Trees(tr, ks)))
  {
    var i :| 0 <= i < |ks| && ks[i] == c;
    ChildSmaller(Trees(tr, ks), i);
    SizePositive(tr.tree[c]);
  }

  lemma SizePositive(t: Tree)
    ensures Size(t) >= 1
  {
  }

  lemma PeeledIndex(g: seq<Region>, w: Window, tr: Trace, m: nat)
    requires Peels(g, w, tr, -1) && m in tr.parent
    ensures m < |g| && m in tr.tree
  {
    PeeledFacts(g, w, tr, m);
  }

  lemma {:induction false} ClimbCount(g: seq<Region>, w: Window, tr: Trace, m: nat, r: nat, k: nat)
    requires Peels(g, w, tr, -1) && m in tr.parent && r in tr.parent && Climbs(tr, m, r, k)
    ensures m < |g| && r < |g| && g[m].descendentCount + k <= g[r].descendentCount
    decreases k
  {
    hide Peels, PeeledAt;
    PeeledIndex(g, w, tr, m);
    if k == 0 {
    } else {
      var v := tr.parent[m].value;
      assert v in tr.parent by {
        if k == 1 { assert Climbs(tr, v, r, 0); }
      }
      ChildCount(g, w, tr, m, v);
      ClimbCount(g, w, tr, v, r, k - 1);
    }
  }

  /** A region is not under its own child. */
  lemma NotUnderChild(g: seq<Region>, w: Window, tr: Trace, c: nat, r: nat)
    requires Peels(g, w, tr, -1) && c in tr.parent && tr.parent[c] == Some(r) && r in tr.parent
    ensures !Under(tr, r, c)
  {
    ChildCount(g, w, tr, c, r);
    forall k: nat ensures !Climbs(tr, r, c, k) {
      if Climbs(tr, r, c, k) { ClimbCount(g, w, tr, r, c, k); assert false; }
    }
  }

  /** The subtrees of two children of r have no region in common. */
  lemma ChildrenDisjoint(g: seq<Region>, w: Window, tr: Trace, a: nat, b: nat, r: nat, m: nat)
    requires Peels(g, w, tr, -1) && r in tr.parent && a != b
    requires a in tr.parent && tr.parent[a] == Some(r) && b in tr.parent && tr.parent[b] == Some(r)
    requires Under(tr, m, a)
    ensures !Under(tr, m, b)
  {
    if Under(tr, m, b) {
      var j: nat :| Climbs(tr, m, a, j);
      var k: nat :| Climbs(tr, m, b, k);
      if j <= k {
        ChildAboveSibling(g, w, tr, a, b, r, m, j, k);
      } else {
        ChildAboveSibling(g, w, tr, b, a, r, m, k, j);
      }
      assert false;
    }
  }

  lemma ChildAboveSibling(g: seq<Region>, w: Window, tr: Trace, a: nat, b: nat, r: nat, m: nat, j: nat, k: nat)
    requires Peels(g, w, tr, -1) && r in tr.parent && a != b
    requires a in tr.parent && tr.parent[a] == Some(r) && b in tr.parent && tr.parent[b] == Some(r)
    requires Climbs(tr, m, a, j) && Climbs(tr, m, b, k)
    ensures k < j
  {
    if j <= k {
      ClimbsOn(tr, m, a, b, j, k);
      assert k > j && Climbs(tr, r, b, k - j - 1);
      NotUnderChild(g, w, tr, b, r);
      assert false;
    }
  }

  /** The test by which set_depth and build_left_heavy_depth_string find the children. */
  lemma ChildTest(g: seq<Region>, w: Window, tr: Trace, r: nat, c: nat)
    requires Peels(g, w, tr, -1) && r in tr.parent && Lists(g, r, c)
    ensures c < |g| && r < |g| && g[r].descendentCount >= 0 && r in tr.tree
    ensures g[c].level == TRAVERSED && g[c].descendentCount < g[r].descendentCount <==> tr.parent[r] != Some(c)
    ensures g[r].descendentCount <= MAX_SHORT ==>
              (g[c].descendentCount < g[r].descendentCount <==> tr.parent[r] != Some(c))
    ensures tr.parent[r] != Some(c) ==> c in tr.parent && tr.parent[c] == Some(r)
  {
    PeeledFacts(g, w, tr, r);
    SizePositive(tr.tree[r]);
    if tr.parent[r] != Some(c) {
      ChildCount(g, w, tr, c, r);
    } else if Traversed(g, c) {
      ChildCount(g, w, tr, r, c);
    }
  }

  /** The walk down stops too early only at a root with a single neighbour. */
  ghost predicate NotCut(g: seq<Region>, tr: Trace, r: nat) {
    r < |g| && r in tr.tree && (|g[r].adjacent| == 1 ==> tr.tree[r].children == [])
  }

  lemma ChildNotCut(g: seq<Region>, w: Window, tr: Trace, c: nat)
    requires Peels(g, w, tr, -1) && c in tr.parent && tr.parent[c].Some?
    ensures NotCut(g, tr, c)
  {
    PeeledFacts(g, w, tr, c);
    hide Peels;
    OnlyParent(g, tr, c, tr.parent[c].value);
  }

  lemma OnlyParent(g: seq<Region>, tr: Trace, c: nat, p: nat)
    requires PeeledAt(g, tr, c) && tr.parent[c] == Some(p)
    ensures NotCut(g, tr, c)
  {
    hide Size, Height;
    assert Lists(g, c, p);
    NoKids(p);
    assert |g[c].adjacent| == 1 ==> g[c].adjacent == [p];
  }

  lemma NoKids(p: nat)
    ensures Kids([p], Some(p)) == []
  {
    assert [p][1..] == [];
  }

  /** The depths under r count the steps up to r. */
  ghost predicate Depths(g: seq<Region>, tr: Trace, r: nat, d: int) {
    forall m: nat, k: nat | Climbs(tr, m, r, k) :: m < |g| && g[m].depth == d + k
  }

  /** Everything outside the tree of r is as before. */
  ghost predicate OnlyUnder(g: seq<Region>, g': seq<Region>, tr: Trace, r: nat) {
    |g'| == |g| && forall m: nat | m < |g| && !Under(tr, m, r) :: g'[m] == g[m]
  }

  lemma UnderChild(tr: Trace, c: nat, r: nat, m: nat)
    requires c in tr.parent && tr.parent[c] == Some(r) && Under(tr, m, c)
    ensures Under(tr, m, r)
  {
    var k: nat :| Climbs(tr, m, c, k);
    ClimbsUp(tr, m, c, k);
  }

  lemma SelfUnder(tr: Trace, r: nat)
    ensures Under(tr, r, r)
  {
    assert Climbs(tr, r, r, 0);
  }

  lemma OnlyUnderChild(g: seq<Region>, m: seq<Region>, g': seq<Region>, tr: Trace, c: nat, r: nat)
    requires OnlyUnder(g, m, tr, r) && OnlyUnder(m, g', tr, c) && c in tr.parent && tr.parent[c] == Some(r)
    ensures OnlyUnder(g, g', tr, r)
  {
    forall x: nat | x < |g| && !Under(tr, x, r) ensures g'[x] == g[x] {
      if Under(tr, x, c) { UnderChild(tr, c, r, x); }
    }
  }

  /** The depths under a child are not affected by work under another child. */
  lemma DepthsKept(g: seq<Region>, m: seq<Region>, g': seq<Region>, w: Window, tr: Trace, a: nat, b: nat, r: nat,
                   d: int)
    requires Peels(g, w, tr, -1) && r in tr.parent && a != b && |m| == |g|
    requires a in tr.parent && tr.parent[a] == Some(r) && b in tr.parent && tr.parent[b] == Some(r)
    requires Depths(m, tr, a, d) && OnlyUnder(m, g', tr, b)
    ensures Depths(g', tr, a, d)
  {
    hide Peels;
    forall x: nat, k: nat | Climbs(tr, x, a, k) ensures x < |g'| && g'[x].depth == d + k {
      ChildrenDisjoint(g, w, tr, a, b, r, x);
    }
  }

  /** The depths under r, from those under its children. */
  lemma DepthsFromChildren(g: seq<Region>, g': seq<Region>, w: Window, tr: Trace, r: nat, d: int)
    requires Peels(g, w, tr, -1) && r in tr.parent && |g'| == |g|
    requires r < |g| && g'[r].depth == d
    requires forall c | c in tr.parent && tr.parent[c] == Some(r) :: Depths(g', tr, c, d + 1)
    ensures Depths(g', tr, r, d)
  {
    hide Peels;
    forall m: nat, k: nat | Climbs(tr, m, r, k) ensures m < |g'| && g'[m].depth == d + k {
      if k > 0 {
        var c := LastChild(tr, m, r, k);
        assert Depths(g', tr, c, d + 1);
      }
    }
  }

  lemma DepthsOfChild(g: seq<Region>, tr: Trace, r: nat, d: int, c: nat)
    requires Depths(g, tr, r, d) && c in tr.parent && tr.parent[c] == Some(r)
    ensures Depths(g, tr, c, d + 1)
  {
    forall m: nat, k: nat | Climbs(tr, m, c, k) ensures m < |g| && g[m].depth == d + 1 + k {
      ClimbsUp(tr, m, c, k);
      assert Climbs(tr, m, r, k + 1);
    }
  }
}
