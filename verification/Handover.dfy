/** What the recognisers may expect of a segmented image. */
module Handover {
  import opened Sequences
  import opened Regions
  import opened Pixels
  import opened Scanning
  import opened SegmentationTheorems
  import CommonLinks
  import DepthStrings
  import Hanging
  import Peeling
  import Recognition
  import RegionGraph
  import TopologySearch
  import TreeIdMaps

  lemma ListsSymmetric(f: Frame, s: ScanState, img: Image, a: int, b: int)
    requires Segmented(f, s, img) && Lists(s.g, a, b)
    ensures b < |s.g| && b != a && Lists(s.g, b, a) && Live(s.g, a) && Live(s.g, b)
  {
    LinkedRegions(f, s, img, a, b);
    ListsAreWellFormed(f, s, img, a, b);
    ListsAreWellFormed(f, s, img, b, a);
    ListsMult(s.g, a, b);
    ListsMult(s.g, b, a);
  }

  lemma LinkedRegions(f: Frame, s: ScanState, img: Image, a: int, b: int)
    requires Segmented(f, s, img) && Lists(s.g, a, b)
    ensures b < |s.g| && s.g[a].colour != s.g[b].colour
  {
    hide Boxes;
  }

  /** The graph of an image is as the peeling needs it. */
  lemma GraphIsSymmetric(f: Frame, s: ScanState, img: Image)
    requires Segmented(f, s, img)
    ensures Peeling.Symmetric(s.g)
  {
    hide Segmented;
    forall a: nat | a < |s.g| && Free in s.g[a].flags ensures s.g[a].adjacent == [] {
      ListsAreWellFormed(f, s, img, a, a);
    }
    forall a, b | Lists(s.g, a, b) ensures b < |s.g| && b != a && Lists(s.g, b, a) {
      ListsSymmetric(f, s, img, a, b);
    }
    forall a: nat, b: nat | a < |s.g| && b < |s.g| && Peeling.Repeats(s.g[a].adjacent, b)
      ensures Peeling.Repeats(s.g[b].adjacent, a)
    {
      ListsAreWellFormed(f, s, img, a, b);
      RepeatsCounted(s.g[a].adjacent, b);
      RepeatsCounted(s.g[b].adjacent, a);
    }
  }

  lemma {:induction false} RepeatsCounted(list: seq<nat>, x: nat)
    ensures Peeling.Repeats(list, x) <==> multiset(list)[x] >= 2
  {
    if list == [] {
    } else {
      var tail := list[1..];
      assert list == [list[0]] + tail;
      RepeatsCounted(tail, x);
      if Peeling.Repeats(list, x) {
        var i, j :| 0 <= i < j < |list| && list[i] == x && list[j] == x;
        assert tail[j - 1] == x;
        if i > 0 { assert tail[i - 1] == x; }
      }
      if list[0] == x && x in tail {
        var j :| 0 <= j < |tail| && tail[j] == x;
        assert list[j + 1] == x;
      }
      if Peeling.Repeats(tail, x) {
        var i, j :| 0 <= i < j < |tail| && tail[i] == x && tail[j] == x;
        assert list[i + 1] == x && list[j + 1] == x;
      }
    }
  }

  /** Without duplicate entries all lists are distinct. */
  lemma ListsAreDistinct(f: Frame, s: ScanState, img: Image, a: nat)
    requires Segmented(f, s, img) && NoDuplicates(s.g) && a < |s.g|
    ensures Distinct(s.g[a].adjacent)
  {
    hide Segmented;
    var list := s.g[a].adjacent;
    forall i, j | 0 <= i < j < |list| ensures list[i] != list[j] {
      assert Lists(s.g, a, list[i]);
      LinkedRegions(f, s, img, a, list[i]);
      RepeatsCounted(list, list[i]);
      assert Mult(s.g, a, list[i]) <= 1;
    }
  }

  /** The initial values that the peeling relies on. */
  lemma SegmentedIsPristine(f: Frame, s: ScanState, img: Image)
    requires Segmented(f, s, img)
    ensures Peeling.Pristine(s.g)
    ensures forall r | 0 <= r < |s.g| ::
              s.g[r].level == -1 && s.g[r].childrenVisited == 0 && s.g[r].descendentCount == 0x7FFF
  {
    hide Segmented;
    NothingRecorded(f, s, img);
  }

  /** Every finished segmentation can be handed to the recogniser. */
  lemma SegmentedCanBePeeled(f: Frame, s: ScanState, img: Image, w: Peeling.Window)
    requires Segmented(f, s, img)
    ensures Peeling.Symmetric(s.g) && Peeling.Pristine(s.g)
    ensures Peeling.Peels(s.g, w, Peeling.Trace([], map[], map[]), -1)
  {
    hide Segmented, Peeling.Symmetric, Peeling.Pristine, Peeling.Peels;
    GraphIsSymmetric(f, s, img);
    SegmentedIsPristine(f, s, img);
    Peeling.Begin(s.g, w);
  }

  /** The regions of a black and white image satisfy what the topology search needs. */
  lemma BlackAndWhiteIsTwoColoured(f: Frame, s: ScanState, img: Image)
    requires Segmented(f, s, img) && forall p | p in img :: img[p] == BLACK || img[p] == WHITE
    ensures TopologySearch.TwoColoured(s.g)
  {
    hide Segmented;
    forall a, b | Lists(s.g, a, b)
      ensures b < |s.g| && Lists(s.g, b, a) && (s.g[a].colour == BLACK <==> s.g[b].colour != BLACK)
    {
      ListsSymmetric(f, s, img, a, b);
      LinkedRegions(f, s, img, a, b);
      RegionColour(f, s, img, a);
      RegionColour(f, s, img, b);
    }
  }

  /** A live region has the colour of its pixels. */
  lemma RegionColour(f: Frame, s: ScanState, img: Image, r: nat)
    requires Segmented(f, s, img) && Live(s.g, r)
    ensures exists p | p in img :: s.g[r].colour == img[p]
  {
    hide Segmented;
    PoolsAreConserved(f, s, img);
    Membership(f, s, img);
    var p :| Belongs(s, p, r);
    EveryPixelResolves(f, s, img, p);
    var q: nat :| Belongs(s, p, q) && s.g[q].colour == img[p];
  }

  // ----- what the shape of an image excludes

  /** The pixel above p belongs to the same region as p, or to a linked one, unless the region
      of p is flagged. */
  lemma RegionAbove(f: Frame, s: ScanState, img: Image, p: Pixel, a: nat) returns (b: nat)
    requires Segmented(f, s, img) && Belongs(s, p, a) && p.y > 0 && !Hanging.Flagged(s.g[a])
    ensures Belongs(s, Pixel(p.x, p.y - 1), b) && (b == a || Lists(s.g, a, b))
  {
    hide Segmented, Belongs;
    var q := Pixel(p.x, p.y - 1);
    InsideImage(f, s, img, p, a);
    PixelRegion(f, s, img, p, a);
    b := RegionAt(f, s, img, q);
    PixelRegion(f, s, img, q, b);
    assert Touch(p, q);
    if b != a { GraphIsFaithful(f, s, img, a, b); }
  }

  lemma PixelRegion(f: Frame, s: ScanState, img: Image, p: Pixel, a: nat)
    requires Segmented(f, s, img) && Belongs(s, p, a)
    ensures Live(s.g, a)
  {
  }

  lemma RegionAt(f: Frame, s: ScanState, img: Image, p: Pixel) returns (r: nat)
    requires Segmented(f, s, img) && p in img
    ensures Belongs(s, p, r)
  {
    hide Segmented;
    EveryPixelResolves(f, s, img, p);
    r :| Belongs(s, p, r) && s.g[r].colour == img[p];
  }

  lemma InsideImage(f: Frame, s: ScanState, img: Image, p: Pixel, a: nat)
    requires Segmented(f, s, img) && Belongs(s, p, a)
    ensures p in img && 0 <= p.y && forall y | 0 <= y <= p.y :: Pixel(p.x, y) in img
  {
    hide Segmented, IsFrame;
    Membership(f, s, img);
    HasFrame(f, s, img);
    FrameBelow(f, img, p);
  }

  lemma FrameBelow(f: Frame, img: Image, p: Pixel)
    requires IsFrame(f, img) && p in img
    ensures 0 <= p.y && forall y | 0 <= y <= p.y :: Pixel(p.x, y) in img
  {
    assert InFrame(f.width, f.height, p);
  }

  /** Going up from any pixel of a closed part of the graph leads to a flagged region: at the
      latest to the one that owns the pixel in the top row. */
  lemma {:induction false} ClosedPartHasFlag(f: Frame, s: ScanState, img: Image, part: set<nat>, p: Pixel, a: nat)
    returns (m: nat)
    requires Segmented(f, s, img) && Hanging.Closed(s.g, part) && a in part && Belongs(s, p, a)
    ensures m in part && m < |s.g| && Hanging.Flagged(s.g[m])
    decreases p.y
  {
    InsideImage(f, s, img, p, a);
    if Hanging.Flagged(s.g[a]) {
      m := a;
    } else if p.y == 0 {
      BorderRegionsMarked(f, s, img, a);
      assert OnBorder(f, p);
      m := a;
    } else {
      var b := RegionAbove(f, s, img, p, a);
      m := ClosedPartHasFlag(f, s, img, part, Pixel(p.x, p.y - 1), b);
    }
  }

  /** A tree of unflagged regions in a segmented image hangs from a region whose other side has
      a flagged region: the links of an image lead to its border. */
  lemma FarSideIsFlagged(f: Frame, s: ScanState, img: Image, r: nat, p: nat, t: DepthStrings.Tree)
    requires Segmented(f, s, img) && Hanging.Hangs(s.g, r, p, t)
    ensures Hanging.FarSideFlagged(s.g, r, p)
  {
    hide Segmented;
    forall a: nat, b: nat | Lists(s.g, a, b) ensures b < |s.g| && Lists(s.g, b, a) { ListsSymmetric(f, s, img, a, b); }
    ListsSymmetric(f, s, img, r, p);
    var part := Hanging.Component(s.g, r, p, t);
    Hanging.ComponentClosed(s.g, r, p, t);
    PoolsAreConserved(f, s, img);
    var q :| Belongs(s, q, r);
    var m := ClosedPartHasFlag(f, s, img, part, q, r);
    ListsAreWellFormed(f, s, img, m, m);
    Hanging.FarSideHasFlag(s.g, r, p, t, m);
  }

  /** In a segmented image a tree of the table that hangs anywhere is among the candidates of a
      finished search if and only if none of its regions lists a neighbour twice. */
  lemma HangingTreeIsFound(f: Frame, s: ScanState, img: Image, g: seq<Region>, w: Peeling.Window, tr: Peeling.Trace,
                           trees: seq<DepthStrings.Chars>, r: nat, p: nat, t: DepthStrings.Tree)
    requires Segmented(f, s, img) && Recognition.CoversTable(w, trees) && Recognition.Finished(s.g, g, w, tr)
    requires Hanging.Hangs(s.g, r, p, t) && TreeIdMaps.Coloured(s.g[r].colour, t) in trees
    ensures r in Peeling.Candidates(g, w, tr.order) <==> Hanging.NoRepeats(s.g, r, p, t)
    ensures Hanging.NoRepeats(s.g, r, p, t) ==>
              r in tr.tree && tr.tree[r] == t && r < |g| && LostSymbol !in g[r].flags
  {
    FarSideIsFlagged(f, s, img, r, p, t);
    assert Recognition.TreeOfTable(s.g, r, p, t, trees);
    hide *;
    if Hanging.NoRepeats(s.g, r, p, t) { Recognition.KnownTreeIsFound(s.g, g, w, tr, trees, r, p, t); }
    if r in Peeling.Candidates(g, w, tr.order) { Recognition.RepeatIsMissed(s.g, g, w, tr, trees, r, p, t); }
  }

  /** Without duplicate entries every tree of the table that hangs anywhere in the image is
      found. */
  lemma EveryHangingTreeIsFound(f: Frame, s: ScanState, img: Image, g: seq<Region>, w: Peeling.Window,
                                tr: Peeling.Trace, trees: seq<DepthStrings.Chars>, r: nat, p: nat,
                                t: DepthStrings.Tree)
    requires Segmented(f, s, img) && NoDuplicates(s.g)
    requires Recognition.CoversTable(w, trees) && Recognition.Finished(s.g, g, w, tr)
    requires Hanging.Hangs(s.g, r, p, t) && TreeIdMaps.Coloured(s.g[r].colour, t) in trees
    ensures r in Peeling.Candidates(g, w, tr.order) && r in tr.tree && tr.tree[r] == t
  {
    HangingTreeIsFound(f, s, img, g, w, tr, trees, r, p, t);
    hide Segmented, Hanging.Hangs;
    forall m: nat | m < |s.g| ensures Distinct(s.g[m].adjacent) { ListsAreDistinct(f, s, img, m); }
  }

  /** The last pixel of the image BBBW, BWWB, BBBB leaves such a tree: the white hole lists the
      black region around it twice. */
  lemma HoleIsMissed(g': seq<Region>, capacity: nat)
    requires capacity >= 3 && RegionGraph.IsMerger(CommonLinks.BeforeLastPixel(), g', capacity, 3, 0)
    ensures var t := DepthStrings.Node([]);
            Hanging.Hangs(g', 2, 3, t) && !Hanging.NoRepeats(g', 2, 3, t)
  {
    var g, t := CommonLinks.BeforeLastPixel(), DepthStrings.Node([]);
    HoleLinks(g', capacity);
    forall c | c in g'[2].adjacent ensures c == 3 {}
    Hanging.KidsOfIn(g'[2], 3);
    var ks := Hanging.KidsOf(g'[2], 3);
    HeadIn(ks);
    assert Hanging.InTree(g', 2, 3, t, 2);
  }

  lemma HeadIn(s: seq<nat>)
    ensures s == [] || s[0] in s
  {
  }

  lemma HoleLinks(g': seq<Region>, capacity: nat)
    requires capacity >= 3 && RegionGraph.IsMerger(CommonLinks.BeforeLastPixel(), g', capacity, 3, 0)
    ensures |g'| == 4 && 3 in g'[2].adjacent && !Distinct(g'[2].adjacent) && forall c | c in g'[2].adjacent :: c == 3
    ensures g'[2].flags == {}
  {
    var g := CommonLinks.BeforeLastPixel();
    CommonLinks.DuplicateArises(g', capacity);
    RegionGraph.MergerKeeps(g, g', capacity, 3, 0);
    RegionGraph.MergerMult(g, g', capacity, 3, 0, 2, 3);
    forall c | c in g'[2].adjacent ensures c == 3 {
      assert Lists(g', 2, c);
      RegionGraph.MergerMult(g, g', capacity, 3, 0, 2, c);
      ListsMult(g', 2, c);
      if c != 3 && c != 0 { CommonLinks.BeforeMult(2, c); }
    }
    RepeatsCounted(g'[2].adjacent, 3);
    assert RegionGraph.IsRelinked(g, g', capacity, 3, 0, 2);
  }

  /** What is reported in the end: the ids of exactly these trees. */
  lemma HangingTreeIsIdentified(f: Frame, s: ScanState, img: Image, trees: seq<DepthStrings.Chars>,
                                roots: seq<nat>, ids: seq<int>, r: nat, p: nat, t: DepthStrings.Tree)
    requires Segmented(f, s, img) && |ids| <= |roots| && Recognition.AllFound(s.g, trees, roots, ids)
    requires Hanging.Hangs(s.g, r, p, t) && TreeIdMaps.Coloured(s.g[r].colour, t) in trees
    ensures r in roots <==> Hanging.NoRepeats(s.g, r, p, t)
    ensures forall i | 0 <= i < |ids| && roots[i] == r ::
              TreeIdMaps.IsFirst(trees, TreeIdMaps.Coloured(s.g[r].colour, t), ids[i])
  {
    FarSideIsFlagged(f, s, img, r, p, t);
    assert Recognition.TreeOfTable(s.g, r, p, t, trees);
  }

  /** While a segmented image is searched, nothing has reported to a leaf at which the peeling is
      about to start, as find_roots takes for granted. */
  lemma StartsAreUnvisited(f: Frame, s: ScanState, img: Image, g: seq<Region>, w: Peeling.Window,
                           tr: Peeling.Trace, r: nat)
    requires Segmented(f, s, img) && Recognition.SameGraph(s.g, g)
    requires Peeling.Peels(g, w, tr, -1) && r < |g| && Peeling.IsStart(g, r) && !Peeling.Traversed(g, r)
    ensures g[r].childrenVisited == 0
  {
    hide Segmented, Recognition.SameGraph;
    var c := g[r].adjacent[0];
    Hanging.StartUnvisited(g, w, tr, r);
    LeafSeesNothing(g, r, c);
    hide Peeling.Peels, Peeling.IsStart, Peeling.Notifies, Hanging.Hangs, Hanging.FarSideFlagged;
    if g[r].childrenVisited != 0 {
      var t := tr.tree[c];
      SameBack(s.g, g);
      Recognition.HangsStill(g, s.g, c, r, t);
      FarSideIsFlagged(f, s, img, c, r, t);
      Recognition.FarSideStill(s.g, g, c, r);
      assert false;
    }
  }

  lemma SameBack(g: seq<Region>, g': seq<Region>)
    requires Recognition.SameGraph(g, g')
    ensures Recognition.SameGraph(g', g)
  {
  }

  /** Away from its only neighbour an unflagged leaf reaches no flagged region. */
  lemma LeafSeesNothing(g: seq<Region>, r: nat, c: nat)
    requires r < |g| && Peeling.IsStart(g, r) && g[r].adjacent[0] == c
    ensures !Hanging.FarSideFlagged(g, c, r)
  {
    forall path | Hanging.Walk(g, path, c) && path[0] == r ensures path == [r] {
      assert |path| > 1 ==> Lists(g, path[0], path[0 + 1]);
      assert g[r].adjacent == [c];
      if |path| > 1 { assert false; }
    }
  }
}
