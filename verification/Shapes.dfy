/** What is drawn in an image: components of equal-coloured pixels inside one another, and the
    trees that the recogniser finds for them. */
module Shapes {
  import opened Regions
  import opened Pixels
  import opened Scanning
  import opened SegmentationTheorems
  import opened Sequences
  import opened DepthStrings
  import Hanging
  import Handover
  import Recognition
  import TreeIdMaps

  /** The pixels belong to one component: a path of touching equal-coloured pixels joins them. */
  ghost predicate Same(img: Image, p: Pixel, q: Pixel) { Joined(img, img.Keys, p, q) }

  /** The components of p and q touch. */
  ghost predicate Meet(img: Image, p: Pixel, q: Pixel) {
    exists u, v :: Same(img, p, u) && Same(img, q, v) && Touch(u, v)
  }

  /** The component of p has a pixel at the border of the image. */
  ghost predicate AtBorder(f: Frame, img: Image, p: Pixel) {
    exists u :: Same(img, p, u) && OnBorder(f, u)
  }

  /** The components that touch that of p, except that of o, are those of the pixels in qs. */
  ghost predicate Holds(img: Image, p: Pixel, o: Pixel, qs: seq<Pixel>) {
    && (forall i | 0 <= i < |qs| ::
          qs[i] in img && Meet(img, p, qs[i]) && !Same(img, p, qs[i]) && !Same(img, o, qs[i]))
    && (forall i, j | 0 <= i < j < |qs| :: !Same(img, qs[i], qs[j]))
    && (forall q | q in img && Meet(img, p, q) && !Same(img, p, q) && !Same(img, o, q) ::
          exists i :: 0 <= i < |qs| && Same(img, qs[i], q))
  }

  /** Inside the component of o, away from the border of the image, lies the component of p, and
      the components inside one another from there on form the tree t. */
  ghost predicate Drawn(f: Frame, img: Image, p: Pixel, o: Pixel, t: Tree)
    decreases t, 1
  {
    && p in img && o in img && Meet(img, p, o) && !Same(img, p, o) && !AtBorder(f, img, p)
    && exists qs :: Holds(img, p, o, qs) && AllDrawn(f, img, p, t, qs)
  }

  ghost predicate AllDrawn(f: Frame, img: Image, p: Pixel, t: Tree, qs: seq<Pixel>)
    decreases t, 0
  {
    |qs| == |t.children| && forall i | 0 <= i < |qs| :: Drawn(f, img, qs[i], p, t.children[i])
  }

  // ----- components and regions

  ghost function RegionOf(s: ScanState, p: Pixel): nat { if p in s.reg then s.reg[p] else 0 }

  ghost function RegionsAt(s: ScanState, qs: seq<Pixel>): (rs: seq<nat>)
    ensures |rs| == |qs|
  {
    seq(|qs|, i requires 0 <= i < |qs| => RegionOf(s, qs[i]))
  }

  /** The neighbours of the region of p, except that of o. */
  ghost function Inside(s: ScanState, p: Pixel, o: Pixel): seq<nat> {
    if RegionOf(s, p) < |s.g| then Hanging.KidsOf(s.g[RegionOf(s, p)], RegionOf(s, o)) else []
  }

  lemma OfRegion(f: Frame, s: ScanState, img: Image, p: Pixel)
    requires Segmented(f, s, img) && p in img
    ensures Belongs(s, p, RegionOf(s, p)) && Live(s.g, RegionOf(s, p)) && RegionOf(s, p) < |s.g|
    ensures s.g[RegionOf(s, p)].colour == img[p]
    ensures forall r :: Belongs(s, p, r) <==> r == RegionOf(s, p)
  {
    hide Segmented;
    Membership(f, s, img);
    EveryPixelResolves(f, s, img, p);
  }

  lemma InImage(f: Frame, s: ScanState, img: Image, p: Pixel, r: nat)
    requires Segmented(f, s, img) && Belongs(s, p, r)
    ensures p in img
  {
    hide Segmented;
    Membership(f, s, img);
  }

  lemma SameRegion(f: Frame, s: ScanState, img: Image, p: Pixel, q: Pixel)
    requires Segmented(f, s, img) && p in img && q in img
    ensures Same(img, p, q) <==> RegionOf(s, p) == RegionOf(s, q)
  {
    hide Segmented, Belongs;
    OfRegion(f, s, img, p);
    OfRegion(f, s, img, q);
    RegionsAreConnectedComponents(f, s, img, p, q);
  }

  lemma SameInImage(img: Image, p: Pixel, q: Pixel)
    requires Same(img, p, q)
    ensures p in img && q in img
  {
    var path :| IsPath(img, img.Keys, path) && path[0] == p && path[|path| - 1] == q;
  }

  lemma MeetRegions(f: Frame, s: ScanState, img: Image, p: Pixel, q: Pixel)
    requires Segmented(f, s, img) && Roomy(f, s, img) && p in img && q in img
    requires !Same(img, p, q)
    ensures Meet(img, p, q) <==> Lists(s.g, RegionOf(s, p), RegionOf(s, q))
  {
    hide Segmented, Roomy, Same, Belongs, Lists, Live;
    OfRegion(f, s, img, p);
    OfRegion(f, s, img, q);
    SameRegion(f, s, img, p, q);
    NothingOverflows(f, s, img, RegionOf(s, p));
    if u, v :| Same(img, p, u) && Same(img, q, v) && Touch(u, v) {
      MemberOf(f, s, img, p, u);
      MemberOf(f, s, img, q, v);
    }
    if u, v :| Touch(u, v) && Belongs(s, u, RegionOf(s, p)) && Belongs(s, v, RegionOf(s, q)) {
      MemberOf(f, s, img, p, u);
      MemberOf(f, s, img, q, v);
    }
  }

  /** The pixels of the component are those of the region. */
  lemma MemberOf(f: Frame, s: ScanState, img: Image, p: Pixel, u: Pixel)
    requires Segmented(f, s, img) && p in img
    ensures Same(img, p, u) <==> Belongs(s, u, RegionOf(s, p))
  {
    hide Segmented, Same, Belongs;
    if Same(img, p, u) { SameInImage(img, p, u); }
    if Belongs(s, u, RegionOf(s, p)) { InImage(f, s, img, u, RegionOf(s, p)); }
    if u in img {
      SameRegion(f, s, img, p, u);
      OfRegion(f, s, img, u);
    }
  }

  lemma BorderRegion(f: Frame, s: ScanState, img: Image, p: Pixel)
    requires Segmented(f, s, img) && p in img
    ensures RegionOf(s, p) < |s.g| && (AtBorder(f, img, p) <==> AdjacentToRoot in s.g[RegionOf(s, p)].flags)
  {
    hide Segmented, Same, Belongs, Live;
    OfRegion(f, s, img, p);
    BorderRegionsMarked(f, s, img, RegionOf(s, p));
    forall u ensures Same(img, p, u) <==> Belongs(s, u, RegionOf(s, p)) { MemberOf(f, s, img, p, u); }
  }

  // ----- from what is drawn to the tree in the graph

  lemma InsideListed(f: Frame, s: ScanState, img: Image, p: Pixel, o: Pixel)
    requires Segmented(f, s, img) && p in img
    ensures Distinct(Inside(s, p, o))
    ensures forall k :: k in Inside(s, p, o) <==> Lists(s.g, RegionOf(s, p), k) && k != RegionOf(s, o)
    ensures forall k | k in Inside(s, p, o) :: Live(s.g, k)
  {
    hide Segmented, Belongs;
    OfRegion(f, s, img, p);
    Hanging.KidsOfIn(s.g[RegionOf(s, p)], RegionOf(s, o));
    Hanging.KidsOfDistinct(s.g[RegionOf(s, p)], RegionOf(s, o));
    forall k | k in Inside(s, p, o) ensures Live(s.g, k) { Handover.ListsSymmetric(f, s, img, RegionOf(s, p), k); }
  }

  /** Some pixel of a region. */
  lemma PixelOf(f: Frame, s: ScanState, img: Image, k: nat) returns (q: Pixel)
    requires Segmented(f, s, img) && Live(s.g, k)
    ensures q in img && RegionOf(s, q) == k
  {
    hide Segmented;
    PoolsAreConserved(f, s, img);
    Membership(f, s, img);
    q :| Belongs(s, q, k);
  }

  /** The components inside that of p are the neighbours of its region. */
  lemma HeldRegions(f: Frame, s: ScanState, img: Image, p: Pixel, o: Pixel, qs: seq<Pixel>)
    requires Segmented(f, s, img) && Roomy(f, s, img) && p in img && o in img
    requires Holds(img, p, o, qs)
    ensures multiset(RegionsAt(s, qs)) == multiset(Inside(s, p, o))
  {
    hide Segmented, Roomy, Holds, RegionOf, Lists, Live, Inside;
    InsideListed(f, s, img, p, o);
    HeldDistinct(f, s, img, p, o, qs);
    forall k | k in RegionsAt(s, qs) ensures k in Inside(s, p, o) {
      var i :| 0 <= i < |qs| && RegionsAt(s, qs)[i] == k;
      HeldIsInside(f, s, img, p, o, qs, i);
    }
    forall k | k in Inside(s, p, o) ensures k in RegionsAt(s, qs) {
      InsideIsHeld(f, s, img, p, o, qs, k);
      var i :| 0 <= i < |qs| && RegionOf(s, qs[i]) == k;
      assert RegionsAt(s, qs)[i] == k;
    }
    hide RegionsAt;
    DistinctAlike(RegionsAt(s, qs), Inside(s, p, o));
  }

  lemma HeldDistinct(f: Frame, s: ScanState, img: Image, p: Pixel, o: Pixel, qs: seq<Pixel>)
    requires Segmented(f, s, img) && Holds(img, p, o, qs)
    ensures Distinct(RegionsAt(s, qs))
  {
    hide Segmented, Meet, Same, RegionOf;
    forall i, j | 0 <= i < j < |qs| ensures RegionsAt(s, qs)[i] != RegionsAt(s, qs)[j] {
      SameRegion(f, s, img, qs[i], qs[j]);
    }
  }

  lemma HeldIsInside(f: Frame, s: ScanState, img: Image, p: Pixel, o: Pixel, qs: seq<Pixel>, i: nat)
    requires Segmented(f, s, img) && Roomy(f, s, img) && p in img && o in img
    requires Holds(img, p, o, qs) && i < |qs|
    ensures RegionOf(s, qs[i]) in Inside(s, p, o)
  {
    hide Segmented, Roomy, Meet, Same, RegionOf, Lists, Live, Inside;
    InsideListed(f, s, img, p, o);
    MeetRegions(f, s, img, p, qs[i]);
    SameRegion(f, s, img, o, qs[i]);
  }

  lemma InsideIsHeld(f: Frame, s: ScanState, img: Image, p: Pixel, o: Pixel, qs: seq<Pixel>, k: nat)
    requires Segmented(f, s, img) && Roomy(f, s, img) && p in img && o in img
    requires Holds(img, p, o, qs) && k in Inside(s, p, o)
    ensures exists i :: 0 <= i < |qs| && RegionOf(s, qs[i]) == k
  {
    hide Segmented, Roomy, Meet, Same, RegionOf, Lists, Live, Inside;
    InsideListed(f, s, img, p, o);
    var q := PixelOf(f, s, img, k);
    InsidePixel(f, s, img, p, o, q);
    var i :| 0 <= i < |qs| && Same(img, qs[i], q);
    SameRegion(f, s, img, qs[i], q);
  }

  lemma InsidePixel(f: Frame, s: ScanState, img: Image, p: Pixel, o: Pixel, q: Pixel)
    requires Segmented(f, s, img) && Roomy(f, s, img) && p in img && o in img && q in img
    requires RegionOf(s, q) in Inside(s, p, o)
    ensures Meet(img, p, q) && !Same(img, p, q) && !Same(img, o, q)
  {
    hide Segmented, Roomy, Meet, Same, RegionOf, Lists, Live, Inside;
    InsideListed(f, s, img, p, o);
    Handover.ListsSymmetric(f, s, img, RegionOf(s, p), RegionOf(s, q));
    SameRegion(f, s, img, p, q);
    SameRegion(f, s, img, o, q);
    MeetRegions(f, s, img, p, q);
  }

  /** What is drawn hangs in the graph, up to the order of the children. */
  lemma {:induction false} DrawnHangs(f: Frame, s: ScanState, img: Image, p: Pixel, o: Pixel, t: Tree) returns (u: Tree)
    requires Segmented(f, s, img) && Roomy(f, s, img) && Drawn(f, img, p, o, t)
    ensures Hanging.Hangs(s.g, RegionOf(s, p), RegionOf(s, o), u) && Isomorphic(t, u)
    decreases t, 1, 0
  {
    var qs :| Holds(img, p, o, qs) && AllDrawn(f, img, p, t, qs);
    hide Drawn;
    hide Segmented, Roomy, Meet, Same, AtBorder, Isomorphic, Holds, AllDrawn, Hanging.Hangs, Paired, Inside, RegionOf;
    HeldRegions(f, s, img, p, o, qs);
    DrawnCount(f, img, p, t, qs);
    var us := PermutedAlike(t.children, RegionsAt(s, qs), Inside(s, p, o));
    var vs := DrawnKids(f, s, img, p, o, t, qs, us, |us|);
    u := Node(vs);
    RootHangs(f, s, img, p, o, u);
    ChildrenAlike(t.children, us, vs);
  }

  lemma DrawnCount(f: Frame, img: Image, p: Pixel, t: Tree, qs: seq<Pixel>)
    requires AllDrawn(f, img, p, t, qs)
    ensures |qs| == |t.children|
  {
  }

  /** The trees that hang from the first n neighbours. */
  lemma {:induction false} DrawnKids(f: Frame, s: ScanState, img: Image, p: Pixel, o: Pixel, t: Tree,
                                     qs: seq<Pixel>, us: seq<Tree>, n: nat) returns (vs: seq<Tree>)
    requires Segmented(f, s, img) && Roomy(f, s, img) && AllDrawn(f, img, p, t, qs)
    requires |qs| == |t.children| && n <= |us| == |Inside(s, p, o)|
    requires forall i | 0 <= i < |us| :: Paired(t.children, RegionsAt(s, qs), us[i], Inside(s, p, o)[i])
    ensures |vs| == n
    ensures forall i | 0 <= i < n ::
              Hanging.Hangs(s.g, Inside(s, p, o)[i], RegionOf(s, p), vs[i]) && Isomorphic(us[i], vs[i])
    decreases t, 0, n
  {
    hide Segmented, Roomy, Isomorphic, Hanging.Hangs, Inside, RegionOf, Paired, AllDrawn;
    if n == 0 {
      vs := [];
    } else {
      vs := DrawnKids(f, s, img, p, o, t, qs, us, n - 1);
      var v := DrawnKid(f, s, img, p, t, qs, us[n - 1], Inside(s, p, o)[n - 1]);
      vs := vs + [v];
    }
  }

  lemma {:induction false} DrawnKid(f: Frame, s: ScanState, img: Image, p: Pixel, t: Tree, qs: seq<Pixel>, u: Tree,
                                    k: nat) returns (v: Tree)
    requires Segmented(f, s, img) && Roomy(f, s, img) && AllDrawn(f, img, p, t, qs)
    requires |qs| == |t.children| && Paired(t.children, RegionsAt(s, qs), u, k)
    ensures Hanging.Hangs(s.g, k, RegionOf(s, p), v) && Isomorphic(u, v)
    decreases t, 0, 0
  {
    hide Segmented, Roomy, Isomorphic, Hanging.Hangs, Drawn;
    var j :| 0 <= j < |qs| && t.children[j] == u && RegionsAt(s, qs)[j] == k;
    v := DrawnHangs(f, s, img, qs[j], p, t.children[j]);
  }

  lemma RootHangs(f: Frame, s: ScanState, img: Image, p: Pixel, o: Pixel, u: Tree)
    requires Segmented(f, s, img) && Roomy(f, s, img)
    requires p in img && o in img && Meet(img, p, o) && !Same(img, p, o) && !AtBorder(f, img, p)
    requires |Inside(s, p, o)| == |u.children|
    requires forall i | 0 <= i < |u.children| ::
               Hanging.Hangs(s.g, Inside(s, p, o)[i], RegionOf(s, p), u.children[i])
    ensures Hanging.Hangs(s.g, RegionOf(s, p), RegionOf(s, o), u)
  {
    hide Segmented, Roomy, Meet, Same, AtBorder, RegionOf, Belongs;
    OfRegion(f, s, img, p);
    BorderRegion(f, s, img, p);
    MeetRegions(f, s, img, p, o);
    NothingOverflows(f, s, img, RegionOf(s, p));
  }

  lemma ChildrenAlike(ts: seq<Tree>, us: seq<Tree>, vs: seq<Tree>)
    requires multiset(us) == multiset(ts) && |vs| == |us| && forall i | 0 <= i < |us| :: Isomorphic(us[i], vs[i])
    ensures Isomorphic(Node(ts), Node(vs))
  {
    hide Isomorphic, DepthString;
    forall i | 0 <= i < |us| ensures Strings(us, 0)[i] == Strings(vs, 0)[i] {
      CanonicalForm(us[i], vs[i], 0);
      StringsAt(us, 0, i);
      StringsAt(vs, 0, i);
    }
    assert Strings(us, 0) == Strings(vs, 0);
    StringsReordered(us, ts, 0);
    MatchedStrings(ts, vs, 0);
    MatchedIsomorphic(ts, vs);
  }

  lemma MatchedIsomorphic(ts: seq<Tree>, us: seq<Tree>)
    requires Matched(ts, us)
    ensures Isomorphic(Node(ts), Node(us))
  {
  }

  // ----- from the tree in the graph to what is drawn

  /** What hangs in the graph is drawn. */
  lemma {:induction false} HangsDrawn(f: Frame, s: ScanState, img: Image, p: Pixel, o: Pixel, t: Tree)
    requires Segmented(f, s, img) && Roomy(f, s, img) && p in img && o in img
    requires Hanging.Hangs(s.g, RegionOf(s, p), RegionOf(s, o), t)
    ensures Drawn(f, img, p, o, t)
    decreases t, 1
  {
    hide Segmented, Roomy, Meet, Same, AtBorder, Holds, AllDrawn, RegionOf, Live, Inside;
    Handover.ListsSymmetric(f, s, img, RegionOf(s, p), RegionOf(s, o));
    BorderRegion(f, s, img, p);
    SameRegion(f, s, img, p, o);
    MeetRegions(f, s, img, p, o);
    InsideListed(f, s, img, p, o);
    var qs := PixelsOf(f, s, img, Inside(s, p, o));
    HeldPixels(f, s, img, p, o, qs);
    AllHangDrawn(f, s, img, p, o, t, qs);
  }

  lemma {:induction false} AllHangDrawn(f: Frame, s: ScanState, img: Image, p: Pixel, o: Pixel, t: Tree,
                                        qs: seq<Pixel>)
    requires Segmented(f, s, img) && Roomy(f, s, img) && p in img && o in img
    requires Hanging.Hangs(s.g, RegionOf(s, p), RegionOf(s, o), t)
    requires (forall i | 0 <= i < |qs| :: qs[i] in img) && RegionsAt(s, qs) == Inside(s, p, o)
    ensures AllDrawn(f, img, p, t, qs)
    decreases t, 0
  {
    hide Segmented, Roomy, Drawn;
    forall i | 0 <= i < |qs| ensures Drawn(f, img, qs[i], p, t.children[i]) {
      assert RegionOf(s, qs[i]) == RegionsAt(s, qs)[i];
      HangsDrawn(f, s, img, qs[i], p, t.children[i]);
    }
  }

  /** A pixel of every region in the list. */
  lemma {:induction false} PixelsOf(f: Frame, s: ScanState, img: Image, ks: seq<nat>) returns (qs: seq<Pixel>)
    requires Segmented(f, s, img) && forall k | k in ks :: Live(s.g, k)
    ensures (forall i | 0 <= i < |qs| :: qs[i] in img) && RegionsAt(s, qs) == ks
  {
    hide Segmented, RegionOf;
    if ks == [] {
      qs := [];
    } else {
      assert ks == [ks[0]] + ks[1..];
      var q := PixelOf(f, s, img, ks[0]);
      var rest := PixelsOf(f, s, img, ks[1..]);
      qs := [q] + rest;
      assert RegionsAt(s, qs) == [ks[0]] + RegionsAt(s, rest);
    }
  }

  lemma HeldPixels(f: Frame, s: ScanState, img: Image, p: Pixel, o: Pixel, qs: seq<Pixel>)
    requires Segmented(f, s, img) && Roomy(f, s, img) && p in img && o in img
    requires (forall i | 0 <= i < |qs| :: qs[i] in img) && RegionsAt(s, qs) == Inside(s, p, o)
    ensures Holds(img, p, o, qs)
  {
    hide Segmented, Roomy, Meet, Same, RegionOf, Lists, Live, Inside;
    var rs := RegionsAt(s, qs);
    InsideListed(f, s, img, p, o);
    forall i | 0 <= i < |qs| ensures Meet(img, p, qs[i]) && !Same(img, p, qs[i]) && !Same(img, o, qs[i]) {
      assert RegionOf(s, qs[i]) == rs[i];
      InsidePixel(f, s, img, p, o, qs[i]);
    }
    forall i, j | 0 <= i < j < |qs| ensures !Same(img, qs[i], qs[j]) {
      assert RegionOf(s, qs[i]) == rs[i] && RegionOf(s, qs[j]) == rs[j];
      SameRegion(f, s, img, qs[i], qs[j]);
    }
    forall q | q in img && Meet(img, p, q) && !Same(img, p, q) && !Same(img, o, q)
      ensures exists i :: 0 <= i < |qs| && Same(img, qs[i], q)
    {
      MeetRegions(f, s, img, p, q);
      SameRegion(f, s, img, o, q);
      var i :| 0 <= i < |rs| && rs[i] == RegionOf(s, q);
      SameRegion(f, s, img, qs[i], q);
    }
  }

  // ----- what is reported

  /** The id of a tree of the table that is drawn anywhere in the image is reported if and only if
      the segmenter listed no neighbour of its regions twice. */
  lemma DrawnTreeIsIdentified(f: Frame, s: ScanState, img: Image, trees: seq<Chars>, roots: seq<nat>, ids: seq<int>,
                              p: Pixel, o: Pixel, t: Tree)
    requires p in img && Segmented(f, s, img) && Roomy(f, s, img)
    requires |ids| <= |roots| && Recognition.AllFound(s.g, trees, roots, ids)
    requires Drawn(f, img, p, o, t) && TreeIdMaps.Coloured(img[p], t) in trees
    ensures exists r: nat, q: nat, u ::
              && Belongs(s, p, r) && Belongs(s, o, q) && Isomorphic(t, u) && Hanging.Hangs(s.g, r, q, u)
              && (r in roots <==> Hanging.NoRepeats(s.g, r, q, u))
              && forall i | 0 <= i < |ids| && roots[i] == r ::
                   TreeIdMaps.IsFirst(trees, TreeIdMaps.Coloured(img[p], t), ids[i])
  {
    DrawnInImage(f, img, p, o, t);
    hide Segmented, Roomy, Drawn, Isomorphic, Hanging.Hangs, Hanging.NoRepeats, Recognition.AllFound,
         TreeIdMaps.IsFirst, RegionOf, Belongs;
    var u := DrawnHangs(f, s, img, p, o, t);
    var r, q := RegionOf(s, p), RegionOf(s, o);
    OfRegion(f, s, img, p);
    OfRegion(f, s, img, o);
    CanonicalForm(t, u, 0);
    assert TreeIdMaps.Coloured(s.g[r].colour, u) == TreeIdMaps.Coloured(img[p], t);
    Handover.HangingTreeIsIdentified(f, s, img, trees, roots, ids, r, q, u);
  }

  lemma DrawnInImage(f: Frame, img: Image, p: Pixel, o: Pixel, t: Tree)
    requires Drawn(f, img, p, o, t)
    ensures p in img && o in img
  {
  }
}
