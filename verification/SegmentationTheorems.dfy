/** What a finished segmentation means for the image. */
module SegmentationTheorems {
  import opened Options
  import opened Regions
  import opened Pixels
  import opened Components
  import opened Overflow
  import opened References
  import opened Storage
  import opened Scanning

  /** The region of a pixel: the one owned by the root of its reference. */
  ghost predicate Belongs(s: ScanState, p: Pixel, r: nat) {
    && 0 <= RootOf(s, p) < |s.refs| && IsRoot(s.refs, RootOf(s, p)) && s.refs[RootOf(s, p)].region == Some(r)
    && Live(s.g, r)
  }

  /** Some pixel of a touches some pixel of b. */
  ghost predicate RegionsTouch(s: ScanState, a: nat, b: nat) {
    exists p, q :: Touch(p, q) && Belongs(s, p, a) && Belongs(s, q, b)
  }

  ghost predicate OnBorder(f: Frame, p: Pixel) {
    p.x == 0 || p.y == 0 || p.x == f.width - 1 || p.y == f.height - 1
  }

  lemma Membership(f: Frame, s: ScanState, img: Image)
    requires Segmented(f, s, img)
    ensures forall p, r :: Belongs(s, p, r) <==> p in img && s.reg[p] == r
    ensures s.reg.Keys == img.Keys == s.given.Keys
  {
    hide Stored, Accounted, WellLinked, IsFrame, Inhabited, TouchingAgree, RegionsJoined, EdgesReal, TouchingLinked,
         Bordered, Boxes;
    StoredFacts(s.refs, s.root, s.rank, s.g, s.owner, s.head, s.free, s.given, s.reg);
    assert forall p | p in s.reg :: Live(s.g, s.reg[p]);
  }

  lemma HasFrame(f: Frame, s: ScanState, img: Image)
    requires Segmented(f, s, img)
    ensures IsFrame(f, img)
  {
    hide Stored, Accounted, WellLinked, Inhabited, TouchingAgree, RegionsJoined, EdgesReal, TouchingLinked, Bordered,
         Boxes, IsFrame;
  }

  lemma NothingRecorded(f: Frame, s: ScanState, img: Image)
    requires Segmented(f, s, img)
    ensures forall r | 0 <= r < |s.g| :: Untouched(s.g[r])
  {
    hide Stored, Accounted, IsFrame, Inhabited, TouchingAgree, RegionsJoined, EdgesReal, TouchingLinked, Bordered,
         Boxes, Untouched;
    assert WellLinked(s.g, f.capacity);
  }

  /** Following redirects from the reference of a pixel ends at exactly one reference,
      which owns a live region of the pixel's colour. */
  lemma EveryPixelResolves(f: Frame, s: ScanState, img: Image, p: Pixel)
    requires Segmented(f, s, img) && p in img
    ensures p in s.given && s.given[p] < |s.refs| && (forall k | 0 <= k < |s.refs| :: s.refs[k].redirect < |s.refs|)
    ensures exists n: nat :: Follow(s.refs, s.given[p], n) == RootOf(s, p)
    ensures forall n: nat | IsRoot(s.refs, Follow(s.refs, s.given[p], n)) ::
              Follow(s.refs, s.given[p], n) == RootOf(s, p)
    ensures exists r: nat :: Belongs(s, p, r) && s.g[r].colour == img[p]
  {
    Membership(f, s, img);
    RootReached(s.refs, s.root, s.rank, s.given[p]);
    assert Belongs(s, p, s.reg[p]);
  }

  /** Two pixels resolve to the same region exactly when a path of 4-neighbouring pixels of
      one colour joins them. */
  lemma RegionsAreConnectedComponents(f: Frame, s: ScanState, img: Image, p: Pixel, q: Pixel)
    requires Segmented(f, s, img) && p in img && q in img
    ensures RootOf(s, p) == RootOf(s, q) <==> Joined(img, img.Keys, p, q)
    ensures (exists r: nat :: Belongs(s, p, r) && Belongs(s, q, r)) <==> Joined(img, img.Keys, p, q)
  {
    hide Stored, Accounted, WellLinked, IsFrame, Inhabited, TouchingAgree, RegionsJoined, EdgesReal, TouchingLinked,
         Bordered, Boxes, Coloured, Joined;
    Membership(f, s, img);
    StoredFacts(s.refs, s.root, s.rank, s.g, s.owner, s.head, s.free, s.given, s.reg);
    RootsAndRegions(s.refs, s.root, s.rank, s.g, s.owner, s.head, s.free, s.given, s.reg, p, q);
    RegionsAreComponents(img, s.reg, p, q);
    if s.reg[p] == s.reg[q] {
      assert Belongs(s, p, s.reg[p]) && Belongs(s, q, s.reg[p]);
    }
  }

  /** Listed neighbours touch and differ in colour; touching regions of different colour
      are listed, unless one is saturated and the other fragmented. */
  lemma GraphIsFaithful(f: Frame, s: ScanState, img: Image, a: nat, b: nat)
    requires Segmented(f, s, img) && Live(s.g, a) && Live(s.g, b)
    ensures Lists(s.g, a, b) ==> RegionsTouch(s, a, b) && s.g[a].colour != s.g[b].colour
    ensures RegionsTouch(s, a, b) && a != b ==> Linked(s.g, a, b)
    ensures Saturated !in s.g[a].flags && Saturated !in s.g[b].flags && a != b ==>
              (Lists(s.g, a, b) <==> RegionsTouch(s, a, b))
  {
    hide Segmented;
    if Lists(s.g, a, b) { ListedTouch(f, s, img, a, b); }
    if RegionsTouch(s, a, b) && a != b { TouchingKnown(f, s, img, a, b); }
  }

  lemma ListedTouch(f: Frame, s: ScanState, img: Image, a: nat, b: nat)
    requires Segmented(f, s, img) && Live(s.g, a) && Lists(s.g, a, b)
    ensures RegionsTouch(s, a, b) && b < |s.g| && s.g[a].colour != s.g[b].colour
  {
    hide Stored, Accounted, IsFrame, Inhabited, RegionsJoined, Bordered, Boxes, TouchingAgree, TouchingLinked, Coloured;
    Membership(f, s, img);
    var p, q :| TouchAt(s.reg, p, q, a, b);
    assert Touch(p, q) && Belongs(s, p, a) && Belongs(s, q, b);
  }

  lemma TouchingKnown(f: Frame, s: ScanState, img: Image, a: nat, b: nat)
    requires Segmented(f, s, img) && Live(s.g, a) && Live(s.g, b) && RegionsTouch(s, a, b) && a != b
    ensures Linked(s.g, a, b)
  {
    hide Stored, Accounted, IsFrame, Inhabited, RegionsJoined, Bordered, Boxes, EdgesReal, WellLinked, Linked, Coloured;
    Membership(f, s, img);
    var p, q :| Touch(p, q) && Belongs(s, p, a) && Belongs(s, q, b);
    assert s.reg[p] == a && s.reg[q] == b;
    assert img[p] != img[q];
    assert Linked(s.g, s.reg[p], s.reg[q]);
  }

  /** The adjacency lists are well formed: links are symmetric with equal multiplicity,
      bounded by the capacity, and empty for saturated regions. */
  lemma ListsAreWellFormed(f: Frame, s: ScanState, img: Image, a: nat, b: nat)
    requires Segmented(f, s, img) && a < |s.g| && b < |s.g|
    ensures Mult(s.g, a, b) == Mult(s.g, b, a) && Mult(s.g, a, a) == 0
    ensures |s.g[a].adjacent| <= f.capacity
    ensures Saturated in s.g[a].flags || Free in s.g[a].flags ==> s.g[a].adjacent == []
  {
    hide Stored, Accounted, IsFrame, Faithful, Boxes;
    assert !Lists(s.g, a, a);
    ListsMult(s.g, a, a);
  }

  // ----- overflowing lists

  /** The sides at which the pixels of r touch pixels of other regions. */
  ghost function Outline(s: ScanState, img: Image, r: nat): set<Side> {
    set p, q | p in img && q in img && Touch(p, q) && Belongs(s, p, r) && !Belongs(s, q, r) :: Side(p, q)
  }

  lemma OutlineIsContour(f: Frame, s: ScanState, img: Image, r: nat)
    requires Segmented(f, s, img)
    ensures Outline(s, img, r) == Contour(s.reg, r)
  {
    hide Segmented, Belongs;
    Membership(f, s, img);
    forall p, q | p in img && q in img ensures Belongs(s, p, r) && !Belongs(s, q, r) <==> s.reg[p] == r != s.reg[q] {}
  }

  lemma FlagsAccountedFor(f: Frame, s: ScanState, img: Image)
    requires Segmented(f, s, img)
    ensures Accounted(s.reg, s.g, f.capacity, {})
  {
    hide Stored, Accounted, WellLinked, Faithful, IsFrame, Boxes;
  }

  /** A region is fragmented only if it touches a region of the other colour that overflowed. */
  lemma FragmentedTouchesSaturated(f: Frame, s: ScanState, img: Image, r: nat)
    requires Segmented(f, s, img) && Live(s.g, r) && Fragmented in s.g[r].flags
    ensures exists t: nat :: Live(s.g, t) && Saturated in s.g[t].flags && s.g[t].colour != s.g[r].colour
                             && RegionsTouch(s, r, t)
  {
    hide Segmented, Contour;
    FlagsAccountedFor(f, s, img);
    Membership(f, s, img);
    var p, q, t :| LostAt(s.reg, s.g, p, q, r, t);
    assert Touch(p, q) && Belongs(s, p, r) && Belongs(s, q, t);
  }

  /** The list of a region is no longer than its outline, and only a region whose outline exceeds
      the capacity overflows. */
  lemma SaturatedHasLongOutline(f: Frame, s: ScanState, img: Image, r: nat)
    requires Segmented(f, s, img) && Live(s.g, r)
    ensures |s.g[r].adjacent| <= |Outline(s, img, r)|
    ensures Saturated in s.g[r].flags ==> |Outline(s, img, r)| > f.capacity
  {
    hide Segmented, Contour, Outline, LossesExplained;
    FlagsAccountedFor(f, s, img);
    OutlineIsContour(f, s, img, r);
    assert Contour(s.reg, r) - {} == Contour(s.reg, r);
  }

  /** An outline has at most two sides for every pixel of the image. */
  lemma OutlineBound(f: Frame, s: ScanState, img: Image, r: nat)
    requires Segmented(f, s, img)
    ensures |Outline(s, img, r)| <= 2 * (f.height * f.width)
  {
    hide Segmented, Contour, Outline;
    OutlineIsContour(f, s, img, r);
    ContourBound(s.reg, r);
    Membership(f, s, img);
    HasFrame(f, s, img);
    assert |s.reg| == |s.reg.Keys| && |img| == |img.Keys|;
  }

  /** No outline exceeds the capacity of the lists. */
  ghost predicate Roomy(f: Frame, s: ScanState, img: Image) {
    forall r: nat | Live(s.g, r) :: |Outline(s, img, r)| <= f.capacity
  }

  /** Lists that hold two links for every pixel of the image are always long enough. */
  lemma RoomyIfLarge(f: Frame, s: ScanState, img: Image)
    requires Segmented(f, s, img) && f.capacity >= 2 * (f.height * f.width)
    ensures Roomy(f, s, img)
  {
    hide Segmented, Outline;
    forall r: nat | Live(s.g, r) ensures |Outline(s, img, r)| <= f.capacity { OutlineBound(f, s, img, r); }
  }

  /** If no outline exceeds the capacity then nothing overflows: no region is saturated or
      fragmented, and two regions are listed exactly when they touch. */
  lemma NothingOverflows(f: Frame, s: ScanState, img: Image, a: nat)
    requires Segmented(f, s, img) && Roomy(f, s, img) && Live(s.g, a)
    ensures Saturated !in s.g[a].flags && Fragmented !in s.g[a].flags
    ensures forall b: nat | Live(s.g, b) && b != a :: Lists(s.g, a, b) <==> RegionsTouch(s, a, b)
  {
    hide Segmented, Outline;
    forall b: nat | Live(s.g, b) ensures Saturated !in s.g[b].flags { SaturatedHasLongOutline(f, s, img, b); }
    if Fragmented in s.g[a].flags { FragmentedTouchesSaturated(f, s, img, a); }
    forall b: nat | Live(s.g, b) && b != a ensures Lists(s.g, a, b) <==> RegionsTouch(s, a, b) {
      GraphIsFaithful(f, s, img, a, b);
    }
  }

  /** Two regions whose outlines fit the capacity are listed exactly when they touch, whatever
      the other regions do. */
  lemma ListedIffTouching(f: Frame, s: ScanState, img: Image, a: nat, b: nat)
    requires Segmented(f, s, img) && Live(s.g, a) && Live(s.g, b) && a != b
    requires |Outline(s, img, a)| <= f.capacity && |Outline(s, img, b)| <= f.capacity
    ensures Lists(s.g, a, b) <==> RegionsTouch(s, a, b)
  {
    hide Segmented, Outline;
    SaturatedHasLongOutline(f, s, img, a);
    SaturatedHasLongOutline(f, s, img, b);
    GraphIsFaithful(f, s, img, a, b);
  }

  /** A region must overflow if it touches more regions than the capacity and none of these does. */
  lemma OverflowIsForced(f: Frame, s: ScanState, img: Image, r: nat, others: set<nat>)
    requires Segmented(f, s, img) && Live(s.g, r) && |others| > f.capacity
    requires forall t | t in others :: Live(s.g, t) && t != r && RegionsTouch(s, r, t) && Saturated !in s.g[t].flags
    ensures Saturated in s.g[r].flags
  {
    hide Segmented;
    if Saturated !in s.g[r].flags {
      forall t | t in others ensures t in s.g[r].adjacent { GraphIsFaithful(f, s, img, r, t); }
      ListsAreWellFormed(f, s, img, r, r);
      ElementsBound(others, s.g[r].adjacent);
      assert false;
    }
  }

  lemma {:induction false} ElementsBound(others: set<nat>, list: seq<nat>)
    requires forall t | t in others :: t in list
    ensures |others| <= |list|
  {
    if list == [] {
      assert others == {};
    } else {
      assert list == [list[0]] + list[1..];
      ElementsBound(others - {list[0]}, list[1..]);
    }
  }

  /** Exactly the regions that own a border pixel are marked as adjacent to the root. */
  lemma BorderRegionsMarked(f: Frame, s: ScanState, img: Image, r: nat)
    requires Segmented(f, s, img) && Live(s.g, r)
    ensures AdjacentToRoot in s.g[r].flags <==> exists p | OnBorder(f, p) :: Belongs(s, p, r)
  {
    hide Stored, Accounted, WellLinked, Inhabited, TouchingAgree, RegionsJoined, EdgesReal, TouchingLinked, Boxes;
    Membership(f, s, img);
    assert forall p | p in img :: p in s.border <==> OnBorder(f, p);
    assert AdjacentToRoot in s.g[r].flags <==> exists p | p in s.border :: p in s.reg && s.reg[p] == r;
    if p :| p in s.border && p in s.reg && s.reg[p] == r {
      assert OnBorder(f, p) && Belongs(s, p, r);
    }
    if p :| OnBorder(f, p) && Belongs(s, p, r) {
      assert p in s.border && p in s.reg && s.reg[p] == r;
    }
  }

  /** The box of r contains its pixels and is attained on all four sides. */
  ghost predicate IsBoundingBox(s: ScanState, r: nat)
    requires r < |s.g|
  {
    && (forall p | Belongs(s, p, r) ::
          s.g[r].left <= p.x <= s.g[r].right && s.g[r].top <= p.y <= s.g[r].bottom)
    && (exists p :: Belongs(s, p, r) && p.x == s.g[r].left)
    && (exists p :: Belongs(s, p, r) && p.x == s.g[r].right)
    && (exists p :: Belongs(s, p, r) && p.y == s.g[r].top)
    && (exists p :: Belongs(s, p, r) && p.y == s.g[r].bottom)
  }

  /** The box of a region away from the border is the bounding box of its pixels if and only if
      their coordinates fit into 16 bits. */
  lemma BoxesAreExact(f: Frame, s: ScanState, img: Image, r: nat)
    requires Segmented(f, s, img) && Live(s.g, r) && AdjacentToRoot !in s.g[r].flags
    ensures IsBoundingBox(s, r) <==> forall p | Belongs(s, p, r) :: p.x <= MAX_SHORT && p.y <= MAX_SHORT
  {
    Membership(f, s, img);
    BoxOf(f, s, img, r);
    hide Segmented;
    assert forall p | p in s.reg && s.reg[p] == r :: Belongs(s, p, r);
    assert Small(s.reg, r) <==> forall p | Belongs(s, p, r) :: p.x <= MAX_SHORT && p.y <= MAX_SHORT;
    if Small(s.reg, r) { ExactBox(f, s, r); }
  }

  lemma BoxOf(f: Frame, s: ScanState, img: Image, r: nat)
    requires Segmented(f, s, img) && Live(s.g, r) && AdjacentToRoot !in s.g[r].flags
    ensures BoxKept(s.reg, s.g, r, -1, f.height - 1)
  {
    hide Stored, Accounted, WellLinked, IsFrame, Inhabited, TouchingAgree, RegionsJoined, EdgesReal, TouchingLinked,
         Bordered, BoxKept;
    assert Boxed(s.reg, s.g, -1, f.height - 1);
  }

  lemma ExactBox(f: Frame, s: ScanState, r: nat)
    requires Live(s.g, r) && BoxExact(s.reg, s.g, r, -1, f.height - 1)
    requires forall p :: Belongs(s, p, r) <==> p in s.reg && s.reg[p] == r
    ensures IsBoundingBox(s, r)
  {
    var p0 :| p0 in s.reg && s.reg[p0] == r && p0.x == s.g[r].left;
    var p1 :| p1 in s.reg && s.reg[p1] == r && p1.x == s.g[r].right;
    var p2 :| p2 in s.reg && s.reg[p2] == r && p2.y == s.g[r].top;
    var p3 :| p3 in s.reg && s.reg[p3] == r && p3.y == s.g[r].bottom;
    assert Belongs(s, p0, r) && Belongs(s, p1, r) && Belongs(s, p2, r) && Belongs(s, p3, r);
  }

  /** Nothing in the pools is lost or used twice: live regions and roots correspond one to
      one, every other region is freed, every live region owns a pixel, and neither pool
      outgrows the number of pixels. */
  lemma PoolsAreConserved(f: Frame, s: ScanState, img: Image)
    requires Segmented(f, s, img)
    ensures |s.g| == |LiveRegions(s.g)| + |s.free| && |LiveRegions(s.g)| == |Roots(s.refs)|
    ensures forall r | r in s.free :: !Live(s.g, r)
    ensures forall r: nat | Live(s.g, r) :: exists p :: Belongs(s, p, r)
    ensures |s.g| <= |s.refs| <= f.height * f.width
  {
    hide Accounted, WellLinked, IsFrame, TouchingAgree, RegionsJoined, EdgesReal, TouchingLinked, Bordered, Boxes,
         FreeChain, Owned, Forest, Led;
    StorageConserved(s.refs, s.g, s.owner, s.head, s.free);
    Membership(f, s, img);
    FreeNotLive(s.g, s.head, s.free);
    forall r: nat | Live(s.g, r) ensures exists p :: Belongs(s, p, r) {
      var p :| p in s.reg && s.reg[p] == r;
      assert Belongs(s, p, r);
    }
  }

  lemma FreeNotLive(g: seq<Region>, head: Option<nat>, free: seq<nat>)
    requires FreeChain(g, head, free)
    ensures forall r | r in free :: !Live(g, r)
  {
    forall r | r in free ensures !Live(g, r) {
      var i :| 0 <= i < |free| && free[i] == r;
      assert Free in g[free[i]].flags;
    }
  }
}
