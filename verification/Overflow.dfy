/** When adjacency lists overflow: what the flags for saturated and fragmented regions
    say about the image. */
module Overflow {
  import opened Sequences
  import opened Regions
  import opened RegionGraph
  import opened Pixels
  import opened Components

  /** Two touching pixels, seen from the first one. */
  datatype Side = Side(inner: Pixel, outer: Pixel)

  /** The sides at which region r meets other regions. */
  ghost function Contour(reg: Labelling, r: nat): set<Side> {
    set p, q | p in reg && q in reg && Touch(p, q) && reg[p] == r && reg[q] != r :: Side(p, q)
  }

  /** Both views of the side between two pixels. */
  function Sides(p: Pixel, q: Pixel): set<Side> { {Side(p, q), Side(q, p)} }

  /** Every link of a region was made at a side of its own; pending sides have made none yet. */
  ghost predicate LinksCounted(reg: Labelling, g: seq<Region>, pending: set<Side>) {
    forall r: nat | Live(g, r) :: |g[r].adjacent| <= |Contour(reg, r) - pending|
  }

  /** Only a region with more sides than the capacity overflows. */
  ghost predicate OverflowsLate(reg: Labelling, g: seq<Region>, capacity: nat) {
    forall r: nat | Live(g, r) && Saturated in g[r].flags :: |Contour(reg, r)| > capacity
  }

  /** At p, which touches q, region r lost a link because region s of another colour overflowed. */
  ghost predicate LostAt(reg: Labelling, g: seq<Region>, p: Pixel, q: Pixel, r: nat, s: nat) {
    TouchAt(reg, p, q, r, s) && Live(g, r) && Live(g, s) && g[r].colour != g[s].colour && Saturated in g[s].flags
  }

  ghost predicate LossesExplained(reg: Labelling, g: seq<Region>) {
    forall r: nat | Live(g, r) && Fragmented in g[r].flags :: exists p, q, s :: LostAt(reg, g, p, q, r, s)
  }

  ghost predicate Accounted(reg: Labelling, g: seq<Region>, capacity: nat, pending: set<Side>) {
    LinksCounted(reg, g, pending) && OverflowsLate(reg, g, capacity) && LossesExplained(reg, g)
  }

  lemma FewerPending(reg: Labelling, g: seq<Region>, capacity: nat, pending: set<Side>, fewer: set<Side>)
    requires Accounted(reg, g, capacity, pending) && fewer <= pending
    ensures Accounted(reg, g, capacity, fewer)
  {
    forall r: nat | Live(g, r) ensures |g[r].adjacent| <= |Contour(reg, r) - fewer| {
      SmallerSet(Contour(reg, r) - pending, Contour(reg, r) - fewer);
    }
  }

  // ----- steps that leave the labelling alone

  ghost predicate SameFlags(g: seq<Region>, g': seq<Region>) {
    && |g'| == |g|
    && forall r | 0 <= r < |g| ::
         && g'[r].colour == g[r].colour
         && (Free in g'[r].flags <==> Free in g[r].flags)
         && (Saturated in g'[r].flags <==> Saturated in g[r].flags)
         && (Fragmented in g'[r].flags <==> Fragmented in g[r].flags)
  }

  lemma FlagsAccounted(reg: Labelling, g: seq<Region>, g': seq<Region>, capacity: nat)
    requires OverflowsLate(reg, g, capacity) && LossesExplained(reg, g) && SameFlags(g, g')
    ensures OverflowsLate(reg, g', capacity) && LossesExplained(reg, g')
  {
    hide Contour, TouchAt;
    forall r: nat | Live(g', r) && Fragmented in g'[r].flags ensures exists p, q, s :: LostAt(reg, g', p, q, r, s) {
      assert Live(g, r);
      var p, q, s :| LostAt(reg, g, p, q, r, s);
      assert LostAt(reg, g', p, q, r, s);
    }
    forall r: nat | Live(g', r) && Saturated in g'[r].flags ensures |Contour(reg, r)| > capacity {
      assert Live(g, r);
    }
  }

  lemma KeptAccounted(reg: Labelling, g: seq<Region>, g': seq<Region>, capacity: nat, pending: set<Side>)
    requires Accounted(reg, g, capacity, pending) && SameFlags(g, g')
    requires forall r | 0 <= r < |g| :: |g'[r].adjacent| <= |g[r].adjacent|
    ensures Accounted(reg, g', capacity, pending)
  {
    FlagsAccounted(reg, g, g', capacity);
    hide Contour, LostAt;
    forall r: nat | Live(g', r) ensures |g'[r].adjacent| <= |Contour(reg, r) - pending| {
      assert Live(g, r);
    }
  }

  /** A region loses a link to an overflowed one that it touches. */
  lemma LossAccounted(reg: Labelling, g: seq<Region>, capacity: nat, pending: set<Side>, p: Pixel, q: Pixel, r: nat,
                      s: nat)
    requires Accounted(reg, g, capacity, pending) && LostAt(reg, g, p, q, r, s)
    ensures Accounted(reg, AddFlag(g, r, Fragmented), capacity, pending)
  {
    hide Contour, TouchAt;
    var g' := AddFlag(g, r, Fragmented);
    forall a: nat | Live(g', a) && Fragmented in g'[a].flags ensures exists u, v, b :: LostAt(reg, g', u, v, a, b) {
      assert Live(g, a);
      if a == r {
        assert LostAt(reg, g', p, q, a, s);
      } else {
        var u, v, b :| LostAt(reg, g, u, v, a, b);
        assert LostAt(reg, g', u, v, a, b);
      }
    }
    forall a: nat | Live(g', a)
      ensures |g'[a].adjacent| <= |Contour(reg, a) - pending|
      ensures Saturated in g'[a].flags ==> |Contour(reg, a)| > capacity
    {
      assert Live(g, a);
    }
  }

  /** A region with too many sides overflows. */
  lemma SaturationAccounted(reg: Labelling, g: seq<Region>, g': seq<Region>, capacity: nat, pending: set<Side>, r: nat)
    requires Accounted(reg, g, capacity, pending) && WellLinked(g, capacity) && EdgesReal(reg, g)
    requires Live(g, r) && |Contour(reg, r)| > capacity && IsSaturation(g, g', r)
    ensures Accounted(reg, g', capacity, pending)
  {
    hide Contour, TouchAt;
    forall a: nat | Live(g', a) && Fragmented in g'[a].flags ensures exists p, q, s :: LostAt(reg, g', p, q, a, s) {
      assert Live(g, a);
      if Lists(g, a, r) {
        var p, q :| TouchAt(reg, p, q, a, r);
        assert LostAt(reg, g', p, q, a, r);
      } else {
        var p, q, s :| LostAt(reg, g, p, q, a, s);
        assert LostAt(reg, g', p, q, a, s);
      }
    }
    forall a: nat | Live(g', a)
      ensures |g'[a].adjacent| <= |Contour(reg, a) - pending|
      ensures Saturated in g'[a].flags ==> |Contour(reg, a)| > capacity
    {
      assert Live(g, a);
      SubMultisetLength(g'[a].adjacent, g[a].adjacent);
    }
  }

  lemma OneMoreSide(reg: Labelling, r: nat, pending: set<Side>, p: Pixel, q: Pixel)
    requires p in reg && q in reg && Touch(p, q) && reg[p] == r && reg[q] != r && Side(p, q) in pending
    ensures |Contour(reg, r) - (pending - Sides(p, q))| == |Contour(reg, r) - pending| + 1 <= |Contour(reg, r)|
  {
    var side := Side(p, q);
    assert side in Contour(reg, r) && Side(q, p) !in Contour(reg, r);
    assert Contour(reg, r) - (pending - Sides(p, q)) == (Contour(reg, r) - pending) + {side};
    SmallerSet((Contour(reg, r) - pending) + {side}, Contour(reg, r));
  }

  /** make_adjacent at the side between p and q. */
  lemma MadeAdjacentAccounted(reg: Labelling, g: seq<Region>, g': seq<Region>, capacity: nat, pending: set<Side>,
                              p: Pixel, q: Pixel)
    requires Accounted(reg, g, capacity, pending) && WellLinked(g, capacity) && EdgesReal(reg, g)
    requires p in reg && q in reg && Touch(p, q) && Touch(q, p) && Sides(p, q) <= pending
    requires Live(g, reg[p]) && Live(g, reg[q]) && g[reg[p]].colour != g[reg[q]].colour
    requires IsMadeAdjacent(g, g', capacity, reg[p], reg[q])
    ensures Accounted(reg, g', capacity, pending - Sides(p, q))
  {
    var a, b, rest := reg[p], reg[q], pending - Sides(p, q);
    OneMoreSide(reg, a, pending, p, q);
    OneMoreSide(reg, b, pending, q, p);
    assert Sides(p, q) == Sides(q, p);
    assert |g[a].adjacent| < |Contour(reg, a)| && |g[b].adjacent| < |Contour(reg, b)|;
    hide Contour, EdgesReal, WellLinked;
    if Lists(g, a, b) {
      FewerPending(reg, g, capacity, pending, rest);
    } else if Saturated in g[a].flags {
      LossAccounted(reg, g, capacity, pending, q, p, b, a);
      FewerPending(reg, g', capacity, pending, rest);
    } else if Saturated in g[b].flags {
      LossAccounted(reg, g, capacity, pending, p, q, a, b);
      FewerPending(reg, g', capacity, pending, rest);
    } else if |g[a].adjacent| == capacity && |g[b].adjacent| == capacity {
      var m, m' :| && IsSaturation(g, m, a)
                   && IsSaturation(AddFlag(m, b, Fragmented), m', b)
                   && g' == AddFlag(m', a, Fragmented);
      PairAccounted(reg, g, m, capacity, pending, p, q);
      PairAccounted(reg, AddFlag(m, b, Fragmented), m', capacity, pending, q, p);
      FewerPending(reg, g', capacity, pending, rest);
    } else if |g[a].adjacent| == capacity {
      var m :| IsSaturation(g, m, a) && g' == AddFlag(m, b, Fragmented);
      PairAccounted(reg, g, m, capacity, pending, p, q);
      FewerPending(reg, g', capacity, pending, rest);
    } else if |g[b].adjacent| == capacity {
      var m :| IsSaturation(g, m, b) && g' == AddFlag(m, a, Fragmented);
      PairAccounted(reg, g, m, capacity, pending, q, p);
      FewerPending(reg, g', capacity, pending, rest);
    } else {
      LinkAccounted(reg, g, g', capacity, pending, p, q);
    }
  }

  /** The region of p overflows at the side to q. */
  lemma PairAccounted(reg: Labelling, g: seq<Region>, m: seq<Region>, capacity: nat, pending: set<Side>, p: Pixel,
                      q: Pixel)
    requires Accounted(reg, g, capacity, pending) && WellLinked(g, capacity) && EdgesReal(reg, g)
    requires p in reg && q in reg && Touch(q, p)
    requires Live(g, reg[p]) && Live(g, reg[q]) && g[reg[p]].colour != g[reg[q]].colour
    requires |Contour(reg, reg[p])| > capacity && IsSaturation(g, m, reg[p])
    ensures var g' := AddFlag(m, reg[q], Fragmented);
            && Accounted(reg, g', capacity, pending) && WellLinked(g', capacity) && EdgesReal(reg, g')
            && Live(g', reg[p]) && Live(g', reg[q]) && g'[reg[p]].colour != g'[reg[q]].colour
  {
    SaturatedPairKeeps(g, m, capacity, reg[p], reg[q]);
    SaturationAccounted(reg, g, m, capacity, pending, reg[p]);
    hide Contour, Accounted, WellLinked;
    assert LostAt(reg, m, q, p, reg[q], reg[p]);
    LossAccounted(reg, m, capacity, pending, q, p, reg[q], reg[p]);
  }

  /** The two regions list each other from now on. */
  ghost predicate IsLinked(g: seq<Region>, g': seq<Region>, a: nat, b: nat) {
    && a != b && a < |g| && b < |g|
    && g' == g[a := g[a].(adjacent := g[a].adjacent + [b])][b := g[b].(adjacent := g[b].adjacent + [a])]
  }

  lemma LinkKeepsFlags(g: seq<Region>, g': seq<Region>, a: nat, b: nat)
    requires IsLinked(g, g', a, b)
    ensures SameFlags(g, g')
    ensures forall r | 0 <= r < |g| :: |g'[r].adjacent| == |g[r].adjacent| + if r == a || r == b then 1 else 0
  {
  }

  /** A new link uses up its side. */
  lemma LinkAccounted(reg: Labelling, g: seq<Region>, g': seq<Region>, capacity: nat, pending: set<Side>, p: Pixel,
                      q: Pixel)
    requires Accounted(reg, g, capacity, pending)
    requires p in reg && q in reg && Touch(p, q) && Touch(q, p) && Sides(p, q) <= pending
    requires IsLinked(g, g', reg[p], reg[q])
    ensures Accounted(reg, g', capacity, pending - Sides(p, q))
  {
    var rest := pending - Sides(p, q);
    OneMoreSide(reg, reg[p], pending, p, q);
    OneMoreSide(reg, reg[q], pending, q, p);
    assert Sides(p, q) == Sides(q, p);
    FewerPending(reg, g, capacity, pending, rest);
    LinkKeepsFlags(g, g', reg[p], reg[q]);
    FlagsAccounted(reg, g, g', capacity);
    hide Contour, LostAt;
    forall r: nat | Live(g', r) ensures |g'[r].adjacent| <= |Contour(reg, r) - rest| {
      assert Live(g, r);
    }
  }

  // ----- steps of the scan

  /** More pixels: contours only grow, and touching pixels still touch. */
  lemma GrownAccounted(reg: Labelling, reg': Labelling, g: seq<Region>, capacity: nat)
    requires Accounted(reg, g, capacity, {}) && forall p | p in reg :: p in reg' && reg'[p] == reg[p]
    ensures Accounted(reg', g, capacity, {})
  {
    forall r: nat | Live(g, r)
      ensures |g[r].adjacent| <= |Contour(reg', r) - {}| && |Contour(reg, r)| <= |Contour(reg', r)|
    {
      SmallerSet(Contour(reg, r) - {}, Contour(reg', r) - {});
      SmallerSet(Contour(reg, r), Contour(reg', r));
    }
    LossesKept(reg, reg', g, g);
  }

  lemma LossesKept(reg: Labelling, reg': Labelling, g: seq<Region>, g': seq<Region>)
    requires LossesExplained(reg, g) && forall p | p in reg :: p in reg' && reg'[p] == reg[p]
    requires forall r: nat | Live(g, r) :: Live(g', r) && g'[r] == g[r]
    requires forall r: nat | Live(g', r) && Fragmented in g'[r].flags :: Live(g, r)
    ensures LossesExplained(reg', g')
  {
    forall r: nat | Live(g', r) && Fragmented in g'[r].flags ensures exists p, q, s :: LostAt(reg', g', p, q, r, s) {
      var p, q, s :| LostAt(reg, g, p, q, r, s);
      assert LostAt(reg', g', p, q, r, s);
    }
  }

  /** The pixel c opens a region: its sides are new and no link has been made there. */
  lemma OpenAccounted(reg: Labelling, g: seq<Region>, g': seq<Region>, capacity: nat, r: nat, c: Pixel, colour: nat,
                      edge: bool, pending: set<Side>)
    requires Accounted(reg, g, capacity, {}) && c !in reg && OpensRegion(g, g', r, c, colour, edge)
    requires forall side | side in pending :: side.inner == c || side.outer == c
    ensures Accounted(reg[c := r], g', capacity, pending)
  {
    var reg' := reg[c := r];
    forall s: nat | Live(g', s)
      ensures |g'[s].adjacent| <= |Contour(reg', s) - pending|
      ensures Saturated in g'[s].flags ==> |Contour(reg', s)| > capacity
    {
      if s != r {
        assert Live(g, s) && g'[s] == g[s];
        OpenContour(reg, r, c, s, pending);
      }
    }
    hide Contour;
    LossesKept(reg, reg', g, g');
  }

  lemma OpenContour(reg: Labelling, r: nat, c: Pixel, s: nat, pending: set<Side>)
    requires c !in reg && s != r && forall side | side in pending :: side.inner == c || side.outer == c
    ensures |Contour(reg, s) - {}| <= |Contour(reg[c := r], s) - pending|
    ensures |Contour(reg, s)| <= |Contour(reg[c := r], s)|
  {
    SmallerSet(Contour(reg, s) - {}, Contour(reg[c := r], s) - pending);
    SmallerSet(Contour(reg, s), Contour(reg[c := r], s));
  }

  /** Merging r2 into r1 at c joins their contours. */
  lemma MergeAccounted(img: Image, reg: Labelling, reg': Labelling, g: seq<Region>, m: seq<Region>, g': seq<Region>,
                       capacity: nat, c: Pixel, a: Pixel, b: Pixel)
    requires Accounted(reg, g, capacity, {}) && WellLinked(g, capacity)
    requires Coloured(img, reg, g) && TouchingAgree(img, reg) && EdgesReal(reg, g)
    requires CanMerge(img, reg, g, m, g', capacity, c, a, b)
    requires reg' == Relabelled(reg, reg[b], reg[a])[c := reg[b]]
    ensures Accounted(reg', g', capacity, {})
  {
    hide Contour, CanMerge, WellLinked, Coloured, TouchingAgree, EdgesReal, LostAt;
    forall r: nat | Live(g', r)
      ensures |g'[r].adjacent| <= |Contour(reg', r) - {}|
      ensures Saturated in g'[r].flags ==> |Contour(reg', r)| > capacity
      ensures Fragmented in g'[r].flags ==> exists p, q, s :: LostAt(reg', g', p, q, r, s)
    {
      hide Accounted, Live;
      MergedSizes(img, reg, reg', g, m, g', capacity, c, a, b, r);
      if Fragmented in g'[r].flags { MergedLoss(img, reg, reg', g, m, g', capacity, c, a, b, r); }
    }
  }

  lemma MergedSizes(img: Image, reg: Labelling, reg': Labelling, g: seq<Region>, m: seq<Region>, g': seq<Region>,
                    capacity: nat, c: Pixel, a: Pixel, b: Pixel, r: nat)
    requires Accounted(reg, g, capacity, {}) && Coloured(img, reg, g) && TouchingAgree(img, reg)
    requires CanMerge(img, reg, g, m, g', capacity, c, a, b)
    requires reg' == Relabelled(reg, reg[b], reg[a])[c := reg[b]] && Live(g', r)
    ensures |g'[r].adjacent| <= |Contour(reg', r) - {}|
    ensures Saturated in g'[r].flags ==> |Contour(reg', r)| > capacity
  {
    hide Contour, LinksCounted, OverflowsLate, LossesExplained;
    assert Contour(reg', r) - {} == Contour(reg', r);
    var r1, r2 := reg[b], reg[a];
    assert Live(g, r1) && Live(g, r2) && g[r1].colour == g[r2].colour;
    MergedColours(g, m, g', capacity, r1, r2);
    assert Live(g, r) && r != r2;
    hide IsMerger, IsFreed, Live;
    if r == r1 {
      MergedContour(img, reg, g, r1, r2, c);
      MergedCounted(reg, g, m, g', capacity, r1, r2);
    } else {
      OtherContour(reg, r, r1, r2, c);
      BystanderCounted(reg, g, m, g', capacity, r1, r2, r);
    }
  }

  lemma MergedContour(img: Image, reg: Labelling, g: seq<Region>, r1: nat, r2: nat, c: Pixel)
    requires Coloured(img, reg, g) && reg.Keys <= img.Keys && TouchingAgree(img, reg)
    requires Live(g, r1) && Live(g, r2) && g[r1].colour == g[r2].colour && r1 != r2 && c !in reg
    ensures |Contour(Relabelled(reg, r1, r2)[c := r1], r1)| >= |Contour(reg, r1)| + |Contour(reg, r2)|
  {
    var reg' := Relabelled(reg, r1, r2)[c := r1];
    var c1, c2 := Contour(reg, r1), Contour(reg, r2);
    assert c1 !! c2;
    forall side | side in c1 + c2 ensures side in Contour(reg', r1) {
      var p, q := side.inner, side.outer;
      assert p in reg && q in reg && Touch(p, q) && reg[p] != reg[q];
      assert img[p] != img[q];
      assert p in reg' && q in reg' && reg'[p] == r1 && reg'[q] != r1;
    }
    SmallerSet(c1 + c2, Contour(reg', r1));
  }

  lemma OtherContour(reg: Labelling, r: nat, r1: nat, r2: nat, c: Pixel)
    requires r != r1 && r != r2 && c !in reg
    ensures |Contour(Relabelled(reg, r1, r2)[c := r1], r)| >= |Contour(reg, r)|
  {
    SmallerSet(Contour(reg, r), Contour(Relabelled(reg, r1, r2)[c := r1], r));
  }

  lemma MergedCounted(reg: Labelling, g: seq<Region>, m: seq<Region>, g': seq<Region>, capacity: nat, r1: nat, r2: nat)
    requires LinksCounted(reg, g, {}) && OverflowsLate(reg, g, capacity)
    requires Live(g, r1) && Live(g, r2) && r1 != r2 && IsMerger(g, m, capacity, r1, r2) && IsFreed(m, g', r2)
    ensures |g'[r1].adjacent| <= |Contour(reg, r1)| + |Contour(reg, r2)|
    ensures Saturated in g'[r1].flags ==> |Contour(reg, r1)| + |Contour(reg, r2)| > capacity
  {
    assert Contour(reg, r1) - {} == Contour(reg, r1) && Contour(reg, r2) - {} == Contour(reg, r2);
    hide Contour;
    RetainedKeeps(g[r2].adjacent, g[r1].adjacent, 0);
    SubMultisetLength(Retained(g[r2].adjacent, g[r1].adjacent, 0), g[r2].adjacent);
    assert g'[r1] == MergedRegion(g, capacity, r1, r2);
  }

  lemma BystanderCounted(reg: Labelling, g: seq<Region>, m: seq<Region>, g': seq<Region>, capacity: nat, r1: nat,
                         r2: nat, r: nat)
    requires LinksCounted(reg, g, {}) && OverflowsLate(reg, g, capacity)
    requires r1 < |g| && r2 < |g| && IsMerger(g, m, capacity, r1, r2) && IsFreed(m, g', r2)
    requires Live(g, r) && r != r1 && r != r2
    ensures |g'[r].adjacent| <= |Contour(reg, r)|
    ensures Saturated in g'[r].flags ==> |Contour(reg, r)| > capacity
  {
    assert Contour(reg, r) - {} == Contour(reg, r);
    hide Contour;
    assert IsRelinked(g, m, capacity, r1, r2, r);
  }

  lemma MergedLoss(img: Image, reg: Labelling, reg': Labelling, g: seq<Region>, m: seq<Region>, g': seq<Region>,
                   capacity: nat, c: Pixel, a: Pixel, b: Pixel, r: nat)
    requires Accounted(reg, g, capacity, {}) && WellLinked(g, capacity) && Coloured(img, reg, g) && EdgesReal(reg, g)
    requires CanMerge(img, reg, g, m, g', capacity, c, a, b)
    requires reg' == Relabelled(reg, reg[b], reg[a])[c := reg[b]] && Live(g', r) && Fragmented in g'[r].flags
    ensures exists p, q, s :: LostAt(reg', g', p, q, r, s)
  {
    hide LinksCounted, OverflowsLate;
    var r1, r2 := reg[b], reg[a];
    assert Live(g, r1) && Live(g, r2) && g[r1].colour == g[r2].colour;
    MergedColours(g, m, g', capacity, r1, r2);
    assert Live(g, r) && r != r2;
    assert g'[r1] == MergedRegion(g, capacity, r1, r2);
    var r0 := if r == r1 && Fragmented !in g[r1].flags then r2 else r;
    if Fragmented in g[r0].flags {
      var p, q, s :| LostAt(reg, g, p, q, r0, s);
      LossRenamed(reg, reg', g, m, g', capacity, r1, r2, c, p, q, r0, s);
    } else {
      assert IsRelinked(g, m, capacity, r1, r2, r);
      var r3 := if Lists(g, r, r1) then r1 else r2;
      assert Lists(g, r, r3);
      var p, q :| TouchAt(reg, p, q, r, r3);
      assert LostAt(reg', g', p, q, r, r1);
    }
  }

  lemma LossRenamed(reg: Labelling, reg': Labelling, g: seq<Region>, m: seq<Region>, g': seq<Region>, capacity: nat,
                    r1: nat, r2: nat, c: Pixel, p: Pixel, q: Pixel, r: nat, s: nat)
    requires Live(g, r1) && Live(g, r2) && r1 != r2 && g[r1].colour == g[r2].colour
    requires IsMerger(g, m, capacity, r1, r2) && IsFreed(m, g', r2)
    requires LostAt(reg, g, p, q, r, s) && c !in reg && reg' == Relabelled(reg, r1, r2)[c := r1]
    ensures LostAt(reg', g', p, q, Renamed(r, r1, r2), Renamed(s, r1, r2))
  {
    MergedColours(g, m, g', capacity, r1, r2);
    if s != r1 && s != r2 { assert IsRelinked(g, m, capacity, r1, r2, s); }
  }

  // ----- how long a contour can be

  /** A pixel has at most two sides towards the pixels left of it and above it. */
  lemma ContourBound(reg: Labelling, r: nat)
    ensures |Contour(reg, r)| <= 2 * |reg|
  {
    var all := Contour(reg, r);
    var across := set side | side in all && side.inner.y == side.outer.y;
    var along := all - across;
    InjectedSet(across, reg.Keys, RightPixel);
    InjectedSet(along, reg.Keys, LowerPixel);
    assert all == across + along && across !! along;
    assert |reg| == |reg.Keys|;
  }

  function RightPixel(side: Side): Pixel { if side.inner.x < side.outer.x then side.outer else side.inner }
  function LowerPixel(side: Side): Pixel { if side.inner.y < side.outer.y then side.outer else side.inner }
}
