/** The segmenter of segment.c. */
module Segmentation {
  import opened Options
  import opened Regions
  import opened RegionGraph
  import opened Pixels
  import opened Components
  import opened Overflow
  import opened References
  import opened Storage
  import opened Scanning

  class Segmenter {
    const width: nat
    const height: nat
    const maxAdjacent: nat

    /** The reference and region pools; their lengths are region_ref_count and region_count. */
    var regionRefs: seq<RegionReference>
    var regions: seq<Region>
    var freedHead: Option<nat>

    /** Two rows of references: the row under construction and the one above it. */
    const rows: array<nat>

    /** The reference each scanned pixel was given, and the region it now leads to. */
    ghost var given: map<Pixel, nat>
    ghost var reg: Labelling
    ghost var border: set<Pixel>
    /** The redirect forest, the owners of the live regions and the freed regions. */
    ghost var root: seq<nat>
    ghost var rank: seq<nat>
    ghost var owner: map<nat, nat>
    ghost var free: seq<nat>

    constructor (width: nat, height: nat, maxAdjacent: nat)
      ensures this.width == width && this.height == height && this.maxAdjacent == maxAdjacent
      ensures rows.Length == 2 * width && fresh(rows)
      ensures regionRefs == [] && regions == [] && freedHead == None
      ensures given == map[] && reg == map[] && border == {}
      ensures root == [] && rank == [] && owner == map[] && free == []
    {
      this.width, this.height, this.maxAdjacent := width, height, maxAdjacent;
      regionRefs, regions, freedHead := [], [], None;
      given, reg, border := map[], map[], {};
      root, rank, owner, free := [], [], map[], [];
      rows := new nat[2 * width];
    }

    // ----- the adjacency graph

    /** Scanning the shorter of the two lists decides adjacency. */
    method IsAdjacent(r1: nat, r2: nat) returns (found: bool)
      requires r1 < |regions| && r2 < |regions| && Mult(regions, r1, r2) == Mult(regions, r2, r1)
      ensures found <==> Lists(regions, r1, r2)
      ensures found <==> Lists(regions, r2, r1)
    {
      var from, to := r1, r2;
      if |regions[r1].adjacent| > |regions[r2].adjacent| {
        from, to := r2, r1;
      }
      ListsMult(regions, r1, r2);
      ListsMult(regions, r2, r1);
      var i := 0;
      while i < |regions[from].adjacent|
        invariant i <= |regions[from].adjacent|
        invariant to !in regions[from].adjacent[..i]
      {
        if regions[from].adjacent[i] == to {
          return true;
        }
        i := i + 1;
      }
      found := false;
      assert regions[from].adjacent[..i] == regions[from].adjacent;
    }

    /** Removes one entry for r2 from the list of r1. */
    method RemoveAdjacentFrom(r1: nat, r2: nat)
      requires r1 < |regions| && r2 in regions[r1].adjacent
      modifies this`regions
      ensures |regions| == |old(regions)|
      ensures forall r | 0 <= r < |regions| && r != r1 :: regions[r] == old(regions)[r]
      ensures regions[r1] == old(regions)[r1].(adjacent := regions[r1].adjacent)
      ensures |regions[r1].adjacent| == |old(regions)[r1].adjacent| - 1
      ensures multiset(regions[r1].adjacent) == multiset(old(regions)[r1].adjacent) - multiset{r2}
    {
      var i := 0;
      while regions[r1].adjacent[i] != r2
        invariant i < |regions[r1].adjacent|
        invariant r2 in regions[r1].adjacent[i..]
        invariant regions == old(regions)
        decreases |regions[r1].adjacent| - i
      {
        i := i + 1;
      }
      var list := SwapRemove(regions[r1].adjacent, i);
      regions := regions[r1 := regions[r1].(adjacent := list)];
    }

    /** Replaces the first entry for r2 in the list of r1 by r3. */
    method ReplaceAdjacent(r1: nat, r2: nat, r3: nat)
      requires r1 < |regions| && r2 in regions[r1].adjacent
      modifies this`regions
      ensures |regions| == |old(regions)|
      ensures forall r | 0 <= r < |regions| && r != r1 :: regions[r] == old(regions)[r]
      ensures regions[r1] == old(regions)[r1].(adjacent := regions[r1].adjacent)
      ensures var list := old(regions)[r1].adjacent;
              exists i :: 0 <= i < |list| && list[i] == r2 && r2 !in list[..i] && regions[r1].adjacent == list[i := r3]
      ensures multiset(regions[r1].adjacent) == multiset(old(regions)[r1].adjacent) - multiset{r2} + multiset{r3}
    {
      var i := 0;
      while regions[r1].adjacent[i] != r2
        invariant i < |regions[r1].adjacent|
        invariant r2 !in regions[r1].adjacent[..i] && r2 in regions[r1].adjacent[i..]
        invariant regions == old(regions)
        decreases |regions[r1].adjacent| - i
      {
        i := i + 1;
      }
      regions := regions[r1 := regions[r1].(adjacent := regions[r1].adjacent[i := r3])];
    }

    /** Detaches r1 from all its neighbours and marks them as fragmented. */
    method MakeSaturated(r1: nat)
      requires r1 < |regions| && WellLinked(regions, maxAdjacent)
      modifies this`regions
      ensures IsSaturation(old(regions), regions, r1)
    {
      ghost var g := regions;
      var links := regions[r1].adjacent;
      DetachStart(g, maxAdjacent, r1);
      assert links[..0] == [] && links[0..] == links;
      var i := 0;
      while i < |links|
        invariant i <= |links| && |regions| == |g| && regions[r1] == g[r1]
        invariant forall a | 0 <= a < |g| && a != r1 :: PartlyDetached(g, regions, r1, links[..i], links[i..], a)
      {
        ghost var m := regions;
        var a := links[i];
        assert Lists(g, r1, a) && PartlyDetached(g, m, r1, links[..i], links[i..], a);
        assert links[i..][0] == a && a in multiset(links[i..]);
        assert r1 in multiset(regions[a].adjacent);
        RemoveAdjacentFrom(a, r1);
        Flag(a, Fragmented);
        DetachStep(g, m, regions, r1, links[..i], links[i..]);
        assert links[..i + 1] == links[..i] + [a] && links[i + 1..] == links[i..][1..];
        i := i + 1;
      }
      ghost var m := regions;
      regions := regions[r1 := regions[r1].(adjacent := [], flags := regions[r1].flags + {Saturated})];
      assert links[..i] == links && links[i..] == [];
      DetachEnd(g, m, regions, maxAdjacent, r1);
    }

    method Flag(r: nat, flag: Flag)
      requires r < |regions|
      modifies this`regions
      ensures regions == AddFlag(old(regions), r, flag)
    {
      regions := regions[r := regions[r].(flags := regions[r].flags + {flag})];
    }

    /** Links two touching regions, unless one of them has overflowed. */
    method MakeAdjacent(r1: nat, r2: nat)
      requires WellLinked(regions, maxAdjacent) && Live(regions, r1) && Live(regions, r2)
      requires regions[r1].colour != regions[r2].colour
      modifies this`regions
      ensures IsMadeAdjacent(old(regions), regions, maxAdjacent, r1, r2)
    {
      ghost var g := regions;
      assert Mult(g, r1, r2) == Mult(g, r2, r1);
      var linked := IsAdjacent(r1, r2);
      if !linked {
        if Saturated in regions[r1].flags {
          Flag(r2, Fragmented);
        } else if Saturated in regions[r2].flags {
          Flag(r1, Fragmented);
        } else if |regions[r1].adjacent| == maxAdjacent {
          MakeSaturated(r1);
          ghost var m := regions;
          SaturationKeeps(g, m, maxAdjacent, r1);
          assert |m[r2].adjacent| == |g[r2].adjacent| by {
            assert multiset(m[r2].adjacent) == multiset(g[r2].adjacent);
            assert |multiset(m[r2].adjacent)| == |multiset(g[r2].adjacent)|;
          }
          Flag(r2, Fragmented);
          if |regions[r2].adjacent| == maxAdjacent {
            AddFlagKeeps(m, maxAdjacent, r2, Fragmented);
            MakeSaturated(r2);
            ghost var m' := regions;
            Flag(r1, Fragmented);
            assert IsSaturation(g, m, r1) && IsSaturation(AddFlag(m, r2, Fragmented), m', r2);
          }
        } else if |regions[r2].adjacent| == maxAdjacent {
          MakeSaturated(r2);
          ghost var m := regions;
          Flag(r1, Fragmented);
          assert IsSaturation(g, m, r2);
        } else {
          regions := regions[r1 := regions[r1].(adjacent := regions[r1].adjacent + [r2])];
          regions := regions[r2 := regions[r2].(adjacent := regions[r2].adjacent + [r1])];
        }
      }
    }

    /** Merges r2 into r1: drops the links of r2 that r1 has too, hands the others over
        unless the list of r1 overflows, and combines flags and boxes. */
    method MergeRegions(r1: nat, r2: nat)
      requires WellLinked(regions, maxAdjacent) && Live(regions, r1) && Live(regions, r2) && r1 != r2
      requires regions[r1].colour == regions[r2].colour
      modifies this`regions
      ensures IsMerger(old(regions), regions, maxAdjacent, r1, r2)
    {
      if Saturated in regions[r1].flags || Saturated in regions[r2].flags {
        SpreadSaturation(r1, r2);
      } else {
        SettleLinks(r1, r2);
      }
      ghost var m := regions;
      var first, second := regions[r1], regions[r2];
      first := first.(flags := first.flags + second.flags);
      if second.left < first.left {
        first := first.(left := second.left);
      }
      if second.top < first.top {
        first := first.(top := second.top);
      }
      if second.right > first.right {
        first := first.(right := second.right);
      }
      if second.bottom > first.bottom {
        first := first.(bottom := second.bottom);
      }
      assert first == Combined(m, r1, r2);
      regions := regions[r1 := first];
    }

    /** The branches of merge_regions for a saturated partner. */
    method SpreadSaturation(r1: nat, r2: nat)
      requires WellLinked(regions, maxAdjacent) && Live(regions, r1) && Live(regions, r2) && r1 != r2
      requires regions[r1].colour == regions[r2].colour
      requires Saturated in regions[r1].flags || Saturated in regions[r2].flags
      modifies this`regions
      ensures |regions| == |old(regions)|
      ensures IsMerger(old(regions), regions[r1 := Combined(regions, r1, r2)], maxAdjacent, r1, r2)
    {
      ghost var g := regions;
      assert !Lists(g, r1, r2) && !Lists(g, r2, r1);
      if Saturated in regions[r1].flags {
        MakeSaturated(r2);
        ghost var m := regions;
        SaturationKeeps(g, m, maxAdjacent, r2);
        if Saturated in regions[r2].flags {
          MakeSaturated(r1);
        }
        TwoSaturations(g, m, regions, r2, r1);
      } else {
        MakeSaturated(r1);
        SaturationKeeps(g, regions, maxAdjacent, r1);
        forall a | 0 <= a < |g| ensures !Lists(regions, a, r2) {
          LinkedSymmetric(g, maxAdjacent, a, r2);
        }
        AlreadySaturated(regions, r2);
        TwoSaturations(g, regions, regions, r1, r2);
      }
      UnsharedStart(g, maxAdjacent, r1, r2);
      MergerBySaturation(g, g, regions, maxAdjacent, r1, r2, g[r2].adjacent);
    }

    /** The branch of merge_regions in which no partner is saturated yet. */
    method SettleLinks(r1: nat, r2: nat)
      requires WellLinked(regions, maxAdjacent) && Live(regions, r1) && Live(regions, r2) && r1 != r2
      requires regions[r1].colour == regions[r2].colour
      requires Saturated !in regions[r1].flags && Saturated !in regions[r2].flags
      modifies this`regions
      ensures |regions| == |old(regions)|
      ensures IsMerger(old(regions), regions[r1 := Combined(regions, r1, r2)], maxAdjacent, r1, r2)
    {
      ghost var g := regions;
      DropCommonLinks(r1, r2);
      ghost var u := regions;
      ghost var kept := Retained(g[r2].adjacent, g[r1].adjacent, 0);
      RetainedKeeps(g[r2].adjacent, g[r1].adjacent, 0);
      UnsharedKeepsWellLinked(g, u, maxAdjacent, r1, r2, kept);
      assert !Lists(u, r1, r2) && !Lists(u, r2, r1);
      if |regions[r1].adjacent| + |regions[r2].adjacent| > maxAdjacent {
        MakeSaturated(r1);
        ghost var m := regions;
        SaturationKeeps(u, m, maxAdjacent, r1);
        MakeSaturated(r2);
        TwoSaturations(u, m, regions, r1, r2);
        MergerBySaturation(g, u, regions, maxAdjacent, r1, r2, kept);
      } else {
        TransferLinks(r1, r2);
        ghost var m := regions;
        regions := regions[r2 := regions[r2].(adjacent := [])];
        MergerByTransfer(g, u, m, maxAdjacent, r1, r2);
      }
    }

    /** The first loop of merge_regions, which skips every slot it has refilled. */
    method DropCommonLinks(r1: nat, r2: nat)
      requires WellLinked(regions, maxAdjacent) && Live(regions, r1) && Live(regions, r2) && r1 != r2
      requires regions[r1].colour == regions[r2].colour
      modifies this`regions
      ensures var g := old(regions);
              Unshared(g, regions, r1, r2, Retained(g[r2].adjacent, g[r1].adjacent, 0))
    {
      ghost var g := regions;
      UnsharedStart(g, maxAdjacent, r1, r2);
      var i := 0;
      while i < |regions[r2].adjacent|
        invariant |regions| == |g| && Unshared(g, regions, r1, r2, regions[r2].adjacent)
        invariant multiset(regions[r2].adjacent) <= multiset(g[r2].adjacent)
        invariant Retained(regions[r2].adjacent, g[r1].adjacent, i) == Retained(g[r2].adjacent, g[r1].adjacent, 0)
        decreases |regions[r2].adjacent| - i
      {
        DropCommonLink(r1, r2, i, g);
        i := i + 1;
      }
    }

    /** Drops the neighbour in slot i of r2 if it is one of r1 as well. */
    method DropCommonLink(r1: nat, r2: nat, i: nat, ghost g: seq<Region>)
      requires WellLinked(g, maxAdjacent) && Live(g, r1) && Live(g, r2) && r1 != r2 && g[r1].colour == g[r2].colour
      requires |regions| == |g| && Unshared(g, regions, r1, r2, regions[r2].adjacent)
      requires i < |regions[r2].adjacent| && multiset(regions[r2].adjacent) <= multiset(g[r2].adjacent)
      modifies this`regions
      ensures |regions| == |g| && Unshared(g, regions, r1, r2, regions[r2].adjacent)
      ensures regions[r2].adjacent == if old(regions)[r2].adjacent[i] in g[r1].adjacent
                                      then SwapRemove(old(regions)[r2].adjacent, i) else old(regions)[r2].adjacent
    {
      hide UnsharedAt;
      ghost var m := regions;
      var now := regions[r2].adjacent;
      var a := now[i];
      assert a in multiset(now) && a in multiset(g[r2].adjacent);
      assert Lists(g, r2, a);
      UnsharedKeepsWellLinked(g, m, maxAdjacent, r1, r2, now);
      assert Mult(m, a, r1) == Mult(m, r1, a) && Mult(m, a, r2) == Mult(m, r2, a);
      var common := IsAdjacent(a, r1);
      if common {
        ListsMult(m, a, r2);
        RemoveAdjacentFrom(a, r2);
        var list := SwapRemove(regions[r2].adjacent, i);
        regions := regions[r2 := regions[r2].(adjacent := list)];
        UnsharedStep(g, m, regions, r1, r2, now, i);
      }
    }

    /** The second loop of merge_regions. */
    method TransferLinks(r1: nat, r2: nat)
      requires WellLinked(regions, maxAdjacent) && Live(regions, r1) && Live(regions, r2) && r1 != r2
      requires regions[r1].colour == regions[r2].colour
      requires |regions[r1].adjacent| + |regions[r2].adjacent| <= maxAdjacent
      modifies this`regions
      ensures var u := old(regions); Transferred(u, regions, r1, r2, u[r1].adjacent + u[r2].adjacent, [])
    {
      ghost var u := regions;
      ghost var links := u[r1].adjacent;
      var moved := regions[r2].adjacent;
      TransferStart(u, maxAdjacent, r1, r2);
      assert links + moved[..0] == links && moved[0..] == moved;
      var i := 0;
      while i < |moved|
        invariant i <= |moved| && Transferred(u, regions, r1, r2, links + moved[..i], moved[i..])
        invariant |regions[r1].adjacent| <= maxAdjacent
      {
        ghost var m := regions;
        var a := moved[i];
        assert Lists(u, r2, a) && TransferredAt(u, m, r1, r2, links + moved[..i], moved[i..], a);
        assert moved[i..][0] == a && a in multiset(moved[i..]);
        assert r2 in multiset(regions[a].adjacent);
        ReplaceAdjacent(a, r2, r1);
        regions := regions[r1 := regions[r1].(adjacent := regions[r1].adjacent + [a])];
        TransferStep(u, m, regions, r1, r2, links + moved[..i], moved[i..]);
        assert links + moved[..i] + [a] == links + moved[..i + 1] && moved[i..][1..] == moved[i + 1..];
        i := i + 1;
      }
      assert moved[..i] == moved && moved[i..] == [];
    }

    // ----- the state of a scan

    ghost function State(): ScanState
      reads this
    {
      ScanState(regionRefs, root, rank, regions, owner, freedHead, free, given, reg, border)
    }

    ghost function Size(): Frame { Frame(width, height, maxAdjacent) }

    // ----- the pools

    /** Takes a region from the free list or from the end of the pool. */
    method TakeRegion(x: nat, y: nat, colour: nat) returns (r: nat)
      requires FreeChain(regions, freedHead, free)
      modifies this`regions, this`freedHead, this`free
      ensures FreeChain(regions, freedHead, free)
      ensures Vacant(old(regions), r) && r < |regions|
      ensures regions == PutRegion(old(regions), r, FreshRegion(x, y, colour, regions[r].next))
      ensures r == if old(freedHead).Some? then old(freedHead).value else |old(regions)|
    {
      ghost var g, head := regions, freedHead;
      if freedHead.Some? {
        r := freedHead.value;
        assert free[0] == r && Free in g[free[0]].flags;
        freedHead := regions[r].next;
        regions := regions[r := FreshRegion(x, y, colour, regions[r].next)];
        PopKeepsChain(g, regions, head, free, regions[r]);
        free := free[1..];
      } else {
        r := |regions|;
        regions := regions + [FreshRegion(x, y, colour, None)];
        AppendKeepsChain(g, head, free, regions[r]);
      }
    }

    /** Opens a region of one pixel and a reference to it. */
    method NewRegion(x: nat, y: nat, colour: nat) returns (k: nat)
      requires StoredIn(State()) && |regionRefs| < height * width && (colour == BLACK || colour == WHITE)
      modifies this`regions, this`regionRefs, this`freedHead, this`root, this`rank, this`owner, this`free
      ensures StoredIn(State()) && k == |old(regionRefs)| < |regionRefs| && regionRefs[k].region.Some?
      ensures var r := regionRefs[k].region.value;
              && regionRefs == old(regionRefs) + [RegionReference(Some(r), k)]
              && Vacant(old(regions), r) && r < |regions|
              && regions == PutRegion(old(regions), r, FreshRegion(x, y, colour, regions[r].next))
              && r == (if old(freedHead).Some? then old(freedHead).value else |old(regions)|)
      ensures root == old(root) + [k]
    {
      ghost var g := regions;
      var r := TakeRegion(x, y, colour);
      k := |regionRefs|;
      NewKeepsOwned(regionRefs, g, regions, owner, r, regions[r]);
      NewKeepsForest(regionRefs, root, rank, Some(r));
      NewKeepsLed(regionRefs, root, given, reg, r);
      regionRefs := regionRefs + [RegionReference(Some(r), k)];
      root, rank, owner := root + [k], rank + [0], owner[r := k];
    }

    /** RESOLVE_REGIONREF_REDIRECTS: follows the redirects of k and shortens its path. */
    method Resolve(k: nat) returns (t: nat)
      requires StoredIn(State()) && k < |regionRefs|
      modifies this`regionRefs
      ensures StoredIn(State()) && t == root[k] && IsRoot(regionRefs, t)
      ensures regionRefs == old(regionRefs)[k := old(regionRefs)[k].(redirect := t)]
    {
      ghost var refs := regionRefs;
      t := k;
      if regionRefs[k].redirect != k {
        while regionRefs[t].redirect != t
          invariant t < |refs| && root[t] == root[k] && regionRefs == refs
          decreases rank[t]
        {
          t := regionRefs[t].redirect;
        }
        regionRefs := regionRefs[k := regionRefs[k].(redirect := t)];
        ShorteningKeepsStored(refs, root, rank, regions, owner, freedHead, free, given, reg, k);
      }
      assert IsRoot(regionRefs, root[k]);
    }

    // ----- one pixel

    /** new_region, with the flag that is set right after it on the left and top edge. */
    method NewEdgeRegion(x: nat, y: nat, colour: nat) returns (k: nat)
      requires StoredIn(State()) && |regionRefs| < height * width && (colour == BLACK || colour == WHITE)
      modifies this`regions, this`regionRefs, this`freedHead, this`root, this`rank, this`owner, this`free
      ensures StoredIn(State()) && k == |old(regionRefs)| < |regionRefs| && regionRefs[k].region.Some?
      ensures root == old(root) + [k]
      ensures regionRefs == old(regionRefs) + [RegionReference(regionRefs[k].region, k)]
      ensures regionRefs[k].region.value < |regions|
      ensures OpensRegion(old(regions), regions, regionRefs[k].region.value, Pixel(x, y), colour, x == 0 || y == 0)
    {
      hide Stored, Accounted, OpensRegion;
      ghost var g0 := regions;
      k := NewRegion(x, y, colour);
      ghost var g := regions;
      var r := regionRefs[k].region.value;
      RegionOpened(g0, g, r, x, y, colour);
      if x == 0 || y == 0 {
        Flag(r, AdjacentToRoot);
        RegionFlagged(g0, g, r, Pixel(x, y), colour);
        SameFreedKeepsStored(regionRefs, root, rank, g, regions, owner, freedHead, free, given, reg);
      }
    }

    lemma RegionOpened(g0: seq<Region>, g: seq<Region>, r: nat, x: nat, y: nat, colour: nat)
      requires Vacant(g0, r) && r < |g| && g == PutRegion(g0, r, FreshRegion(x, y, colour, g[r].next))
      ensures OpensRegion(g0, g, r, Pixel(x, y), colour, false)
    {
    }

    lemma RegionFlagged(g0: seq<Region>, g: seq<Region>, r: nat, p: Pixel, colour: nat)
      requires OpensRegion(g0, g, r, p, colour, false) && r < |g|
      ensures OpensRegion(g0, AddFlag(g, r, AdjacentToRoot), r, p, colour, true)
      ensures SameFreed(g, AddFlag(g, r, AdjacentToRoot))
    {
    }

    /** The region that the pixel (x, y) opens. */
    method OpenPixel(x: nat, y: nat, colour: nat, slot: nat, ghost img: Image, ghost row: int) returns (r: nat)
      requires Scans(Size(), State(), img, x, y) && x < width && y < height
      requires Pixel(x, y) in img && img[Pixel(x, y)] == colour && (colour == BLACK || colour == WHITE)
      requires x > 0 ==> Pixel(x - 1, y) in img && img[Pixel(x - 1, y)] != colour
      requires y > 0 ==> Pixel(x, y - 1) in img && img[Pixel(x, y - 1)] != colour
      requires Boxes(State(), -1, row) && slot < rows.Length
      modifies this`regions, this`regionRefs, this`freedHead, rows
      modifies this`root, this`rank, this`owner, this`free, this`given, this`reg, this`border
      ensures Opening(Size(), State(), img, x, y, NewSides(x, y)) && Boxes(State(), r, y)
      ensures rows[..] == old(rows[..])[slot := |old(regionRefs)|]
      ensures given == old(given)[Pixel(x, y) := |old(regionRefs)|] && reg == old(reg)[Pixel(x, y) := r]
      ensures root == old(root) + [|old(regionRefs)|] && |old(root)| == |old(regionRefs)|
      ensures IsRoot(regionRefs, |old(regionRefs)|) && r < |regions|
    {
      hide Stored, Accounted, Faithful, FaithfulBut, WellLinked, IsFrame, Scanned, Boxed, OpensRegion;
      ghost var s := State();
      ghost var c := Pixel(x, y);
      ScanFacts(Size(), s, img, x, y);
      RoomForOneMore(Size(), s, img, x, y);
      var k := NewEdgeRegion(x, y, colour);
      r := regionRefs[k].region.value;
      rows[slot] := k;
      given, reg := given[c := k], reg[c := r];
      border := if x == 0 || y == 0 then border + {c} else border;
      OpenStep(Size(), s, State(), img, x, y, r);
      OpenBoxes(Size(), s, State(), img, x, y, r, row);
    }

    /** make_adjacent between the region that (x, y) opened and the region of its neighbour q. */
    method LinkOpened(r1: nat, r2: nat, ghost img: Image, ghost x: int, ghost y: int, ghost pending: set<Side>,
                      ghost q: Pixel, ghost open: int, ghost row: int)
      requires Opening(Size(), State(), img, x, y, pending) && Sides(Pixel(x, y), q) <= pending
      requires 0 <= x < width && 0 <= y && q in reg && Pixel(x, y) in reg
      requires Touch(Pixel(x, y), q) && Touch(q, Pixel(x, y)) && r1 == reg[Pixel(x, y)] && r2 == reg[q]
      requires q in img && Pixel(x, y) in img && img[q] != img[Pixel(x, y)]
      requires Boxes(State(), open, row)
      modifies this`regions
      ensures Opening(Size(), State(), img, x, y, pending - Sides(Pixel(x, y), q)) && Boxes(State(), open, row)
      ensures KeepsLinks(old(regions), regions)
      ensures r1 < |regions| && r2 < |regions| && Linked(regions, r1, r2)
    {
      hide Stored, Accounted, FaithfulBut, WellLinked, IsFrame, Scanned, Boxed, IsMadeAdjacent;
      ghost var s := State();
      OpeningFacts(Size(), s, img, x, y, pending, Pixel(x, y));
      OpeningFacts(Size(), s, img, x, y, pending, q);
      MakeAdjacent(r1, r2);
      LinkStep(Size(), s, State(), img, x, y, pending, q);
      LinkBoxes(Size(), s, State(), open, row);
    }

    /** The pixel (x, y) takes over the reference of its neighbour a. */
    method AttachPixel(x: nat, y: nat, k: nat, slot: nat, ghost img: Image, ghost a: Pixel, ghost b: Pixel,
                       ghost d: Pixel)
      requires Scans(Size(), State(), img, x, y) && x < width && y < height && slot < rows.Length
      requires CanAttach(img, reg, Pixel(x, y), a, b, d) && IsRoot(regionRefs, k)
      requires a in reg && regionRefs[k].region == Some(reg[a])
      requires x == 0 || y == 0 ==> a in border
      modifies rows, this`given, this`reg, this`border
      ensures Scans(Size(), State(), img, x + 1, y)
      ensures rows[..] == old(rows[..])[slot := k]
      ensures given == old(given)[Pixel(x, y) := k] && reg == old(reg)[Pixel(x, y) := old(reg)[a]]
      ensures border == if x == 0 || y == 0 then old(border) + {Pixel(x, y)} else old(border)
    {
      hide Stored, Accounted, Faithful, WellLinked, IsFrame, Scanned, CanAttach;
      ghost var s := State();
      ghost var c := Pixel(x, y);
      rows[slot] := k;
      given, reg := given[c := k], reg[c := reg[a]];
      border := if x == 0 || y == 0 then border + {c} else border;
      AttachStep(Size(), s, State(), img, x, y, k, a, b, d);
    }

    // ----- the raster scan

    /** current and previous are the offsets of the two rows in the buffer. */
    ghost predicate Rows(current: nat, previous: nat)
    {
      rows.Length == 2 * width && ((current == 0 && previous == width) || (current == width && previous == 0))
    }

    /** The scan stands before pixel (x, y), inside a row below the top one. */
    ghost predicate InRow(img: Image, x: nat, y: nat, current: nat, previous: nat)
      reads this, rows
    {
      && Scans(Size(), State(), img, x, y) && 0 < x <= width && 0 < y < height && Rows(current, previous)
      && Cells(State(), rows[..], previous, y - 1, width)
      && Cells(State(), rows[..], current, y, x)
      && IsRoot(regionRefs, rows[current + x - 1])
      && Pixel(x - 1, y) in reg && Boxes(State(), reg[Pixel(x - 1, y)], y)
    }

    /** The west neighbour has the colour of (x, y), and north there is nothing to merge. */
    method ContinueRun(x: nat, y: nat, current: nat, previous: nat, ghost img: Image)
      requires 0 < x < width && Rows(current, previous) && IsRoot(regionRefs, rows[previous + x])
      requires Pixel(x - 1, y) in img && Pixel(x, y) in img && img[Pixel(x - 1, y)] == img[Pixel(x, y)]
      requires Pixel(x, y - 1) in img
      requires rows[current + x - 1] == rows[previous + x] || img[Pixel(x, y - 1)] != img[Pixel(x, y)]
      requires InRow(img, x, y, current, previous)
      modifies rows, this`given, this`reg, this`border
      ensures InRow(img, x + 1, y, current, previous)
    {
      hide Stored, Accounted, Faithful, WellLinked, IsFrame, Scanned, CanAttach, Boxed, Cells, RootsAgree, Boxes,
           Progress, Live;
      ghost var s, cells := State(), rows[..];
      RowFacts(img, x, y, current, previous);
      CanAttachWest(Size(), s, img, x, y);
      var k := rows[current + x - 1];
      AttachPixel(x, y, k, current + x, img, Pixel(x - 1, y), Pixel(x, y - 1), Pixel(x - 1, y - 1));
      AttachWestBoxes(Size(), s, State(), img, x, y, k);
      RootsAgreeCases(s.root, |s.refs|, 0, 0);
      CellsStep(Size(), s, State(), cells, rows[..], current, previous, x, y, k);
    }

    /** The west neighbour has another colour, the north one that of (x, y). */
    method ContinueAbove(x: nat, y: nat, current: nat, previous: nat, ghost img: Image)
      requires x < width && Rows(current, previous) && IsRoot(regionRefs, rows[previous + x])
      requires Pixel(x - 1, y) in img && Pixel(x, y) in img && img[Pixel(x - 1, y)] != img[Pixel(x, y)]
      requires Pixel(x, y - 1) in img && img[Pixel(x, y - 1)] == img[Pixel(x, y)]
      requires Boxes(State(), -1, y)
      requires InRow(img, x, y, current, previous)
      modifies rows, this`regions, this`given, this`reg, this`border
      ensures InRow(img, x + 1, y, current, previous)
    {
      hide Stored, Accounted, Faithful, WellLinked, IsFrame, Scanned, CanAttach, Boxed, Cells, RootsAgree, Progress,
           Boxes, Live;
      ghost var s, cells := State(), rows[..];
      RowFacts(img, x, y, current, previous);
      LiveBound(regions, reg[Pixel(x, y - 1)]);
      CanAttachNorth(Size(), s, img, x, y);
      var k := rows[previous + x];
      AttachPixel(x, y, k, current + x, img, Pixel(x, y - 1), Pixel(x - 1, y), Pixel(x - 1, y - 1));
      var r := regionRefs[rows[current + x]].region.value;
      regions := regions[r := regions[r].(bottom := ToShort(y))];
      LowerStep(Size(), s, State(), img, x, y, k);
      RootsAgreeCases(s.root, |s.refs|, 0, 0);
      CellsStep(Size(), s, State(), cells, rows[..], current, previous, x, y, k);
    }

    /** The links of the region that (x, y) opened. */
    method LinkNeighbours(x: nat, y: nat, r: nat, west: nat, north: nat, ghost img: Image)
      requires Opening(Size(), State(), img, x, y, NewSides(x, y)) && 0 < x < width && 0 < y < height
      requires Pixel(x, y) in reg && Pixel(x - 1, y) in reg && Pixel(x, y - 1) in reg
      requires reg[Pixel(x, y)] == r && reg[Pixel(x - 1, y)] == west && reg[Pixel(x, y - 1)] == north
      requires Pixel(x, y) in img && Pixel(x - 1, y) in img && Pixel(x, y - 1) in img
      requires img[Pixel(x - 1, y)] != img[Pixel(x, y)] && img[Pixel(x, y - 1)] != img[Pixel(x, y)]
      requires Boxes(State(), r, y)
      modifies this`regions
      ensures Scans(Size(), State(), img, x + 1, y) && Boxes(State(), r, y)
    {
      hide Stored, Accounted, FaithfulBut, Faithful, WellLinked, IsFrame, Scanned, Boxed, KeepsLinks, Linked, Progress;
      ghost var pending := NewSides(x, y);
      LinkOpened(r, north, img, x, y, pending, Pixel(x, y - 1), r, y);
      pending := pending - Sides(Pixel(x, y), Pixel(x, y - 1));
      if west != north {
        ghost var g := regions;
        LinkOpened(r, west, img, x, y, pending, Pixel(x - 1, y), r, y);
        pending := pending - Sides(Pixel(x, y), Pixel(x - 1, y));
        LinkedStays(g, regions, r, north);
      }
      LinksDone(Size(), State(), img, x, y, pending);
    }

    /** Neither neighbour has the colour of (x, y). */
    method StartRegion(x: nat, y: nat, colour: nat, current: nat, previous: nat, ghost img: Image)
      requires InRow(img, x, y, current, previous) && x < width && (colour == BLACK || colour == WHITE)
      requires Pixel(x, y) in img && img[Pixel(x, y)] == colour
      requires Pixel(x - 1, y) in img && img[Pixel(x - 1, y)] != colour
      requires Pixel(x, y - 1) in img && img[Pixel(x, y - 1)] != colour
      requires IsRoot(regionRefs, rows[previous + x]) && Boxes(State(), -1, y)
      modifies rows, this`regions, this`regionRefs, this`freedHead
      modifies this`root, this`rank, this`owner, this`free, this`given, this`reg, this`border
      ensures InRow(img, x + 1, y, current, previous)
    {
      hide Stored, Accounted, Faithful, FaithfulBut, WellLinked, IsFrame, Scanned, Boxed, Cells, RootsAgree, Progress;
      ghost var s, cells := State(), rows[..];
      var west := regionRefs[rows[current + x - 1]].region;
      RowFacts(img, x, y, current, previous);
      var north := regionRefs[rows[previous + x]].region;
      var r := OpenPixel(x, y, colour, current + x, img, y);
      LinkNeighbours(x, y, r, west.value, north.value, img);
      RootsAgreeCases(s.root, |s.refs|, 0, 0);
      CellsStep(Size(), s, State(), cells, rows[..], current, previous, x, y, |s.refs|);
    }

    /** What the rows say about the neighbours of (x, y) once the north cell is resolved. */
    lemma RowFacts(img: Image, x: nat, y: nat, current: nat, previous: nat)
      requires InRow(img, x, y, current, previous) && x < width && IsRoot(regionRefs, rows[previous + x])
      ensures var c, a, b := Pixel(x, y), Pixel(x - 1, y), Pixel(x, y - 1);
              && c in img && a in img && b in img && c !in reg && c !in given && a in reg && b in reg
              && regionRefs[rows[current + x - 1]].region == Some(reg[a]) && Live(regions, reg[a])
              && regionRefs[rows[previous + x]].region == Some(reg[b]) && Live(regions, reg[b])
              && (rows[current + x - 1] == rows[previous + x] <==> reg[a] == reg[b])
              && |root| == |regionRefs| == |rank|
              && regions[reg[a]].colour == img[a] && regions[reg[b]].colour == img[b]
    {
      hide Stored, Accounted, Faithful, WellLinked, IsFrame, Scanned, Cells, Boxed;
      ghost var s, cells := State(), rows[..];
      CellRegion(Size(), s, img, x, y, cells, current, y, x, x - 1);
      CellRegion(Size(), s, img, x, y, cells, previous, y - 1, width, x);
      CurrentPixel(Size(), s, img, x, y);
      ScanFacts(Size(), s, img, x, y);
      RegionFacts(Size(), s, img, x, y, Pixel(x - 1, y));
      RegionFacts(Size(), s, img, x, y, Pixel(x, y - 1));
      RootRegions(Size(), s, img, x, y, rows[current + x - 1], rows[previous + x]);
      RankOfRoots(Size(), s, img, x, y);
    }

    /** The west cell is a root without being resolved. */
    lemma WestFacts(img: Image, x: nat, y: nat, current: nat, previous: nat)
      requires InRow(img, x, y, current, previous)
      ensures rows[current + x - 1] < |regionRefs| && IsRoot(regionRefs, rows[current + x - 1])
      ensures regionRefs[rows[current + x - 1]].region == Some(reg[Pixel(x - 1, y)]) && reg[Pixel(x - 1, y)] < |regions|
    {
      hide Stored, Accounted, Faithful, WellLinked, IsFrame, Scanned, Cells, Boxed;
      CellRegion(Size(), State(), img, x, y, rows[..], current, y, x, x - 1);
    }

    /** Merges the region of the root from into that of the root to, and frees it. */
    method MergePixel(x: nat, y: nat, from: nat, to: nat, ghost img: Image)
      requires Scans(Size(), State(), img, x, y) && 0 < x < width && 0 < y < height
      requires var c, a, b := Pixel(x, y), Pixel(x - 1, y), Pixel(x, y - 1);
               && c in img && a in img && b in img && a in reg && b in reg
               && img[a] == img[c] == img[b] && reg[a] != reg[b]
               && Live(regions, reg[a]) && Live(regions, reg[b])
               && regions[reg[a]].colour == img[a] && regions[reg[b]].colour == img[b]
               && IsRoot(regionRefs, from) && regionRefs[from].region == Some(reg[a])
               && IsRoot(regionRefs, to) && regionRefs[to].region == Some(reg[b])
               && |root| == |regionRefs| == |rank|
      requires Boxes(State(), reg[Pixel(x - 1, y)], y)
      modifies this`regions, this`regionRefs, this`freedHead
      modifies this`root, this`rank, this`owner, this`free, this`given, this`reg
      ensures Scans(Size(), State(), img, x + 1, y)
      ensures Boxes(State(), old(reg)[Pixel(x, y - 1)], y)
      ensures Pixel(x, y) in reg && reg[Pixel(x, y)] == old(reg)[Pixel(x, y - 1)]
      ensures given == old(given)[Pixel(x, y) := to] && root == Rerooted(old(root), from, to)
      ensures IsRoot(regionRefs, to)
    {
      hide Stored, Accounted, Faithful, WellLinked, IsFrame, Scanned, Boxed, Merges;
      ghost var s := State();
      ghost var m := UniteRegions(from, to, Pixel(x, y), Pixel(x - 1, y), Pixel(x, y - 1));
      MergeStep(Size(), s, State(), m, img, x, y, Pixel(x - 1, y), Pixel(x, y - 1), from, to);
      MergeBoxes(Size(), s, State(), m, img, x, y, Pixel(x - 1, y), Pixel(x, y - 1), from, to);
    }

    /** Frees region r2 and redirects its root to another one. */
    method Retire(r2: nat, from: nat, to: nat)
      requires r2 < |regions| && from < |regionRefs|
      modifies this`regions, this`regionRefs, this`freedHead
      ensures regions == old(regions)[r2 := old(regions)[r2].(flags := {Free}, next := old(freedHead))]
      ensures freedHead == Some(r2)
      ensures regionRefs == old(regionRefs)[from := RegionReference(None, to)]
    {
      regions := regions[r2 := regions[r2].(flags := {Free}, next := freedHead)];
      freedHead := Some(r2);
      regionRefs := regionRefs[from := RegionReference(None, to)];
    }

    /** What is remembered after r2 was merged into r1, and the reference of the one redirected. */
    ghost method Relabel(r1: nat, r2: nat, from: nat, to: nat, c: Pixel)
      requires from < |root| == |rank| && to < |root|
      modifies this`root, this`rank, this`owner, this`free, this`given, this`reg
      ensures root == Rerooted(old(root), from, to)
      ensures rank == Lifted(old(root), old(rank), from, old(rank)[to] + 1)
      ensures owner == old(owner) - {r2} && free == [r2] + old(free)
      ensures given == old(given)[c := to] && reg == Relabelled(old(reg), r1, r2)[c := r1]
    {
      root, rank := Rerooted(root, from, to), Lifted(root, rank, from, rank[to] + 1);
      owner, free := owner - {r2}, [r2] + free;
      given, reg := given[c := to], Relabelled(reg, r1, r2)[c := r1];
    }

    method UniteRegions(from: nat, to: nat, ghost c: Pixel, ghost a: Pixel, ghost b: Pixel)
      returns (ghost m: seq<Region>)
      requires WellLinked(regions, maxAdjacent) && a in reg && b in reg && reg[a] != reg[b]
      requires Live(regions, reg[a]) && Live(regions, reg[b]) && regions[reg[a]].colour == regions[reg[b]].colour
      requires IsRoot(regionRefs, from) && regionRefs[from].region == Some(reg[a])
      requires IsRoot(regionRefs, to) && regionRefs[to].region == Some(reg[b])
      requires |root| == |regionRefs| == |rank|
      modifies this`regions, this`regionRefs, this`freedHead
      modifies this`root, this`rank, this`owner, this`free, this`given, this`reg
      ensures Merges(Size(), old(State()), State(), m, c, a, b, from, to)
      ensures c in reg && reg[c] == old(reg)[b]
      ensures given == old(given)[c := to] && root == Rerooted(old(root), from, to)
      ensures IsRoot(regionRefs, to)
    {
      hide WellLinked, IsMerger, Merges, Relabelled, Rerooted, Lifted, IsFreed;
      ghost var s := State();
      var r1, r2 := regionRefs[to].region.value, regionRefs[from].region.value;
      MergeRegions(r1, r2);
      m := regions;
      MergerSize(s.g, m, maxAdjacent, r1, r2);
      Retire(r2, from, to);
      Relabel(r1, r2, from, to, c);
      MergesMade(Size(), s, State(), m, c, a, b, from, to);
    }

    /** The pixel (x, y) joins the regions of its two neighbours: the west one is merged
        into the north one and freed, and its reference is redirected. */
    method MergeRuns(x: nat, y: nat, current: nat, previous: nat, ghost img: Image)
      requires InRow(img, x, y, current, previous) && x < width
      requires Pixel(x - 1, y) in img && Pixel(x, y) in img && img[Pixel(x - 1, y)] == img[Pixel(x, y)]
      requires IsRoot(regionRefs, rows[previous + x]) && rows[current + x - 1] != rows[previous + x]
      requires Pixel(x, y - 1) in img && img[Pixel(x, y - 1)] == img[Pixel(x, y)]
      modifies rows, this`regions, this`regionRefs, this`freedHead
      modifies this`root, this`rank, this`owner, this`free, this`given, this`reg, this`border
      ensures InRow(img, x + 1, y, current, previous)
    {
      hide Stored, Accounted, Faithful, WellLinked, IsFrame, Scanned, Boxed, Cells, RootsAgree, Progress;
      ghost var s, cells := State(), rows[..];
      RowFacts(img, x, y, current, previous);
      rows[current + x] := rows[current + x - 1];
      var from, to := rows[current + x], rows[previous + x];
      MergePixel(x, y, from, to, img);
      rows[current + x] := to;
      RootsAgreeCases(s.root, 0, from, to);
      CellsStep(Size(), s, State(), cells, rows[..], current, previous, x, y, to);
    }

    /** The buffer shows the image. */
    ghost predicate Shows(source: seq<nat>, img: Image) {
      && |source| == height * width && 0 < width && 0 < height
      && img == Raster(source, width, 0, height) && IsFrame(Size(), img)
    }

    lemma PixelAt(source: seq<nat>, img: Image, x: nat, y: nat)
      requires Shows(source, img) && x < width && y < height
      ensures Pixel(x, y) in img && 0 <= y * width + x < |source|
      ensures source[y * width + x] == img[Pixel(x, y)]
      ensures img[Pixel(x, y)] == BLACK || img[Pixel(x, y)] == WHITE
    {
      RasterAt(source, width, 0, height, Pixel(x, y));
    }

    /** Resolves the cell above (x, y). */
    method ResolveNorth(x: nat, y: nat, current: nat, previous: nat, ghost img: Image)
      requires InRow(img, x, y, current, previous) && x < width
      modifies rows, this`regionRefs
      ensures InRow(img, x, y, current, previous) && IsRoot(regionRefs, rows[previous + x])
    {
      hide Stored, Accounted, Faithful, WellLinked, IsFrame, Scanned, Boxed, Cells;
      ghost var s, cells := State(), rows[..];
      CellFacts(Size(), s, img, x, y, cells, previous, y - 1, width, x);
      ScanFacts(Size(), s, img, x, y);
      var north := Resolve(rows[previous + x]);
      rows[previous + x] := north;
      ShortenStep(Size(), s, State(), img, x, y, cells[previous + x]);
      CellsShortened(s, State(), cells, rows[..], previous, y - 1, width, previous + x);
      CellsShortened(s, State(), cells, rows[..], current, y, x, previous + x);
    }

    /** One pixel of the centre span. */
    method CentrePixel(source: seq<nat>, x: nat, y: nat, i: nat, current: nat, previous: nat, ghost img: Image)
      requires InRow(img, x, y, current, previous) && x < width
      requires Shows(source, img) && i == y * width + x
      modifies rows, this`regions, this`regionRefs, this`freedHead
      modifies this`root, this`rank, this`owner, this`free, this`given, this`reg, this`border
      ensures InRow(img, x + 1, y, current, previous)
    {
      hide Scans, Shows, Boxes, Cells;
      PixelAt(source, img, x, y);
      PixelAt(source, img, x - 1, y);
      PixelAt(source, img, x, y - 1);
      ResolveNorth(x, y, current, previous, img);
      RowFacts(img, x, y, current, previous);
      var north := regionRefs[rows[previous + x]].region.value;
      if source[i] == source[i - 1] {
        if rows[current + x - 1] != rows[previous + x] && source[i] == regions[north].colour {
          MergeRuns(x, y, current, previous, img);
        } else {
          ContinueRun(x, y, current, previous, img);
        }
      } else {
        EndRun(x, y, current, previous, img);
        if source[i] == regions[north].colour {
          ContinueAbove(x, y, current, previous, img);
        } else {
          StartRegion(x, y, source[i], current, previous, img);
        }
      }
    }

    method Widen(west: nat, x: nat)
      requires west < |regions|
      modifies this`regions
      ensures regions == Widened(old(regions), west, x)
    {
      if regions[west].right < x - 1 {
        regions := regions[west := regions[west].(right := ToShort(x - 1))];
      }
    }

    /** The run of the west neighbour has ended: settles the right side of its region. */
    method EndRun(x: nat, y: nat, current: nat, previous: nat, ghost img: Image)
      requires x < width && Rows(current, previous) && IsRoot(regionRefs, rows[previous + x])
      requires InRow(img, x, y, current, previous)
      modifies this`regions
      ensures |regions| == |old(regions)|
      ensures forall r | 0 <= r < |regions| :: regions[r].colour == old(regions)[r].colour
      ensures Boxes(State(), -1, y)
      ensures InRow(img, x, y, current, previous)
    {
      hide Scans, Boxes, Cells, IsRoot, Widened;
      ghost var s := State();
      WestFacts(img, x, y, current, previous);
      var west := regionRefs[rows[current + x - 1]].region.value;
      Widen(west, x);
      WidenStep(Size(), s, State(), img, x, y);
      SameCells(s, State(), rows[..], previous, y - 1, width);
      SameCells(s, State(), rows[..], current, y, x);
    }

    /** The scan stands before pixel (x, 0) of the top row. */
    ghost predicate InTopRow(img: Image, x: nat)
      reads this, rows
    {
      && Scans(Size(), State(), img, x, 0) && 0 < x <= width && 0 < height && Rows(0, width)
      && Cells(State(), rows[..], 0, 0, x)
      && IsRoot(regionRefs, rows[x - 1])
    }

    /** One pixel of the top row, after the first. */
    method TopPixel(source: seq<nat>, x: nat, ghost img: Image)
      requires InTopRow(img, x) && x < width && Shows(source, img) && x < |source|
      modifies rows, this`regions, this`regionRefs, this`freedHead
      modifies this`root, this`rank, this`owner, this`free, this`given, this`reg, this`border
      ensures InTopRow(img, x + 1)
    {
      hide Shows, Stored, Accounted, Faithful, FaithfulBut, WellLinked, IsFrame, Scanned, Cells, CanAttach, RootsAgree,
           Boxes, Linked;
      ghost var s, cells := State(), rows[..];
      PixelAt(source, img, x, 0);
      PixelAt(source, img, x - 1, 0);
      CurrentPixel(Size(), s, img, x, 0);
      SameKeys(Size(), s, img, x, 0);
      CellRegion(Size(), s, img, x, 0, cells, 0, 0, x, x - 1);
      if source[x] == source[x - 1] {
        CanAttachWest(Size(), s, img, x, 0);
        TopBorder(Size(), s, img, x, Pixel(x - 1, 0));
        AttachPixel(x, 0, rows[x - 1], x, img, Pixel(x - 1, 0), Pixel(x, -1), Pixel(x - 1, -1));
        TopCells(s, State(), cells, rows[..], x, cells[x - 1]);
      } else {
        TopBoxes(Size(), s, img, x, -1, 0);
        var west := regionRefs[rows[x - 1]].region.value;
        var r := OpenPixel(x, 0, source[x], x, img, 0);
        LinkOpened(r, west, img, x, 0, NewSides(x, 0), Pixel(x - 1, 0), r, 0);
        NoNorth(Size(), State(), img, x);
        LinksDone(Size(), State(), img, x, 0, NewSides(x, 0) - Sides(Pixel(x, 0), Pixel(x - 1, 0)));
        TopCells(s, State(), cells, rows[..], x, |s.refs|);
      }
    }

    /** The top row. */
    method TopRow(source: seq<nat>, ghost img: Image)
      requires Shows(source, img) && Rows(0, width)
      requires State() == ScanState([], [], [], [], map[], None, [], map[], map[], {})
      modifies rows, this`regions, this`regionRefs, this`freedHead
      modifies this`root, this`rank, this`owner, this`free, this`given, this`reg, this`border
      ensures InTopRow(img, width)
    {
      hide Scans, Cells, Boxes, Raster, IsFrame;
      FirstPixel(source, img);
      var x := 1;
      while x < width
        invariant InTopRow(img, x)
      {
        PixelAt(source, img, x, 0);
        TopPixel(source, x, img);
        x := x + 1;
      }
    }

    method FirstPixel(source: seq<nat>, ghost img: Image)
      requires Shows(source, img) && Rows(0, width)
      requires State() == ScanState([], [], [], [], map[], None, [], map[], map[], {})
      modifies rows, this`regions, this`regionRefs, this`freedHead
      modifies this`root, this`rank, this`owner, this`free, this`given, this`reg, this`border
      ensures InTopRow(img, 1)
    {
      hide Stored, Accounted, Faithful, FaithfulBut, WellLinked, IsFrame, Scanned, Boxes, Linked, RootsAgree, Cells;
      PixelAt(source, img, 0, 0);
      ghost var s, cells := State(), rows[..];
      Begin(Size(), s, img);
      TopBoxes(Size(), s, img, 0, -1, 0);
      NoCells(s, cells);
      var r := OpenPixel(0, 0, source[0], 0, img, 0);
      LinksDone(Size(), State(), img, 0, 0, NewSides(0, 0));
      TopCells(s, State(), cells, rows[..], 0, 0);
    }

    /** The scan stands before row y; the row above is at offset previous. */
    ghost predicate BeforeRow(img: Image, y: nat, previous: nat)
      reads this, rows
    {
      && Scans(Size(), State(), img, 0, y) && 0 < width && 0 < y <= height
      && (Rows(0, previous) || Rows(width, previous))
      && Cells(State(), rows[..], previous, y - 1, width)
      && Boxes(State(), -1, y - 1)
    }

    /** The left edge of row y. */
    method LeftEdge(source: seq<nat>, y: nat, i: nat, current: nat, previous: nat, ghost img: Image)
      requires Shows(source, img) && y < height && i == y * width && Rows(current, previous)
      requires BeforeRow(img, y, previous)
      modifies rows, this`regions, this`regionRefs, this`freedHead
      modifies this`root, this`rank, this`owner, this`free, this`given, this`reg, this`border
      ensures InRow(img, 1, y, current, previous)
    {
      hide Scans, Cells, Boxes, Shows;
      PixelAt(source, img, 0, y);
      PixelAt(source, img, 0, y - 1);
      ResolveEdge(y, previous, img);
      EdgeFacts(y, previous, img);
      var north := regionRefs[rows[previous]].region.value;
      if source[i] == regions[north].colour {
        AttachEdge(y, current, previous, img);
      } else {
        StartEdge(y, source[i], north, current, previous, img);
      }
    }

    method ResolveEdge(y: nat, previous: nat, ghost img: Image)
      requires BeforeRow(img, y, previous)
      modifies rows, this`regionRefs
      ensures BeforeRow(img, y, previous) && IsRoot(regionRefs, rows[previous])
    {
      hide Stored, Accounted, Faithful, WellLinked, IsFrame, Scanned, Boxed, Cells;
      ghost var s, cells := State(), rows[..];
      CellFacts(Size(), s, img, 0, y, cells, previous, y - 1, width, 0);
      var north := Resolve(rows[previous]);
      rows[previous] := north;
      ShortenStep(Size(), s, State(), img, 0, y, cells[previous]);
      CellsShortened(s, State(), cells, rows[..], previous, y - 1, width, previous);
    }

    lemma EdgeFacts(y: nat, previous: nat, img: Image)
      requires BeforeRow(img, y, previous) && y < height && IsRoot(regionRefs, rows[previous])
      ensures var c, b := Pixel(0, y), Pixel(0, y - 1);
              && c in img && b in img && c !in reg && c !in given && b in reg && b in border
              && regionRefs[rows[previous]].region == Some(reg[b]) && Live(regions, reg[b])
              && regions[reg[b]].colour == img[b] && |root| == |regionRefs|
    {
      hide Stored, Accounted, Faithful, WellLinked, IsFrame, Cells, Boxed;
      ghost var s, cells := State(), rows[..];
      CellRegion(Size(), s, img, 0, y, cells, previous, y - 1, width, 0);
      CurrentPixel(Size(), s, img, 0, y);
      ScanFacts(Size(), s, img, 0, y);
      RegionFacts(Size(), s, img, 0, y, Pixel(0, y - 1));
    }

    method AttachEdge(y: nat, current: nat, previous: nat, ghost img: Image)
      requires 0 < width && y < height && Rows(current, previous) && IsRoot(regionRefs, rows[previous])
      requires Pixel(0, y) in img && Pixel(0, y - 1) in img && img[Pixel(0, y)] == img[Pixel(0, y - 1)]
      requires BeforeRow(img, y, previous)
      modifies rows, this`given, this`reg, this`border
      ensures InRow(img, 1, y, current, previous)
    {
      hide Stored, Accounted, Faithful, WellLinked, IsFrame, Scanned, Cells, CanAttach, RootsAgree, Boxes, Live;
      ghost var s, cells := State(), rows[..];
      EdgeFacts(y, previous, img);
      LiveBound(regions, reg[Pixel(0, y - 1)]);
      CanAttachNorth(Size(), s, img, 0, y);
      var k := rows[previous];
      AttachPixel(0, y, k, current, img, Pixel(0, y - 1), Pixel(-1, y), Pixel(-1, y - 1));
      AttachNorthBoxes(Size(), s, State(), img, 0, y, k, y - 1);
      RootsAgreeCases(s.root, 0, 0, 0);
      NoCellsAt(s, cells, current, y);
      CellsStep(Size(), s, State(), cells, rows[..], current, previous, 0, y, k);
    }

    method StartEdge(y: nat, colour: nat, north: nat, current: nat, previous: nat, ghost img: Image)
      requires 0 < width && y < height && Rows(current, previous) && IsRoot(regionRefs, rows[previous])
      requires regionRefs[rows[previous]].region == Some(north) && (colour == BLACK || colour == WHITE)
      requires Pixel(0, y) in img && Pixel(0, y - 1) in img && colour == img[Pixel(0, y)] != img[Pixel(0, y - 1)]
      requires BeforeRow(img, y, previous)
      modifies rows, this`regions, this`regionRefs, this`freedHead
      modifies this`root, this`rank, this`owner, this`free, this`given, this`reg, this`border
      ensures InRow(img, 1, y, current, previous)
    {
      hide Stored, Accounted, Faithful, FaithfulBut, WellLinked, IsFrame, Scanned, Cells, RootsAgree, Boxes, Live,
           Linked, Progress;
      ghost var s, cells := State(), rows[..];
      EdgeFacts(y, previous, img);
      var r := OpenPixel(0, y, colour, current, img, y - 1);
      LinkOpened(r, north, img, 0, y, NewSides(0, y), Pixel(0, y - 1), r, y);
      NoWest(Size(), State(), img, y);
      LinksDone(Size(), State(), img, 0, y, NewSides(0, y) - Sides(Pixel(0, y), Pixel(0, y - 1)));
      RootsAgreeCases(s.root, |s.refs|, 0, 0);
      NoCellsAt(s, cells, current, y);
      CellsStep(Size(), s, State(), cells, rows[..], current, previous, 0, y, |s.refs|);
    }

    /** The right edge of row y. */
    method RightEdge(y: nat, current: nat, previous: nat, ghost img: Image)
      requires InRow(img, width, y, current, previous)
      modifies this`regions, this`border
      ensures BeforeRow(img, y + 1, current)
    {
      hide Stored, Accounted, Faithful, WellLinked, IsFrame, Scanned, Cells, Boxed, Boxes;
      ghost var s := State();
      WestFacts(img, width, y, current, previous);
      Flag(regionRefs[rows[current + width - 1]].region.value, AdjacentToRoot);
      border := border + {Pixel(width - 1, y)};
      NextRow(Size(), s, State(), img, y);
      NextRowBoxes(Size(), s, State(), y);
      SameCells(s, State(), rows[..], current, y, width);
    }

    /** One row below the top one. */
    method Line(source: seq<nat>, y: nat, current: nat, previous: nat, ghost img: Image)
      requires Shows(source, img) && y < height && Rows(current, previous)
      requires BeforeRow(img, y, previous)
      modifies rows, this`regions, this`regionRefs, this`freedHead
      modifies this`root, this`rank, this`owner, this`free, this`given, this`reg, this`border
      ensures BeforeRow(img, y + 1, current)
    {
      hide InRow, BeforeRow, Shows, Rows;
      var i := y * width;
      LeftEdge(source, y, i, current, previous, img);
      i := i + 1;
      var x := 1;
      PositiveWidth(source, img);
      while x < width
        invariant 1 <= x <= width && i == y * width + x
        invariant InRow(img, x, y, current, previous)
      {
        CentrePixel(source, x, y, i, current, previous, img);
        x := x + 1;
        i := i + 1;
      }
      RightEdge(y, current, previous, img);
    }

    lemma PositiveWidth(source: seq<nat>, img: Image)
      requires Shows(source, img)
      ensures 0 < width && 0 < height
    {
    }

    /** The bottom row: resolves every cell and flags its region. */
    method BottomRow(current: nat, ghost img: Image)
      requires BeforeRow(img, height, current)
      modifies rows, this`regions, this`regionRefs, this`border
      ensures Finishing(Size(), State(), img, width) && Boxes(State(), -1, height - 1)
    {
      hide Finishing, Cells, Boxes, Stored, Accounted, Faithful, WellLinked, IsFrame, Scanned, Progress;
      StartFinishing(Size(), State(), img);
      var x := 0;
      while x < width
        invariant x <= width && Finishing(Size(), State(), img, x)
        invariant Cells(State(), rows[..], current, height - 1, width) && Boxes(State(), -1, height - 1)
      {
        BottomPixel(x, current, img);
        x := x + 1;
      }
    }

    method BottomPixel(x: nat, current: nat, ghost img: Image)
      requires x < width && 0 < height && (Rows(0, current) || Rows(width, current))
      requires Finishing(Size(), State(), img, x)
      requires Cells(State(), rows[..], current, height - 1, width) && Boxes(State(), -1, height - 1)
      modifies rows, this`regions, this`regionRefs, this`border
      ensures Finishing(Size(), State(), img, x + 1)
      ensures Cells(State(), rows[..], current, height - 1, width) && Boxes(State(), -1, height - 1)
    {
      hide Stored, Accounted, Faithful, WellLinked, IsFrame, Cells, Boxes, Finishing;
      ghost var s, cells := State(), rows[..];
      ghost var p := Pixel(x, height - 1);
      FinishFacts(Size(), s, img, x, cells, current, height - 1, width, x);
      var k := Resolve(rows[current + x]);
      rows[current + x] := k;
      ghost var s1 := State();
      FinishShorten(Size(), s, s1, img, x, cells[current + x]);
      CellsShortened(s, s1, cells, rows[..], current, height - 1, width, current + x);
      RootRegionKept(s.refs, s.refs[cells[current + x] := s.refs[cells[current + x]].(redirect := k)], k);
      Flag(regionRefs[k].region.value, AdjacentToRoot);
      border := border + {p};
      FinishStep(Size(), s1, State(), img, x, p);
      SameBoxesKept(Size(), s, s1, -1, height - 1);
      FinishBoxes(Size(), s1, reg[p], border, height - 1);
      SameCells(s1, State(), rows[..], current, height - 1, width);
    }

    // ----- the whole image

    /** build_regions: segments a buffer of black and white pixels in one raster pass. */
    method BuildRegions(source: seq<nat>)
      requires 0 < width && 0 < height && rows.Length == 2 * width && |source| == height * width
      requires forall i | 0 <= i < |source| :: source[i] == 0 || source[i] == 255
      modifies this, rows
      ensures Segmented(Size(), State(), Raster(source, width, 0, height))
    {
      hide Shows, InTopRow, Finishing, Boxes, Scans, Cells, Segmented, Raster;
      ghost var img := Raster(source, width, 0, height);
      ImageShown(source);
      var current, previous := 0, width;
      regionRefs, regions, freedHead := [], [], None;
      root, rank, owner, free, given, reg, border := [], [], map[], [], map[], map[], {};
      TopRow(source, img);
      EndTopRow(img);
      var y := 1;
      while y < height
        invariant 1 <= y <= height && Rows(current, previous)
        invariant BeforeRow(img, y, current)
      {
        hide BeforeRow;
        current, previous := previous, current;
        Line(source, y, current, previous, img);
        y := y + 1;
      }
      BottomRow(current, img);
      Finish(Size(), State(), img);
    }

    lemma ImageShown(source: seq<nat>)
      requires 0 < width && 0 < height && |source| == height * width
      requires forall i | 0 <= i < |source| :: source[i] == BLACK || source[i] == WHITE
      ensures Shows(source, Raster(source, width, 0, height))
    {
      var img := Raster(source, width, 0, height);
      RasterKeys(source, width, 0, height);
      forall p | p in img ensures img[p] == BLACK || img[p] == WHITE {
        RasterAt(source, width, 0, height, p);
      }
    }

    lemma EndTopRow(img: Image)
      requires InTopRow(img, width)
      ensures BeforeRow(img, 1, 0)
    {
      hide Stored, Accounted, Faithful, WellLinked, IsFrame, Cells, Boxes;
      EndTop(Size(), State(), img);
      TopBoxesAbove(Size(), State(), img);
    }
  }
}
