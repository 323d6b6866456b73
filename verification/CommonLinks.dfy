/** When merge_regions really removes all common neighbours.  Its loop swaps the last
    entry into the slot it empties and advances past that slot, so an entry swapped in
    is never examined. */
module CommonLinks {
  import opened Options
  import opened Regions
  import opened RegionGraph

  /** The slot at which the scan over the first n links ends: every hit costs it the
      last slot of the list. */
  function ScanEnd(links: seq<nat>, common: seq<nat>, i: nat, n: nat): (e: nat)
    requires i <= n <= |links|
    ensures i <= e <= n
    decreases n - i
  {
    if i == n then i
    else if links[i] !in common then ScanEnd(links, common, i + 1, n)
    else if i + 1 == n then n
    else ScanEnd(links, common, i + 1, n - 1)
  }

  /** No entry of s between lo and hi is common. */
  ghost predicate NoneCommon(s: seq<nat>, common: seq<nat>, lo: nat, hi: nat)
    requires hi <= |s|
  {
    forall k | lo <= k < hi :: s[k] !in common
  }

  lemma {:induction false} RetainedScan(now: seq<nat>, links: seq<nat>, common: seq<nat>, i: nat, n: nat)
    requires i <= n <= |links| && |now| == n && forall k | i <= k < n :: now[k] == links[k]
    ensures var kept := Retained(now, common, i);
            NoneCommon(kept, common, 0, |kept|)
            <==> NoneCommon(now, common, 0, i) && NoneCommon(links, common, ScanEnd(links, common, i, n), n)
    decreases n - i
  {
    if i < n {
      if links[i] !in common {
        RetainedScan(now, links, common, i + 1, n);
        assert Retained(now, common, i) == Retained(now, common, i + 1);
      } else {
        var next := SwapRemove(now, i);
        assert Retained(now, common, i) == Retained(next, common, i + 1);
        assert forall k | 0 <= k < n - 1 && k != i :: next[k] == now[k];
        if i + 1 < n {
          RetainedScan(next, links, common, i + 1, n - 1);
          assert next[i] == links[n - 1];
          assert NoneCommon(next, common, 0, i + 1) <==> NoneCommon(now, common, 0, i) && links[n - 1] !in common;
        } else {
          assert Retained(next, common, i + 1) == next;
        }
      }
    }
  }

  /** The loop leaves no common neighbour behind exactly when none of them stands at
      or after the slot where the scan ends. */
  lemma RemovesAllCommon(links: seq<nat>, common: seq<nat>)
    ensures (forall a | a in Retained(links, common, 0) :: a !in common)
            <==> NoneCommon(links, common, ScanEnd(links, common, 0, |links|), |links|)
  {
    RetainedScan(links, links, common, 0, |links|);
  }

  /** If the two regions have the same two neighbours, the second one is left behind. */
  lemma LeavesACommonNeighbour(a: nat, b: nat)
    ensures Retained([a, b], [a, b], 0) == [b]
  {
    assert SwapRemove([a, b], 0) == [b];
  }

  /** A merger keeps the lists free of duplicates exactly when it overflows, so that all the
      links are cut, or the common neighbours of r2 all stand before the slot where the scan
      ends. */
  lemma MergerNoDuplicates(g: seq<Region>, g': seq<Region>, capacity: nat, r1: nat, r2: nat)
    requires WellLinked(g, capacity) && NoDuplicates(g)
    requires Live(g, r1) && Live(g, r2) && r1 != r2 && g[r1].colour == g[r2].colour
    requires IsMerger(g, g', capacity, r1, r2)
    ensures NoDuplicates(g')
            <==> || Overflows(g, capacity, r1, r2)
                 || var links := g[r2].adjacent;
                    NoneCommon(links, g[r1].adjacent, ScanEnd(links, g[r1].adjacent, 0, |links|), |links|)
  {
    var links, common := g[r2].adjacent, g[r1].adjacent;
    var kept := Retained(links, common, 0);
    RemovesAllCommon(links, common);
    MergerFree(g, capacity, r1, r2);
    if Overflows(g, capacity, r1, r2) {
      CutKeepsNoDuplicates(g, g', capacity, r1, r2);
    } else if forall a | a in kept :: a !in common {
      forall a, b | 0 <= a < |g'| && 0 <= b < |g'| ensures Mult(g', a, b) <= 1 {
        MergerMult(g, g', capacity, r1, r2, a, b);
        MergedMult(g, capacity, r1, r2, a);
        MergedMult(g, capacity, r1, r2, b);
        assert Mult(g, a, b) <= 1;
      }
    } else {
      var a :| a in kept && a in common;
      assert Lists(g, r1, a);
      MergerMult(g, g', capacity, r1, r2, r1, a);
      assert a in multiset(kept) && a in multiset(common);
      assert Mult(g', r1, a) >= 2;
    }
  }

  lemma CutKeepsNoDuplicates(g: seq<Region>, g': seq<Region>, capacity: nat, r1: nat, r2: nat)
    requires WellLinked(g, capacity) && NoDuplicates(g)
    requires Live(g, r1) && Live(g, r2) && r1 != r2 && g[r1].colour == g[r2].colour
    requires IsMerger(g, g', capacity, r1, r2) && Overflows(g, capacity, r1, r2)
    ensures NoDuplicates(g')
  {
    forall a, b | 0 <= a < |g'| && 0 <= b < |g'| ensures Mult(g', a, b) <= 1 {
      MergerMult(g, g', capacity, r1, r2, a, b);
      assert Mult(g, a, b) <= 1;
    }
  }

  // ----- an image with a duplicate entry

  function RegionAt(colour: nat, left: int, top: int, right: int, bottom: int, flags: set<Flag>,
                    adjacent: seq<nat>): Region {
    Region(colour, left, top, right, bottom, flags, UNKNOWN_REGION_LEVEL, 0, 0, MAX_SHORT, None, adjacent)
  }

  /** The pool before the last pixel of the image whose rows are BBBW, BWWB and BBBB: the black
      region 3 of the second row's end is about to take over the large black region 0. */
  function BeforeLastPixel(): seq<Region> {
    [RegionAt(BLACK, 0, 0, 0, 0, {AdjacentToRoot}, [1, 2]),
     RegionAt(WHITE, 3, 0, 3, 0, {AdjacentToRoot}, [0, 3]),
     RegionAt(WHITE, 1, 1, 2, 1, {}, [0, 3]),
     RegionAt(BLACK, 3, 1, 3, 1, {AdjacentToRoot}, [1, 2])]
  }

  /** The merger that the last pixel asks for lists region 2 twice, although nothing was listed
      twice before. */
  lemma DuplicateArises(g': seq<Region>, capacity: nat)
    requires capacity >= 3 && IsMerger(BeforeLastPixel(), g', capacity, 3, 0)
    ensures WellLinked(BeforeLastPixel(), capacity) && NoDuplicates(BeforeLastPixel())
    ensures Mult(g', 3, 2) == 2 && !NoDuplicates(g')
  {
    var g := BeforeLastPixel();
    BeforeIsWellLinked(capacity);
    LeavesACommonNeighbour(1, 2);
    assert !Overflows(g, capacity, 3, 0);
    MergerMult(g, g', capacity, 3, 0, 3, 2);
    assert MergedLinks(g, capacity, 3, 0) == [1, 2] + [2];
  }

  lemma BeforeIsWellLinked(capacity: nat)
    requires capacity >= 3
    ensures WellLinked(BeforeLastPixel(), capacity) && NoDuplicates(BeforeLastPixel())
  {
    var g := BeforeLastPixel();
    forall a, b | Lists(g, a, b) ensures b < |g| && g[b].colour != g[a].colour {
      assert a == 0 || a == 1 || a == 2 || a == 3;
    }
    forall a, b | 0 <= a < |g| && 0 <= b < |g| ensures Mult(g, a, b) == Mult(g, b, a) <= 1 {
      BeforeMult(a, b);
      BeforeMult(b, a);
    }
  }

  lemma BeforeMult(a: nat, b: nat)
    requires a < 4 && b < 4
    ensures Mult(BeforeLastPixel(), a, b) == if (a == 0 || a == 3) <==> (b == 1 || b == 2) then 1 else 0
  {
    var whites: seq<nat>, blacks: seq<nat> := [1, 2], [0, 3];
    assert multiset(whites)[b] == if b == 1 || b == 2 then 1 else 0;
    assert multiset(blacks)[b] == if b == 0 || b == 3 then 1 else 0;
  }

  lemma MergedMult(g: seq<Region>, capacity: nat, r1: nat, r2: nat, a: nat)
    requires NoDuplicates(g) && r1 < |g| && r2 < |g| && a < |g| && !Overflows(g, capacity, r1, r2)
    requires forall b | b in Retained(g[r2].adjacent, g[r1].adjacent, 0) :: b !in g[r1].adjacent
    ensures multiset(MergedLinks(g, capacity, r1, r2))[a] <= 1
  {
    var kept := Retained(g[r2].adjacent, g[r1].adjacent, 0);
    RetainedKeeps(g[r2].adjacent, g[r1].adjacent, 0);
    assert Mult(g, r1, a) <= 1 && Mult(g, r2, a) <= 1;
    if a in multiset(kept) {
      assert a in kept;
      assert a !in multiset(g[r1].adjacent);
    }
  }

  /** The variant that looks at slot i again after a swap; merge_regions does not. */
  function RetainedRechecked(links: seq<nat>, common: seq<nat>, i: nat): (kept: seq<nat>)
    requires i <= |links| && NoneCommon(links, common, 0, i)
    ensures NoneCommon(kept, common, 0, |kept|)
    ensures forall a | a !in common :: multiset(kept)[a] == multiset(links)[a]
    decreases |links| - i
  {
    if i == |links| then
      links
    else if links[i] in common then
      var next := SwapRemove(links, i);
      RetainedRechecked(next, common, i)
    else
      RetainedRechecked(links, common, i + 1)
  }
}
