/** What make_saturated, make_adjacent and merge_regions do to the pool, stated up
    to the order inside the adjacency lists, and what every such step keeps. */
module RegionGraph {
  import opened Regions

  function AddFlag(g: seq<Region>, r: nat, flag: Flag): seq<Region>
    requires r < |g|
  {
    g[r := g[r].(flags := g[r].flags + {flag})]
  }

  /** Region r has overflowed: it lists nobody, nobody lists it, and everyone who
      lost a link because of that is marked. */
  ghost predicate IsSaturation(g: seq<Region>, g': seq<Region>, r: nat)
    requires r < |g|
  {
    && |g'| == |g|
    && g'[r] == g[r].(adjacent := [], flags := g[r].flags + {Saturated})
    && forall a | 0 <= a < |g| && a != r ::
         && g'[a] == g[a].(adjacent := g'[a].adjacent,
                           flags := g[a].flags + if Lists(g, a, r) then {Fragmented} else {})
         && multiset(g'[a].adjacent) == multiset(g[a].adjacent)[r := 0]
  }

  /** Region a while r is being detached: the links in done are cut, those in rest are not. */
  ghost predicate PartlyDetached(g: seq<Region>, g': seq<Region>, r: nat, done: seq<nat>, rest: seq<nat>, a: nat)
    requires a < |g| == |g'|
  {
    && g'[a] == g[a].(adjacent := g'[a].adjacent,
                      flags := g[a].flags + if a in done then {Fragmented} else {})
    && multiset(g'[a].adjacent) == multiset(g[a].adjacent)[r := multiset(rest)[a]]
  }

  lemma DetachStart(g: seq<Region>, capacity: nat, r: nat)
    requires WellLinked(g, capacity) && r < |g|
    ensures forall a | 0 <= a < |g| && a != r :: PartlyDetached(g, g, r, [], g[r].adjacent, a)
  {
    forall a | 0 <= a < |g| && a != r ensures PartlyDetached(g, g, r, [], g[r].adjacent, a) {
      assert Mult(g, a, r) == Mult(g, r, a);
      assert multiset(g[a].adjacent) == multiset(g[a].adjacent)[r := multiset(g[r].adjacent)[a]];
    }
  }

  lemma DetachStep(g: seq<Region>, m: seq<Region>, g': seq<Region>, r: nat, done: seq<nat>, rest: seq<nat>)
    requires |g'| == |m| == |g| && rest != [] && rest[0] < |g| && rest[0] != r
    requires forall a | 0 <= a < |g| && a != r :: PartlyDetached(g, m, r, done, rest, a)
    requires forall a | 0 <= a < |g| && a != rest[0] :: g'[a] == m[a]
    requires g'[rest[0]] == m[rest[0]].(adjacent := g'[rest[0]].adjacent, flags := m[rest[0]].flags + {Fragmented})
    requires multiset(g'[rest[0]].adjacent) == multiset(m[rest[0]].adjacent) - multiset{r}
    ensures forall a | 0 <= a < |g| && a != r :: PartlyDetached(g, g', r, done + [rest[0]], rest[1..], a)
  {
    assert rest == [rest[0]] + rest[1..];
    forall a | 0 <= a < |g| && a != r ensures PartlyDetached(g, g', r, done + [rest[0]], rest[1..], a) {
      assert PartlyDetached(g, m, r, done, rest, a);
    }
  }

  lemma DetachEnd(g: seq<Region>, m: seq<Region>, g': seq<Region>, capacity: nat, r: nat)
    requires WellLinked(g, capacity) && r < |g| == |m| && m[r] == g[r]
    requires forall a | 0 <= a < |g| && a != r :: PartlyDetached(g, m, r, g[r].adjacent, [], a)
    requires g' == m[r := m[r].(adjacent := [], flags := m[r].flags + {Saturated})]
    ensures IsSaturation(g, g', r)
  {
    forall a | 0 <= a < |g| && a != r
      ensures && g'[a] == g[a].(adjacent := g'[a].adjacent,
                                flags := g[a].flags + if Lists(g, a, r) then {Fragmented} else {})
              && multiset(g'[a].adjacent) == multiset(g[a].adjacent)[r := 0]
    {
      LinkedSymmetric(g, capacity, a, r);
      assert PartlyDetached(g, m, r, g[r].adjacent, [], a);
    }
  }

  ghost predicate IsMadeAdjacent(g: seq<Region>, g': seq<Region>, capacity: nat, a: nat, b: nat)
    requires a < |g| && b < |g|
  {
    if Lists(g, a, b) then
      g' == g
    else if Saturated in g[a].flags then
      g' == AddFlag(g, b, Fragmented)
    else if Saturated in g[b].flags then
      g' == AddFlag(g, a, Fragmented)
    else if |g[a].adjacent| == capacity && |g[b].adjacent| == capacity then
      exists m, m' ::
        && IsSaturation(g, m, a)
        && IsSaturation(AddFlag(m, b, Fragmented), m', b)
        && g' == AddFlag(m', a, Fragmented)
    else if |g[a].adjacent| == capacity then
      exists m :: IsSaturation(g, m, a) && g' == AddFlag(m, b, Fragmented)
    else if |g[b].adjacent| == capacity then
      exists m :: IsSaturation(g, m, b) && g' == AddFlag(m, a, Fragmented)
    else
      g' == g[a := g[a].(adjacent := g[a].adjacent + [b])][b := g[b].(adjacent := g[b].adjacent + [a])]
  }

  /** The links of r2 that survive the removal of common neighbours, as the loop at
      segment.c:293 leaves them: it overwrites slot i with the last entry and still
      moves on to slot i + 1. */
  function Retained(links: seq<nat>, common: seq<nat>, i: nat): seq<nat>
    decreases |links| - i
  {
    if i >= |links| then links
    else if links[i] in common then Retained(SwapRemove(links, i), common, i + 1)
    else Retained(links, common, i + 1)
  }

  /** The loop loses no neighbour that is not common, and adds none. */
  lemma {:induction false} RetainedKeeps(links: seq<nat>, common: seq<nat>, i: nat)
    ensures multiset(Retained(links, common, i)) <= multiset(links)
    ensures forall a | a !in common :: multiset(Retained(links, common, i))[a] == multiset(links)[a]
    decreases |links| - i
  {
    if i < |links| {
      RetainedKeeps(if links[i] in common then SwapRemove(links, i) else links, common, i + 1);
    }
  }

  ghost predicate Overflows(g: seq<Region>, capacity: nat, r1: nat, r2: nat)
    requires r1 < |g| && r2 < |g|
  {
    || Saturated in g[r1].flags
    || Saturated in g[r2].flags
    || |g[r1].adjacent| + |Retained(g[r2].adjacent, g[r1].adjacent, 0)| > capacity
  }

  function Min(a: int, b: int): int { if b < a then b else a }
  function Max(a: int, b: int): int { if b > a then b else a }

  /** The links of the region that r1 and r2 are merged into. */
  ghost function MergedLinks(g: seq<Region>, capacity: nat, r1: nat, r2: nat): seq<nat>
    requires r1 < |g| && r2 < |g|
  {
    if Overflows(g, capacity, r1, r2) then []
    else g[r1].adjacent + Retained(g[r2].adjacent, g[r1].adjacent, 0)
  }

  ghost function MergedRegion(g: seq<Region>, capacity: nat, r1: nat, r2: nat): Region
    requires r1 < |g| && r2 < |g|
  {
    g[r1].(adjacent := MergedLinks(g, capacity, r1, r2),
           flags := g[r1].flags + g[r2].flags + if Overflows(g, capacity, r1, r2) then {Saturated} else {},
           left := Min(g[r1].left, g[r2].left), top := Min(g[r1].top, g[r2].top),
           right := Max(g[r1].right, g[r2].right), bottom := Max(g[r1].bottom, g[r2].bottom))
  }

  /** What a bystander of the merger of r2 into r1 becomes. */
  ghost predicate IsRelinked(g: seq<Region>, g': seq<Region>, capacity: nat, r1: nat, r2: nat, a: nat)
    requires r1 < |g| && r2 < |g| && a < |g| == |g'|
  {
    && g'[a] == g[a].(adjacent := g'[a].adjacent,
                      flags := g[a].flags + if Overflows(g, capacity, r1, r2) && (Lists(g, a, r1) || Lists(g, a, r2))
                                            then {Fragmented} else {})
    && |g'[a].adjacent| <= |g[a].adjacent|
    && multiset(g'[a].adjacent)
       == multiset(g[a].adjacent)[r2 := 0][r1 := multiset(MergedLinks(g, capacity, r1, r2))[a]]
  }

  ghost predicate IsMerger(g: seq<Region>, g': seq<Region>, capacity: nat, r1: nat, r2: nat)
    requires r1 < |g| && r2 < |g|
  {
    && |g'| == |g|
    && g'[r1] == MergedRegion(g, capacity, r1, r2)
    && g'[r2] == g[r2].(adjacent := [],
                        flags := g[r2].flags + if Overflows(g, capacity, r1, r2) then {Saturated} else {})
    && forall a | 0 <= a < |g| && a != r1 && a != r2 :: IsRelinked(g, g', capacity, r1, r2, a)
  }

  // ----- the stages of a merger

  ghost predicate UnsharedAt(g: seq<Region>, u: seq<Region>, r2: nat, now: seq<nat>, a: nat)
    requires a < |g| == |u|
  {
    && u[a] == g[a].(adjacent := u[a].adjacent)
    && |u[a].adjacent| <= |g[a].adjacent|
    && multiset(u[a].adjacent) == multiset(g[a].adjacent)[r2 := multiset(now)[a]]
  }

  /** Common neighbours are being removed; now is what is left of the list of r2. */
  ghost predicate Unshared(g: seq<Region>, u: seq<Region>, r1: nat, r2: nat, now: seq<nat>)
    requires r1 < |g| && r2 < |g|
  {
    && |u| == |g|
    && u[r1] == g[r1] && u[r2] == g[r2].(adjacent := now)
    && forall a | 0 <= a < |g| && a != r1 && a != r2 :: UnsharedAt(g, u, r2, now, a)
  }

  lemma UnsharedStart(g: seq<Region>, capacity: nat, r1: nat, r2: nat)
    requires WellLinked(g, capacity) && r1 < |g| && r2 < |g|
    ensures Unshared(g, g, r1, r2, g[r2].adjacent)
  {
    forall a | 0 <= a < |g| && a != r1 && a != r2 ensures UnsharedAt(g, g, r2, g[r2].adjacent, a) {
      assert Mult(g, a, r2) == Mult(g, r2, a);
      assert multiset(g[a].adjacent) == multiset(g[a].adjacent)[r2 := multiset(g[r2].adjacent)[a]];
    }
  }

  lemma UnsharedStep(g: seq<Region>, m: seq<Region>, g': seq<Region>, r1: nat, r2: nat, now: seq<nat>, i: nat)
    requires r1 < |g| && r2 < |g| && r1 != r2 && Unshared(g, m, r1, r2, now) && i < |now| && |g'| == |g|
    requires var a := now[i]; a < |g| && a != r1 && a != r2
    requires forall a | 0 <= a < |g| && a != now[i] && a != r2 :: g'[a] == m[a]
    requires g'[r2] == m[r2].(adjacent := SwapRemove(now, i))
    requires g'[now[i]] == m[now[i]].(adjacent := g'[now[i]].adjacent)
    requires |g'[now[i]].adjacent| == |m[now[i]].adjacent| - 1
    requires multiset(g'[now[i]].adjacent) == multiset(m[now[i]].adjacent) - multiset{r2}
    ensures Unshared(g, g', r1, r2, SwapRemove(now, i))
  {
    var next := SwapRemove(now, i);
    assert now[i] in multiset(now);
    forall a | 0 <= a < |g| && a != r1 && a != r2 ensures UnsharedAt(g, g', r2, next, a) {
      assert UnsharedAt(g, m, r2, now, a);
    }
  }

  lemma UnsharedMult(g: seq<Region>, u: seq<Region>, capacity: nat, r1: nat, r2: nat, now: seq<nat>, a: nat, b: nat)
    requires WellLinked(g, capacity) && Live(g, r1) && Live(g, r2) && r1 != r2 && g[r1].colour == g[r2].colour
    requires Unshared(g, u, r1, r2, now) && multiset(now) <= multiset(g[r2].adjacent) && a < |g| && b < |g|
    ensures Mult(u, a, b) == if a == r2 then multiset(now)[b] else if b == r2 then multiset(now)[a] else Mult(g, a, b)
    ensures Mult(u, a, b) <= Mult(g, a, b)
  {
    assert !Lists(g, r1, r2) && !Lists(g, r2, r1) && !Lists(g, r2, r2);
    assert Mult(g, a, b) == Mult(g, b, a);
    ListsMult(g, r2, r1);
    ListsMult(g, r1, r2);
    ListsMult(g, r2, r2);
    if a != r1 && a != r2 { assert UnsharedAt(g, u, r2, now, a); }
  }

  lemma UnsharedKeepsWellLinked(g: seq<Region>, u: seq<Region>, capacity: nat, r1: nat, r2: nat, now: seq<nat>)
    requires WellLinked(g, capacity) && Live(g, r1) && Live(g, r2) && r1 != r2 && g[r1].colour == g[r2].colour
    requires Unshared(g, u, r1, r2, now) && multiset(now) <= multiset(g[r2].adjacent)
    ensures WellLinked(u, capacity)
    ensures forall a, b | Lists(u, a, b) :: Lists(g, a, b)
    ensures forall a | 0 <= a < |g| :: Mult(u, r2, a) == multiset(now)[a]
  {
    SubMultisetLength(now, g[r2].adjacent);
    forall a | 0 <= a < |g|
      ensures |u[a].adjacent| <= |g[a].adjacent| && u[a].flags == g[a].flags && u[a].colour == g[a].colour
      ensures Untouched(u[a])
    {
      assert Untouched(g[a]);
      if a != r1 && a != r2 { assert UnsharedAt(g, u, r2, now, a); }
    }
    forall a, b | 0 <= a < |g| && 0 <= b < |g| ensures Mult(u, a, b) == Mult(u, b, a) {
      UnsharedMult(g, u, capacity, r1, r2, now, a, b);
      UnsharedMult(g, u, capacity, r1, r2, now, b, a);
      assert Mult(g, a, b) == Mult(g, b, a);
    }
    forall a, b | Lists(u, a, b) ensures Lists(g, a, b) {
      UnsharedLists(g, u, capacity, r1, r2, now, a, b);
    }
    forall a | 0 <= a < |g| ensures Mult(u, r2, a) == multiset(now)[a] {
      UnsharedMult(g, u, capacity, r1, r2, now, r2, a);
    }
  }

  lemma UnsharedLists(g: seq<Region>, u: seq<Region>, capacity: nat, r1: nat, r2: nat, now: seq<nat>, a: nat, b: nat)
    requires WellLinked(g, capacity) && Live(g, r1) && Live(g, r2) && r1 != r2 && g[r1].colour == g[r2].colour
    requires Unshared(g, u, r1, r2, now) && multiset(now) <= multiset(g[r2].adjacent) && Lists(u, a, b)
    ensures Lists(g, a, b)
  {
    assert b in multiset(u[a].adjacent);
    if a == r2 {
      assert b in multiset(now) && b in multiset(g[r2].adjacent);
    } else if a != r1 {
      assert UnsharedAt(g, u, r2, now, a);
      if b == r2 {
        UnsharedMult(g, u, capacity, r1, r2, now, a, b);
        ListsMult(u, a, b);
        ListsMult(g, a, b);
      } else {
        assert b in multiset(g[a].adjacent);
      }
    }
  }

  /** Both r and s have overflowed. */
  ghost predicate DoublySaturated(u: seq<Region>, g': seq<Region>, r: nat, s: nat)
    requires r < |u| && s < |u|
  {
    && |g'| == |u|
    && g'[r] == u[r].(adjacent := [], flags := u[r].flags + {Saturated})
    && g'[s] == u[s].(adjacent := [], flags := u[s].flags + {Saturated})
    && forall a | 0 <= a < |u| && a != r && a != s ::
         && g'[a] == u[a].(adjacent := g'[a].adjacent,
                           flags := u[a].flags + if Lists(u, a, r) || Lists(u, a, s) then {Fragmented} else {})
         && multiset(g'[a].adjacent) == multiset(u[a].adjacent)[r := 0][s := 0]
  }

  lemma TwoSaturations(u: seq<Region>, m: seq<Region>, g': seq<Region>, r: nat, s: nat)
    requires r < |u| && s < |u| && r != s && !Lists(u, r, s) && !Lists(u, s, r)
    requires IsSaturation(u, m, r) && IsSaturation(m, g', s)
    ensures DoublySaturated(u, g', r, s) && DoublySaturated(u, g', s, r)
  {
    assert !Lists(m, r, s);
    assert g'[r] == m[r].(adjacent := g'[r].adjacent, flags := m[r].flags);
    assert multiset(g'[r].adjacent) == multiset{};
    assert |multiset(g'[r].adjacent)| == |g'[r].adjacent|;
    assert multiset(m[s].adjacent) == multiset(u[s].adjacent)[r := 0];
    forall a | 0 <= a < |u| && a != r && a != s
      ensures Lists(m, a, s) <==> Lists(u, a, s)
      ensures multiset(g'[a].adjacent) == multiset(u[a].adjacent)[r := 0][s := 0]
              == multiset(u[a].adjacent)[s := 0][r := 0]
    {
      assert s in multiset(m[a].adjacent) <==> s in multiset(u[a].adjacent);
    }
  }

  /** A saturated region that nobody lists is its own saturation. */
  lemma AlreadySaturated(g: seq<Region>, r: nat)
    requires r < |g| && Saturated in g[r].flags && g[r].adjacent == []
    requires forall a | 0 <= a < |g| :: !Lists(g, a, r)
    ensures IsSaturation(g, g, r)
  {
    assert g[r].flags + {Saturated} == g[r].flags;
    forall a | 0 <= a < |g| && a != r ensures multiset(g[a].adjacent) == multiset(g[a].adjacent)[r := 0] {
      ListsMult(g, a, r);
    }
  }

  /** The fields of r1 that merge_regions combines after the links have been settled. */
  function Combined(m: seq<Region>, r1: nat, r2: nat): Region
    requires r1 < |m| && r2 < |m|
  {
    m[r1].(flags := m[r1].flags + m[r2].flags,
           left := Min(m[r1].left, m[r2].left), top := Min(m[r1].top, m[r2].top),
           right := Max(m[r1].right, m[r2].right), bottom := Max(m[r1].bottom, m[r2].bottom))
  }

  lemma MergerBySaturation(g: seq<Region>, u: seq<Region>, m: seq<Region>, capacity: nat, r1: nat, r2: nat,
                           now: seq<nat>)
    requires WellLinked(g, capacity) && Live(g, r1) && Live(g, r2) && r1 != r2 && g[r1].colour == g[r2].colour
    requires Unshared(g, u, r1, r2, now) && multiset(now) <= multiset(g[r2].adjacent)
    requires forall a | a !in g[r1].adjacent :: multiset(now)[a] == multiset(g[r2].adjacent)[a]
    requires DoublySaturated(u, m, r1, r2) && Overflows(g, capacity, r1, r2)
    ensures IsMerger(g, m[r1 := Combined(m, r1, r2)], capacity, r1, r2)
  {
    var g' := m[r1 := Combined(m, r1, r2)];
    UnsharedKeepsWellLinked(g, u, capacity, r1, r2, now);
    assert g[r1].flags + {Saturated} + (g[r2].flags + {Saturated}) == g[r1].flags + g[r2].flags + {Saturated};
    forall a | 0 <= a < |g| && a != r1 && a != r2 ensures IsRelinked(g, g', capacity, r1, r2, a) {
      assert UnsharedAt(g, u, r2, now, a);
      ListsMult(u, a, r1);
      ListsMult(u, a, r2);
      ListsMult(g, a, r1);
      ListsMult(g, a, r2);
      assert Mult(g, a, r1) == Mult(g, r1, a);
      assert Mult(g, a, r2) == Mult(g, r2, a);
      ListsMult(g, r1, a);
      SubMultisetLength(m[a].adjacent, u[a].adjacent);
    }
  }

  ghost predicate TransferredAt(u: seq<Region>, m: seq<Region>, r1: nat, r2: nat, links: seq<nat>, rest: seq<nat>,
                                a: nat)
    requires a < |u| == |m|
  {
    && m[a] == u[a].(adjacent := m[a].adjacent)
    && |m[a].adjacent| == |u[a].adjacent|
    && multiset(m[a].adjacent) == multiset(u[a].adjacent)[r2 := multiset(rest)[a]][r1 := multiset(links)[a]]
  }

  /** The links of r2 are being handed over; links is the list of r1 so far, rest is what
      is still to come. */
  ghost predicate Transferred(u: seq<Region>, m: seq<Region>, r1: nat, r2: nat, links: seq<nat>, rest: seq<nat>)
    requires r1 < |u| && r2 < |u|
  {
    && |m| == |u|
    && m[r1] == u[r1].(adjacent := links) && m[r2] == u[r2]
    && forall a | 0 <= a < |u| && a != r1 && a != r2 :: TransferredAt(u, m, r1, r2, links, rest, a)
  }

  lemma TransferStart(u: seq<Region>, capacity: nat, r1: nat, r2: nat)
    requires WellLinked(u, capacity) && r1 < |u| && r2 < |u|
    ensures Transferred(u, u, r1, r2, u[r1].adjacent, u[r2].adjacent)
  {
    forall a | 0 <= a < |u| && a != r1 && a != r2
      ensures TransferredAt(u, u, r1, r2, u[r1].adjacent, u[r2].adjacent, a)
    {
      assert Mult(u, a, r1) == Mult(u, r1, a) && Mult(u, a, r2) == Mult(u, r2, a);
      assert multiset(u[a].adjacent)
             == multiset(u[a].adjacent)[r2 := multiset(u[r2].adjacent)[a]][r1 := multiset(u[r1].adjacent)[a]];
    }
  }

  lemma TransferStep(u: seq<Region>, m: seq<Region>, g': seq<Region>, r1: nat, r2: nat, links: seq<nat>, rest: seq<nat>)
    requires r1 < |u| && r2 < |u| && r1 != r2 && Transferred(u, m, r1, r2, links, rest) && rest != [] && |g'| == |u|
    requires rest[0] < |u| && rest[0] != r1 && rest[0] != r2
    requires forall a | 0 <= a < |u| && a != rest[0] && a != r1 :: g'[a] == m[a]
    requires g'[r1] == m[r1].(adjacent := links + [rest[0]])
    requires g'[rest[0]] == m[rest[0]].(adjacent := g'[rest[0]].adjacent)
    requires |g'[rest[0]].adjacent| == |m[rest[0]].adjacent|
    requires multiset(g'[rest[0]].adjacent) == multiset(m[rest[0]].adjacent) - multiset{r2} + multiset{r1}
    ensures Transferred(u, g', r1, r2, links + [rest[0]], rest[1..])
  {
    var a0 := rest[0];
    HeadCount(rest);
    LastCount(links, a0);
    forall a | 0 <= a < |u| && a != r1 && a != r2
      ensures TransferredAt(u, g', r1, r2, links + [a0], rest[1..], a)
    {
      assert TransferredAt(u, m, r1, r2, links, rest, a);
      if a == a0 {
        Handover(multiset(u[a].adjacent), r1, r2, multiset(rest)[a], multiset(links)[a]);
      }
    }
  }

  lemma HeadCount(s: seq<nat>)
    requires s != []
    ensures forall a :: multiset(s)[a] == multiset(s[1..])[a] + if a == s[0] then 1 else 0
  {
    assert s == [s[0]] + s[1..];
  }

  lemma LastCount(s: seq<nat>, x: nat)
    ensures forall a :: multiset(s + [x])[a] == multiset(s)[a] + if a == x then 1 else 0
  {
  }

  lemma Handover(x: multiset<nat>, r1: nat, r2: nat, n: nat, k: nat)
    requires r1 != r2 && n > 0
    ensures x[r2 := n][r1 := k] - multiset{r2} + multiset{r1} == x[r2 := n - 1][r1 := k + 1]
  {
  }

  lemma MergerByTransfer(g: seq<Region>, u: seq<Region>, m: seq<Region>, capacity: nat, r1: nat, r2: nat)
    requires WellLinked(g, capacity) && Live(g, r1) && Live(g, r2) && r1 != r2 && g[r1].colour == g[r2].colour
    requires Unshared(g, u, r1, r2, Retained(g[r2].adjacent, g[r1].adjacent, 0)) && !Overflows(g, capacity, r1, r2)
    requires Transferred(u, m, r1, r2, MergedLinks(g, capacity, r1, r2), [])
    ensures var m' := m[r2 := m[r2].(adjacent := [])];
            IsMerger(g, m'[r1 := Combined(m', r1, r2)], capacity, r1, r2)
  {
    var m' := m[r2 := m[r2].(adjacent := [])];
    var g' := m'[r1 := Combined(m', r1, r2)];
    assert g[r1].flags + g[r2].flags == g[r1].flags + g[r2].flags + {};
    assert g[r2].flags == g[r2].flags + {};
    forall a | 0 <= a < |g| && a != r1 && a != r2 ensures IsRelinked(g, g', capacity, r1, r2, a) {
      assert UnsharedAt(g, u, r2, Retained(g[r2].adjacent, g[r1].adjacent, 0), a);
      assert TransferredAt(u, m, r1, r2, MergedLinks(g, capacity, r1, r2), [], a);
      assert g[a].flags == g[a].flags + {};
    }
  }

  // ----- what a step keeps

  /** Nothing but links and the two overflow flags changed, and no pair of regions
      that was linked has been forgotten. */
  ghost predicate KeepsLinks(g: seq<Region>, g': seq<Region>) {
    && |g'| == |g|
    && (forall r | 0 <= r < |g| ::
          && g'[r] == g[r].(adjacent := g'[r].adjacent, flags := g'[r].flags)
          && g[r].flags <= g'[r].flags <= g[r].flags + {Saturated, Fragmented})
    && (forall a, b | 0 <= a < |g| && 0 <= b < |g| && Linked(g, a, b) :: Linked(g', a, b))
  }

  lemma KeepsLinksTrans(g: seq<Region>, m: seq<Region>, g': seq<Region>)
    requires KeepsLinks(g, m) && KeepsLinks(m, g')
    ensures KeepsLinks(g, g')
  {
  }

  lemma LinkedStays(g: seq<Region>, g': seq<Region>, a: nat, b: nat)
    requires KeepsLinks(g, g') && a < |g| && b < |g| && Linked(g, a, b)
    ensures |g'| == |g| && Linked(g', a, b)
  {
  }

  lemma MergerSize(g: seq<Region>, g': seq<Region>, capacity: nat, r1: nat, r2: nat)
    requires r1 < |g| && r2 < |g| && IsMerger(g, g', capacity, r1, r2)
    ensures |g'| == |g|
  {
  }

  lemma AddFlagKeeps(g: seq<Region>, capacity: nat, r: nat, flag: Flag)
    requires WellLinked(g, capacity) && r < |g| && flag == Fragmented
    ensures WellLinked(AddFlag(g, r, flag), capacity)
    ensures KeepsLinks(g, AddFlag(g, r, flag))
  {
    var g' := AddFlag(g, r, flag);
    forall a, b | 0 <= a < |g| && 0 <= b < |g|
      ensures Mult(g', a, b) == Mult(g', b, a)
    {
      assert Mult(g, a, b) == Mult(g, b, a);
    }
    forall a, b | Lists(g', a, b) ensures b < |g| && g'[b].colour != g'[a].colour
    {
      assert Lists(g, a, b);
    }
  }

  lemma SubMultisetLength(s: seq<nat>, t: seq<nat>)
    requires multiset(s) <= multiset(t)
    ensures |s| <= |t|
  {
    assert |multiset(s)| == |s| && |multiset(t)| == |t|;
    assert multiset(t) == multiset(s) + (multiset(t) - multiset(s));
  }

  lemma SaturationKeeps(g: seq<Region>, g': seq<Region>, capacity: nat, r: nat)
    requires WellLinked(g, capacity) && r < |g| && Free !in g[r].flags && IsSaturation(g, g', r)
    ensures WellLinked(g', capacity)
    ensures KeepsLinks(g, g')
    ensures forall a, b | Lists(g', a, b) :: Lists(g, a, b)
    ensures forall a | 0 <= a < |g| :: !Lists(g', a, r)
  {
    forall a | 0 <= a < |g|
      ensures |g'[a].adjacent| <= capacity
      ensures Saturated in g'[a].flags || Free in g'[a].flags ==> g'[a].adjacent == []
    {
      SubMultisetLength(g'[a].adjacent, g[a].adjacent);
    }
    forall a, b | 0 <= a < |g| && 0 <= b < |g|
      ensures Mult(g', a, b) == Mult(g', b, a)
      ensures Mult(g', a, b) == if a == r || b == r then 0 else Mult(g, a, b)
    {
      assert Mult(g, a, b) == Mult(g, b, a);
    }
    forall a, b | Lists(g', a, b) ensures Lists(g, a, b)
    {
      assert b in multiset(g'[a].adjacent);
      assert b in multiset(g[a].adjacent);
    }
    forall a, b | 0 <= a < |g| && 0 <= b < |g| && Linked(g, a, b) ensures Linked(g', a, b)
    {
      if Lists(g, a, b) {
        LinkedSymmetric(g, capacity, a, b);
        ListsMult(g, a, b);
        ListsMult(g', a, b);
      }
    }
    forall a | 0 <= a < |g| ensures !Lists(g', a, r)
    {
      ListsMult(g', a, r);
      assert Mult(g', a, r) == 0;
    }
  }

  /** After make_adjacent the graph is still well linked, it has forgotten nothing,
      it knows about the new pair, and it lists no other new pair. */
  lemma MadeAdjacentKeeps(g: seq<Region>, g': seq<Region>, capacity: nat, a: nat, b: nat)
    requires WellLinked(g, capacity) && Live(g, a) && Live(g, b) && g[a].colour != g[b].colour
    requires IsMadeAdjacent(g, g', capacity, a, b)
    ensures WellLinked(g', capacity)
    ensures KeepsLinks(g, g')
    ensures Linked(g', a, b)
    ensures forall x, y | Lists(g', x, y) :: Lists(g, x, y) || (x == a && y == b) || (x == b && y == a)
  {
    if Lists(g, a, b) {
    } else if Saturated in g[a].flags {
      AddFlagKeeps(g, capacity, b, Fragmented);
    } else if Saturated in g[b].flags {
      AddFlagKeeps(g, capacity, a, Fragmented);
    } else if |g[a].adjacent| == capacity && |g[b].adjacent| == capacity {
      var m, m' :| && IsSaturation(g, m, a)
                   && IsSaturation(AddFlag(m, b, Fragmented), m', b)
                   && g' == AddFlag(m', a, Fragmented);
      SaturatedPairKeeps(g, m, capacity, a, b);
      SaturationKeeps(AddFlag(m, b, Fragmented), m', capacity, b);
      AddFlagKeeps(m', capacity, a, Fragmented);
      KeepsLinksTrans(g, AddFlag(m, b, Fragmented), m');
      KeepsLinksTrans(g, m', g');
      OnlyFlagged(m', a);
    } else if |g[a].adjacent| == capacity {
      var m :| IsSaturation(g, m, a) && g' == AddFlag(m, b, Fragmented);
      SaturatedPairKeeps(g, m, capacity, a, b);
    } else if |g[b].adjacent| == capacity {
      var m :| IsSaturation(g, m, b) && g' == AddFlag(m, a, Fragmented);
      SaturatedPairKeeps(g, m, capacity, b, a);
    } else {
      LinkKeeps(g, g', capacity, a, b);
    }
  }

  lemma OnlyFlagged(g: seq<Region>, r: nat)
    requires r < |g|
    ensures forall x, y | Lists(AddFlag(g, r, Fragmented), x, y) :: Lists(g, x, y)
  {
  }

  lemma SaturatedPairKeeps(g: seq<Region>, m: seq<Region>, capacity: nat, full: nat, other: nat)
    requires WellLinked(g, capacity) && full < |g| && other < |g| && full != other
    requires Free !in g[full].flags && IsSaturation(g, m, full)
    ensures var g' := AddFlag(m, other, Fragmented);
            && WellLinked(g', capacity) && KeepsLinks(g, g') && Linked(g', full, other)
            && forall x, y | Lists(g', x, y) :: Lists(g, x, y)
  {
    SaturationKeeps(g, m, capacity, full);
    AddFlagKeeps(m, capacity, other, Fragmented);
    KeepsLinksTrans(g, m, AddFlag(m, other, Fragmented));
    OnlyFlagged(m, other);
  }

  lemma LinkKeeps(g: seq<Region>, g': seq<Region>, capacity: nat, a: nat, b: nat)
    requires WellLinked(g, capacity) && Live(g, a) && Live(g, b) && g[a].colour != g[b].colour
    requires Saturated !in g[a].flags && Saturated !in g[b].flags
    requires |g[a].adjacent| < capacity && |g[b].adjacent| < capacity && !Lists(g, a, b)
    requires g' == g[a := g[a].(adjacent := g[a].adjacent + [b])][b := g[b].(adjacent := g[b].adjacent + [a])]
    ensures WellLinked(g', capacity)
    ensures KeepsLinks(g, g')
    ensures Linked(g', a, b)
    ensures forall x, y | Lists(g', x, y) :: Lists(g, x, y) || (x == a && y == b) || (x == b && y == a)
  {
    assert forall x | 0 <= x < |g| && x != a && x != b :: g'[x] == g[x];
    assert g'[a].adjacent == g[a].adjacent + [b] && g'[b].adjacent == g[b].adjacent + [a];
    forall x, y | 0 <= x < |g| && 0 <= y < |g| ensures Mult(g', x, y) == Mult(g', y, x) {
      assert Mult(g, x, y) == Mult(g, y, x);
      LinkMult(g, g', a, b, x, y);
      LinkMult(g, g', a, b, y, x);
    }
    forall x, y | Lists(g', x, y) ensures Lists(g, x, y) || (x == a && y == b) || (x == b && y == a) {}
  }

  lemma LinkMult(g: seq<Region>, g': seq<Region>, a: nat, b: nat, x: nat, y: nat)
    requires a < |g| && b < |g| && a != b && x < |g|
    requires g' == g[a := g[a].(adjacent := g[a].adjacent + [b])][b := g[b].(adjacent := g[b].adjacent + [a])]
    ensures Mult(g', x, y) == Mult(g, x, y) + if (x == a && y == b) || (x == b && y == a) then 1 else 0
  {
  }

  // ----- merging

  ghost function Renamed(a: nat, r1: nat, r2: nat): nat { if a == r2 then r1 else a }

  lemma MergerFree(g: seq<Region>, capacity: nat, r1: nat, r2: nat)
    requires WellLinked(g, capacity) && Live(g, r1) && Live(g, r2) && r1 != r2 && g[r1].colour == g[r2].colour
    ensures !Lists(g, r1, r2) && !Lists(g, r2, r1)
    ensures forall a | a in MergedLinks(g, capacity, r1, r2) ::
              a < |g| && a != r1 && a != r2 && g[a].colour != g[r1].colour
    ensures forall a | 0 <= a < |g| && !Overflows(g, capacity, r1, r2) && (Lists(g, r1, a) || Lists(g, r2, a)) ::
              a in MergedLinks(g, capacity, r1, r2)
    ensures |MergedLinks(g, capacity, r1, r2)| <= capacity
  {
    assert !Lists(g, r1, r2) && !Lists(g, r2, r1);
    var kept := Retained(g[r2].adjacent, g[r1].adjacent, 0);
    RetainedKeeps(g[r2].adjacent, g[r1].adjacent, 0);
    forall a | a in kept
      ensures Lists(g, r2, a)
    {
      assert a in multiset(kept);
      assert a in multiset(g[r2].adjacent);
    }
    forall a | Lists(g, r2, a) && !Lists(g, r1, a)
      ensures a in kept
    {
      assert a in multiset(g[r2].adjacent);
      assert multiset(kept)[a] == multiset(g[r2].adjacent)[a];
      assert a in multiset(kept);
    }
    forall a | a in MergedLinks(g, capacity, r1, r2)
      ensures a < |g| && a != r1 && a != r2 && g[a].colour != g[r1].colour
    {
      assert Lists(g, r1, a) || Lists(g, r2, a);
    }
  }

  lemma MergerMult(g: seq<Region>, g': seq<Region>, capacity: nat, r1: nat, r2: nat, a: nat, b: nat)
    requires WellLinked(g, capacity) && Live(g, r1) && Live(g, r2) && r1 != r2 && g[r1].colour == g[r2].colour
    requires IsMerger(g, g', capacity, r1, r2) && a < |g| && b < |g|
    ensures a == r2 || b == r2 ==> Mult(g', a, b) == 0
    ensures a == r1 && b != r2 ==> Mult(g', a, b) == multiset(MergedLinks(g, capacity, r1, r2))[b]
    ensures b == r1 && a != r2 ==> Mult(g', a, b) == multiset(MergedLinks(g, capacity, r1, r2))[a]
    ensures a != r1 && a != r2 && b != r1 && b != r2 ==> Mult(g', a, b) == Mult(g, a, b)
  {
    MergerFree(g, capacity, r1, r2);
    var ml := MergedLinks(g, capacity, r1, r2);
    assert r1 !in ml && r2 !in ml;
    assert r1 !in multiset(ml) && r2 !in multiset(ml);
    if a != r1 && a != r2 {
      assert IsRelinked(g, g', capacity, r1, r2, a);
    }
  }

  /** After merge_regions the graph is well linked, r2 is unlinked, every pair that
      was known is known of the merged region instead, and every listed pair stems
      from a pair that was listed. */
  lemma MergerKeeps(g: seq<Region>, g': seq<Region>, capacity: nat, r1: nat, r2: nat)
    requires WellLinked(g, capacity) && Live(g, r1) && Live(g, r2) && r1 != r2 && g[r1].colour == g[r2].colour
    requires IsMerger(g, g', capacity, r1, r2)
    ensures WellLinked(g', capacity)
    ensures forall a, b | 0 <= a < |g| && 0 <= b < |g| && g[a].colour != g[b].colour && Linked(g, a, b) ::
              Linked(g', Renamed(a, r1, r2), Renamed(b, r1, r2))
    ensures forall a, b | Lists(g', a, b) ::
              exists a0, b0 :: Lists(g, a0, b0) && Renamed(a0, r1, r2) == a && Renamed(b0, r1, r2) == b
    ensures forall a | 0 <= a < |g| :: !Lists(g', a, r2)
  {
    MergerFree(g, capacity, r1, r2);
    forall a, b | 0 <= a < |g| && 0 <= b < |g|
      ensures Mult(g', a, b) == Mult(g', b, a)
    {
      MergerMult(g, g', capacity, r1, r2, a, b);
      MergerMult(g, g', capacity, r1, r2, b, a);
      assert Mult(g, a, b) == Mult(g, b, a);
    }
    forall a | 0 <= a < |g| ensures !Lists(g', a, r2)
    {
      MergerMult(g, g', capacity, r1, r2, a, r2);
      ListsMult(g', a, r2);
    }
    forall a, b | Lists(g', a, b)
      ensures exists a0, b0 :: Lists(g, a0, b0) && Renamed(a0, r1, r2) == a && Renamed(b0, r1, r2) == b
      ensures b < |g| && g'[b].colour != g'[a].colour
    {
      MergerLists(g, g', capacity, r1, r2, a, b);
    }
    forall a | 0 <= a < |g|
      ensures |g'[a].adjacent| <= capacity
      ensures Saturated in g'[a].flags || Free in g'[a].flags ==> g'[a].adjacent == []
      ensures Untouched(g'[a])
    {
      MergerLength(g, g', capacity, r1, r2, a);
      assert Untouched(g[a]) && Untouched(g[r1]) && Untouched(g[r2]);
      if a != r1 && a != r2 { assert IsRelinked(g, g', capacity, r1, r2, a); }
    }
    forall a, b | 0 <= a < |g| && 0 <= b < |g| && g[a].colour != g[b].colour && Linked(g, a, b)
      ensures Linked(g', Renamed(a, r1, r2), Renamed(b, r1, r2))
    {
      MergerLinked(g, g', capacity, r1, r2, a, b);
    }
  }

  lemma MergerLists(g: seq<Region>, g': seq<Region>, capacity: nat, r1: nat, r2: nat, a: nat, b: nat)
    requires WellLinked(g, capacity) && Live(g, r1) && Live(g, r2) && r1 != r2 && g[r1].colour == g[r2].colour
    requires IsMerger(g, g', capacity, r1, r2) && Lists(g', a, b)
    ensures b < |g| && g'[b].colour != g'[a].colour
    ensures exists a0, b0 :: Lists(g, a0, b0) && Renamed(a0, r1, r2) == a && Renamed(b0, r1, r2) == b
  {
    MergerFree(g, capacity, r1, r2);
    var ml := MergedLinks(g, capacity, r1, r2);
    if a == r1 {
      assert b in ml;
      assert IsRelinked(g, g', capacity, r1, r2, b);
      var a0 := if Lists(g, r1, b) then r1 else r2;
      MergedFrom(g, capacity, r1, r2, b);
      assert Lists(g, a0, b) && Renamed(a0, r1, r2) == a && Renamed(b, r1, r2) == b;
    } else {
      assert a != r2;
      assert IsRelinked(g, g', capacity, r1, r2, a);
      assert b in multiset(g'[a].adjacent);
      if b == r1 {
        assert a in multiset(ml);
        assert a in ml;
        MergedFrom(g, capacity, r1, r2, a);
        var b0 := if Lists(g, r1, a) then r1 else r2;
        LinkedSymmetric(g, capacity, b0, a);
        assert Lists(g, a, b0) && Renamed(a, r1, r2) == a && Renamed(b0, r1, r2) == b;
      } else {
        assert b != r2;
        assert b in multiset(g[a].adjacent);
        assert Lists(g, a, b);
        assert IsRelinked(g, g', capacity, r1, r2, b);
        assert Lists(g, a, b) && Renamed(a, r1, r2) == a && Renamed(b, r1, r2) == b;
      }
    }
  }

  lemma MergedFrom(g: seq<Region>, capacity: nat, r1: nat, r2: nat, a: nat)
    requires r1 < |g| && r2 < |g| && a in MergedLinks(g, capacity, r1, r2)
    ensures Lists(g, r1, a) || Lists(g, r2, a)
  {
    var kept := Retained(g[r2].adjacent, g[r1].adjacent, 0);
    RetainedKeeps(g[r2].adjacent, g[r1].adjacent, 0);
    if a in kept {
      assert a in multiset(kept);
      assert a in multiset(g[r2].adjacent);
    }
  }

  lemma MergerLength(g: seq<Region>, g': seq<Region>, capacity: nat, r1: nat, r2: nat, a: nat)
    requires WellLinked(g, capacity) && Live(g, r1) && Live(g, r2) && r1 != r2 && g[r1].colour == g[r2].colour
    requires IsMerger(g, g', capacity, r1, r2) && a < |g|
    ensures |g'[a].adjacent| <= capacity
    ensures Saturated in g'[a].flags || Free in g'[a].flags ==> g'[a].adjacent == []
  {
    MergerFree(g, capacity, r1, r2);
    if a != r1 && a != r2 {
      assert IsRelinked(g, g', capacity, r1, r2, a);
    }
  }

  lemma MergerLinked(g: seq<Region>, g': seq<Region>, capacity: nat, r1: nat, r2: nat, a: nat, b: nat)
    requires WellLinked(g, capacity) && Live(g, r1) && Live(g, r2) && r1 != r2 && g[r1].colour == g[r2].colour
    requires IsMerger(g, g', capacity, r1, r2)
    requires a < |g| && b < |g| && g[a].colour != g[b].colour && Linked(g, a, b)
    ensures Linked(g', Renamed(a, r1, r2), Renamed(b, r1, r2))
  {
    MergerFree(g, capacity, r1, r2);
    var a', b' := Renamed(a, r1, r2), Renamed(b, r1, r2);
    if a != r1 && a != r2 { assert IsRelinked(g, g', capacity, r1, r2, a); }
    if b != r1 && b != r2 { assert IsRelinked(g, g', capacity, r1, r2, b); }
    assert g[a].flags <= g'[a'].flags && g[b].flags <= g'[b'].flags;
    if Lists(g, a, b) {
      LinkedSymmetric(g, capacity, a, b);
      MergerMult(g, g', capacity, r1, r2, a', b');
      ListsMult(g', a', b');
      ListsMult(g, a, b);
      var ml := MergedLinks(g, capacity, r1, r2);
      if a' == r1 && !Overflows(g, capacity, r1, r2) {
        assert b in ml && b in multiset(ml);
      } else if b' == r1 && !Overflows(g, capacity, r1, r2) {
        assert a in ml && a in multiset(ml);
      }
    }
  }
}
