/** How the references given to the pixels lead to regions, and what each step of the
    scan does to the pools. */
module Storage {
  import opened Options
  import opened Regions
  import opened Pixels
  import opened Components
  import opened References
  import opened RegionGraph

  /** The reference each scanned pixel was given leads to the region it is labelled with. */
  ghost predicate Led(refs: seq<RegionReference>, root: seq<nat>, given: map<Pixel, nat>, reg: Labelling) {
    && given.Keys == reg.Keys
    && |root| == |refs|
    && (forall p | p in given :: given[p] < |refs| && root[given[p]] < |refs|
                                 && refs[root[given[p]]].region == Some(reg[p]))
  }

  ghost predicate Stored(refs: seq<RegionReference>, root: seq<nat>, rank: seq<nat>,
                         g: seq<Region>, owner: map<nat, nat>, head: Option<nat>, free: seq<nat>,
                         given: map<Pixel, nat>, reg: Labelling) {
    && Forest(refs, root, rank)
    && Owned(refs, g, owner)
    && FreeChain(g, head, free)
    && Led(refs, root, given, reg)
    && |g| <= |refs|
  }

  lemma StoredFacts(refs: seq<RegionReference>, root: seq<nat>, rank: seq<nat>,
                    g: seq<Region>, owner: map<nat, nat>, head: Option<nat>, free: seq<nat>,
                    given: map<Pixel, nat>, reg: Labelling)
    requires Stored(refs, root, rank, g, owner, head, free, given, reg)
    ensures given.Keys == reg.Keys && |root| == |refs|
    ensures forall p | p in given :: given[p] < |refs| && root[given[p]] < |refs|
                                     && IsRoot(refs, root[given[p]]) && refs[root[given[p]]].region == Some(reg[p])
    ensures forall k | IsRoot(refs, k) :: root[k] == k && refs[k].region.Some? && Live(g, refs[k].region.value)
  {
  }

  lemma ShorteningKeepsStored(refs: seq<RegionReference>, root: seq<nat>, rank: seq<nat>,
                              g: seq<Region>, owner: map<nat, nat>, head: Option<nat>, free: seq<nat>,
                              given: map<Pixel, nat>, reg: Labelling, k: nat)
    requires Stored(refs, root, rank, g, owner, head, free, given, reg) && k < |refs|
    ensures Stored(refs[k := refs[k].(redirect := root[k])], root, rank, g, owner, head, free, given, reg)
  {
    ShorteningKeepsForest(refs, root, rank, k);
    RedirectKeepsOwned(refs, refs[k := refs[k].(redirect := root[k])], g, owner, k, root[k]);
  }

  lemma SameFreedKeepsStored(refs: seq<RegionReference>, root: seq<nat>, rank: seq<nat>,
                             g: seq<Region>, g': seq<Region>, owner: map<nat, nat>, head: Option<nat>, free: seq<nat>,
                             given: map<Pixel, nat>, reg: Labelling)
    requires Stored(refs, root, rank, g, owner, head, free, given, reg) && SameFreed(g, g')
    ensures Stored(refs, root, rank, g', owner, head, free, given, reg)
  {
    SameFreedKeeps(refs, g, g', owner, head, free);
  }

  lemma AttachKeepsStored(refs: seq<RegionReference>, root: seq<nat>, rank: seq<nat>,
                          g: seq<Region>, owner: map<nat, nat>, head: Option<nat>, free: seq<nat>,
                          given: map<Pixel, nat>, reg: Labelling, c: Pixel, k: nat, r: nat)
    requires Stored(refs, root, rank, g, owner, head, free, given, reg)
    requires IsRoot(refs, k) && refs[k].region == Some(r)
    ensures Stored(refs, root, rank, g, owner, head, free, given[c := k], reg[c := r])
  {
    assert root[k] == k;
  }

  /** Two pixels have the same root exactly when they have the same region. */
  lemma RootsAndRegions(refs: seq<RegionReference>, root: seq<nat>, rank: seq<nat>,
                        g: seq<Region>, owner: map<nat, nat>, head: Option<nat>, free: seq<nat>,
                        given: map<Pixel, nat>, reg: Labelling, p: Pixel, q: Pixel)
    requires Stored(refs, root, rank, g, owner, head, free, given, reg) && p in given && q in given
    ensures root[given[p]] == root[given[q]] <==> reg[p] == reg[q]
  {
    assert IsRoot(refs, root[given[p]]) && IsRoot(refs, root[given[q]]);
  }

  // ----- new regions

  /** The region record that new_region fills in. */
  function FreshRegion(x: int, y: int, colour: nat, next: Option<nat>): Region {
    Region(colour, ToShort(x), ToShort(y), ToShort(x), ToShort(y), {},
           UNKNOWN_REGION_LEVEL, 0, 0, MAX_SHORT, next, [])
  }

  lemma NewKeepsOwned(refs: seq<RegionReference>, g: seq<Region>, g': seq<Region>, owner: map<nat, nat>,
                      r: nat, record: Region)
    requires Owned(refs, g, owner) && Vacant(g, r) && g' == PutRegion(g, r, record) && record.flags == {}
    ensures Owned(refs + [RegionReference(Some(r), |refs|)], g', owner[r := |refs|])
  {
    var refs' := refs + [RegionReference(Some(r), |refs|)];
    assert forall k | 0 <= k < |refs| :: IsRoot(refs', k) <==> IsRoot(refs, k);
    assert !Live(g, r);
    assert forall s | s != r :: Live(g', s) <==> Live(g, s);
  }

  lemma PopKeepsChain(g: seq<Region>, g': seq<Region>, head: Option<nat>, free: seq<nat>, record: Region)
    requires FreeChain(g, head, free) && free != [] && g' == g[free[0] := record] && record.flags == {}
    ensures FreeChain(g', g[free[0]].next, free[1..])
  {
    var rest := free[1..];
    assert g[free[0]].next == if 1 < |free| then Some(free[1]) else None;
    forall i | 0 <= i < |rest|
      ensures && rest[i] < |g'| && Free in g'[rest[i]].flags && g'[rest[i]].adjacent == []
              && g'[rest[i]].next == (if i + 1 < |rest| then Some(rest[i + 1]) else None)
    {
      assert rest[i] == free[i + 1] != free[0];
      assert Free in g[free[i + 1]].flags;
    }
    forall r | 0 <= r < |g'| && Free in g'[r].flags ensures r in rest {
      assert r in free && r != free[0];
    }
  }

  lemma AppendKeepsChain(g: seq<Region>, head: Option<nat>, free: seq<nat>, record: Region)
    requires FreeChain(g, head, free) && record.flags == {}
    ensures FreeChain(g + [record], head, free)
  {
    var g' := g + [record];
    forall i | 0 <= i < |free|
      ensures && free[i] < |g'| && Free in g'[free[i]].flags && g'[free[i]].adjacent == []
              && g'[free[i]].next == (if i + 1 < |free| then Some(free[i + 1]) else None)
    {
      assert Free in g[free[i]].flags;
    }
  }

  lemma NewKeepsLed(refs: seq<RegionReference>, root: seq<nat>, given: map<Pixel, nat>, reg: Labelling, region: nat)
    requires Led(refs, root, given, reg)
    ensures Led(refs + [RegionReference(Some(region), |refs|)], root + [|refs|], given, reg)
  {
  }

  // ----- freeing the region that was merged

  lemma PushKeepsChain(m: seq<Region>, g': seq<Region>, head: Option<nat>, free: seq<nat>, r: nat)
    requires FreeChain(m, head, free) && Live(m, r) && m[r].adjacent == []
    requires g' == m[r := m[r].(flags := {Free}, next := head)]
    ensures FreeChain(g', Some(r), [r] + free)
  {
    var all := [r] + free;
    forall i | 0 <= i < |all|
      ensures && all[i] < |g'| && Free in g'[all[i]].flags && g'[all[i]].adjacent == []
              && g'[all[i]].next == (if i + 1 < |all| then Some(all[i + 1]) else None)
    {
      if i > 0 {
        assert all[i] == free[i - 1];
        assert Free in m[free[i - 1]].flags;
      }
    }
    forall s | 0 <= s < |g'| && Free in g'[s].flags ensures s in all {
      if s != r { assert s in free; }
    }
  }

  lemma MergeKeepsOwned(refs: seq<RegionReference>, m: seq<Region>, g': seq<Region>, owner: map<nat, nat>,
                        from: nat, to: nat)
    requires Owned(refs, m, owner) && IsRoot(refs, from) && IsRoot(refs, to) && from != to
    requires IsFreed(m, g', refs[from].region.value)
    ensures Owned(refs[from := RegionReference(None, to)], g', owner - {refs[from].region.value})
  {
    var refs' := refs[from := RegionReference(None, to)];
    var r2 := refs[from].region.value;
    assert forall k :: IsRoot(refs', k) <==> IsRoot(refs, k) && k != from;
    assert forall s :: Live(g', s) <==> Live(m, s) && s != r2;
  }

  lemma MergeKeepsLed(refs: seq<RegionReference>, root: seq<nat>, rank: seq<nat>, m: seq<Region>, owner: map<nat, nat>,
                      given: map<Pixel, nat>, reg: Labelling, from: nat, to: nat)
    requires Forest(refs, root, rank) && Owned(refs, m, owner) && Led(refs, root, given, reg)
    requires IsRoot(refs, from) && IsRoot(refs, to) && from != to
    ensures Led(refs[from := RegionReference(None, to)], Rerooted(root, from, to), given,
                Relabelled(reg, refs[to].region.value, refs[from].region.value))
  {
    var r1, r2 := refs[to].region.value, refs[from].region.value;
    var refs', root' := refs[from := RegionReference(None, to)], Rerooted(root, from, to);
    forall p | p in given
      ensures root'[given[p]] < |refs'|
      ensures refs'[root'[given[p]]].region == Some(Relabelled(reg, r1, r2)[p])
    {
      var k := root[given[p]];
      assert IsRoot(refs, k);
      if reg[p] == r2 { assert owner[r2] == from == k; }
    }
  }

  /** Linking never frees a region, and freed regions stay unlinked. */
  lemma LinkKeepsFreed(g: seq<Region>, g': seq<Region>, capacity: nat)
    requires WellLinked(g, capacity) && WellLinked(g', capacity) && KeepsLinks(g, g')
    ensures SameFreed(g, g')
  {
  }

  /** Freeing the region of the root from, redirecting from to the root to, and giving to
      to one more pixel. */
  lemma UniteStored(refs: seq<RegionReference>, root: seq<nat>, rank: seq<nat>,
                    m: seq<Region>, owner: map<nat, nat>, head: Option<nat>, free: seq<nat>,
                    given: map<Pixel, nat>, reg: Labelling, c: Pixel, from: nat, to: nat)
    requires Stored(refs, root, rank, m, owner, head, free, given, reg)
    requires IsRoot(refs, from) && IsRoot(refs, to) && refs[from].region.Some? && refs[to].region.Some?
    requires var r1, r2 := refs[to].region.value, refs[from].region.value;
             r1 != r2 && Live(m, r1) && Live(m, r2) && m[r2].adjacent == []
    ensures var r1, r2 := refs[to].region.value, refs[from].region.value;
            Stored(refs[from := RegionReference(None, to)],
                   Rerooted(root, from, to), Lifted(root, rank, from, rank[to] + 1),
                   m[r2 := m[r2].(flags := {Free}, next := head)], owner - {r2}, Some(r2), [r2] + free,
                   given[c := to], Relabelled(reg, r1, r2)[c := r1])
  {
    assert |root| == |rank| == |refs|;
    hide Forest, FreeChain, Led, Owned;
    var r1, r2 := refs[to].region.value, refs[from].region.value;
    var g' := m[r2 := m[r2].(flags := {Free}, next := head)];
    var refs', root' := refs[from := RegionReference(None, to)], Rerooted(root, from, to);
    var rank' := Lifted(root, rank, from, rank[to] + 1);
    PushKeepsChain(m, g', head, free, r2);
    RedirectKeepsForest(refs, root, rank, from, to);
    MergeKeepsOwned(refs, m, g', owner, from, to);
    MergeKeepsLed(refs, root, rank, m, owner, given, reg, from, to);
    AttachKeepsStored(refs', root', rank', g', owner - {r2}, Some(r2), [r2] + free,
                      given, Relabelled(reg, r1, r2), c, to, r1);
  }
}
