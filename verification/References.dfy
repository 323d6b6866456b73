/** Region references: redirects form an acyclic forest, its roots own the live
    regions, and the freed regions form a chain through their next fields. */
module References {
  import opened Options
  import opened Regions

  /** Following n redirects from reference k. */
  ghost function Follow(refs: seq<RegionReference>, k: nat, n: nat): nat
    requires forall j | 0 <= j < |refs| :: refs[j].redirect < |refs|
    requires k < |refs|
    ensures Follow(refs, k, n) < |refs|
    decreases n
  {
    if n == 0 then k else Follow(refs, refs[k].redirect, n - 1)
  }

  ghost predicate IsRoot(refs: seq<RegionReference>, k: int) {
    0 <= k < |refs| && refs[k].redirect == k
  }

  /** root[k] is where the redirects from k end; rank falls along every redirect. */
  ghost predicate Forest(refs: seq<RegionReference>, root: seq<nat>, rank: seq<nat>) {
    && |root| == |refs| == |rank|
    && forall k | 0 <= k < |refs| ::
         && refs[k].redirect < |refs|
         && IsRoot(refs, root[k])
         && (refs[k].redirect == k ==> root[k] == k)
         && (refs[k].redirect != k ==>
               rank[refs[k].redirect] < rank[k] && root[refs[k].redirect] == root[k] && rank[root[k]] < rank[k])
  }

  /** In a forest every reference leads to its root after finitely many redirects, and
      to no other reference that is its own redirect. */
  lemma {:induction false} RootReached(refs: seq<RegionReference>, root: seq<nat>, rank: seq<nat>, k: nat)
    requires Forest(refs, root, rank) && k < |refs|
    ensures exists n: nat :: Follow(refs, k, n) == root[k]
    ensures forall n: nat | IsRoot(refs, Follow(refs, k, n)) :: Follow(refs, k, n) == root[k]
    decreases rank[k]
  {
    if refs[k].redirect == k {
      assert Follow(refs, k, 0) == root[k];
      forall n: nat ensures Follow(refs, k, n) == k {
        FollowFixed(refs, k, n);
      }
    } else {
      var next := refs[k].redirect;
      RootReached(refs, root, rank, next);
      var n: nat :| Follow(refs, next, n) == root[next];
      assert Follow(refs, k, n + 1) == root[k];
      forall n: nat | IsRoot(refs, Follow(refs, k, n)) ensures Follow(refs, k, n) == root[k] {
        assert Follow(refs, k, n) == Follow(refs, next, n - 1);
      }
    }
  }

  lemma {:induction false} FollowFixed(refs: seq<RegionReference>, k: nat, n: nat)
    requires (forall j | 0 <= j < |refs| :: refs[j].redirect < |refs|) && IsRoot(refs, k)
    ensures Follow(refs, k, n) == k
    decreases n
  {
    if n == 0 {
    } else {
      FollowFixed(refs, k, n - 1);
    }
  }

  /** Path shortening changes nobody's root. */
  lemma ShorteningKeepsForest(refs: seq<RegionReference>, root: seq<nat>, rank: seq<nat>, k: nat)
    requires Forest(refs, root, rank) && k < |refs|
    ensures Forest(refs[k := refs[k].(redirect := root[k])], root, rank)
  {
    var refs' := refs[k := refs[k].(redirect := root[k])];
    assert IsRoot(refs, root[k]);
    forall j | 0 <= j < |refs'| ensures IsRoot(refs', root[j]) {
      assert IsRoot(refs, root[j]);
    }
  }

  ghost function Rerooted(root: seq<nat>, from: nat, to: nat): seq<nat> {
    seq(|root|, k requires 0 <= k < |root| => if root[k] == from then to else root[k])
  }

  ghost function Lifted(root: seq<nat>, rank: seq<nat>, from: nat, step: nat): seq<nat>
    requires |root| == |rank|
  {
    seq(|root|, k requires 0 <= k < |root| => if root[k] == from then rank[k] + step else rank[k])
  }

  /** Redirecting one root to another unites their trees. */
  lemma RedirectKeepsForest(refs: seq<RegionReference>, root: seq<nat>, rank: seq<nat>, from: nat, to: nat)
    requires Forest(refs, root, rank) && IsRoot(refs, from) && IsRoot(refs, to) && from != to
    ensures Forest(refs[from := RegionReference(None, to)],
                   Rerooted(root, from, to), Lifted(root, rank, from, rank[to] + 1))
  {
    var refs' := refs[from := RegionReference(None, to)];
    var root', rank' := Rerooted(root, from, to), Lifted(root, rank, from, rank[to] + 1);
    assert root[from] == from && root[to] == to;
    forall k | 0 <= k < |refs'|
      ensures refs'[k].redirect < |refs'| && IsRoot(refs', root'[k])
      ensures refs'[k].redirect == k ==> root'[k] == k
      ensures refs'[k].redirect != k ==>
                rank'[refs'[k].redirect] < rank'[k] && root'[refs'[k].redirect] == root'[k]
                && rank'[root'[k]] < rank'[k]
    {
      assert IsRoot(refs, root[k]);
    }
  }

  lemma NewKeepsForest(refs: seq<RegionReference>, root: seq<nat>, rank: seq<nat>, region: Option<nat>)
    requires Forest(refs, root, rank)
    ensures Forest(refs + [RegionReference(region, |refs|)], root + [|refs|], rank + [0])
  {
    var refs' := refs + [RegionReference(region, |refs|)];
    forall k | 0 <= k < |refs| ensures IsRoot(refs', root[k]) {
      assert IsRoot(refs, root[k]);
    }
  }

  // ----- storage

  /** Roots and live regions are in bijection: a root names the region, owner names the root. */
  ghost predicate Owned(refs: seq<RegionReference>, g: seq<Region>, owner: map<nat, nat>) {
    && (forall k | IsRoot(refs, k) :: refs[k].region.Some? && Live(g, refs[k].region.value)
                                      && refs[k].region.value in owner && owner[refs[k].region.value] == k)
    && (forall k | 0 <= k < |refs| && !IsRoot(refs, k) :: refs[k].region.None?)
    && (forall r | r in owner :: Live(g, r) && IsRoot(refs, owner[r]) && refs[owner[r]].region == Some(r))
    && (forall r | Live(g, r) :: r in owner)
  }

  /** The freed regions, in the order of the chain that starts at head. */
  ghost predicate FreeChain(g: seq<Region>, head: Option<nat>, free: seq<nat>) {
    && head == (if free == [] then None else Some(free[0]))
    && (forall i, j | 0 <= i < j < |free| :: free[i] != free[j])
    && (forall i | 0 <= i < |free| :: free[i] < |g|)
    && (forall i {:trigger g[free[i]]} | 0 <= i < |free| ::
          && Free in g[free[i]].flags && g[free[i]].adjacent == []
          && g[free[i]].next == (if i + 1 < |free| then Some(free[i + 1]) else None))
    && (forall r | 0 <= r < |g| && Free in g[r].flags :: r in free)
  }

  /** A chain survives changes that leave the freed regions alone. */
  ghost predicate SameFreed(g: seq<Region>, g': seq<Region>) {
    && |g'| == |g|
    && forall r | 0 <= r < |g| ::
         && (Free in g'[r].flags <==> Free in g[r].flags)
         && (Free in g[r].flags ==> g'[r].next == g[r].next && g'[r].adjacent == g[r].adjacent)
  }

  lemma SameFreedKeeps(refs: seq<RegionReference>, g: seq<Region>, g': seq<Region>, owner: map<nat, nat>,
                       head: Option<nat>, free: seq<nat>)
    requires Owned(refs, g, owner) && FreeChain(g, head, free) && SameFreed(g, g')
    ensures Owned(refs, g', owner) && FreeChain(g', head, free)
  {
    assert forall r :: Live(g', r) <==> Live(g, r);
    forall i | 0 <= i < |free|
      ensures && free[i] < |g'| && Free in g'[free[i]].flags && g'[free[i]].adjacent == []
              && g'[free[i]].next == (if i + 1 < |free| then Some(free[i + 1]) else None)
    {
      assert Free in g[free[i]].flags;
    }
  }

  lemma RedirectKeepsOwned(refs: seq<RegionReference>, refs': seq<RegionReference>, g: seq<Region>,
                           owner: map<nat, nat>, k: nat, to: nat)
    requires Owned(refs, g, owner) && k < |refs| && refs' == refs[k := refs[k].(redirect := to)]
    requires IsRoot(refs, k) <==> to == k
    ensures Owned(refs', g, owner)
  {
    assert forall j :: IsRoot(refs', j) <==> IsRoot(refs, j);
  }

  ghost function LiveRegions(g: seq<Region>): set<nat> {
    set r: nat | r < |g| && Free !in g[r].flags
  }

  ghost function Roots(refs: seq<RegionReference>): set<nat> {
    set k: nat | k < |refs| && refs[k].redirect == k
  }

  ghost function Elements(s: seq<nat>): (e: set<nat>)
    ensures forall x: nat :: x in e <==> x in s
    ensures (forall i, j | 0 <= i < j < |s| :: s[i] != s[j]) ==> |e| == |s|
  {
    if s == [] then {} else
      assert s == [s[0]] + s[1..];
      assert forall i | 0 <= i < |s[1..]| :: s[1..][i] == s[i + 1];
      assert s[0] in s[1..] ==> exists j | 0 < j < |s| :: s[0] == s[j];
      Elements(s[1..]) + {s[0]}
  }

  ghost function Below(n: nat): (s: set<nat>)
    ensures |s| == n && forall r: int :: r in s <==> 0 <= r < n
  {
    if n == 0 then {} else Below(n - 1) + {n - 1}
  }

  lemma PoolCounted(g: seq<Region>, head: Option<nat>, free: seq<nat>)
    requires FreeChain(g, head, free)
    ensures |g| == |LiveRegions(g)| + |free|
  {
    var freed := Elements(free);
    forall r: int ensures r in freed <==> 0 <= r < |g| && Free in g[r].flags {
      if r in freed {
        var i :| 0 <= i < |free| && free[i] == r;
        assert g[free[i]] == g[r];
      }
    }
    assert Below(|g|) == LiveRegions(g) + freed && LiveRegions(g) !! freed;
  }

  /** No region is lost: the pool consists of the live regions, as many as there are
      roots, and the freed ones. */
  lemma StorageConserved(refs: seq<RegionReference>, g: seq<Region>, owner: map<nat, nat>, head: Option<nat>,
                         free: seq<nat>)
    requires Owned(refs, g, owner) && FreeChain(g, head, free)
    ensures |g| == |LiveRegions(g)| + |free|
    ensures |Roots(refs)| == |LiveRegions(g)|
  {
    PoolCounted(g, head, free);
    forall r | r in LiveRegions(g) ensures r in owner && owner[r] in Roots(refs) {
      assert Live(g, r);
    }
    forall k | k in Roots(refs) ensures exists r | r in LiveRegions(g) :: owner[r] == k {
      assert IsRoot(refs, k);
    }
    SameCardinality(LiveRegions(g), Roots(refs), owner);
  }

  lemma {:induction false} SameCardinality(a: set<nat>, b: set<nat>, f: map<nat, nat>)
    requires forall x | x in a :: x in f && f[x] in b
    requires forall x, y | x in a && y in a && f[x] == f[y] :: x == y
    requires forall y | y in b :: exists x | x in a :: f[x] == y
    ensures |a| == |b|
  {
    if a == {} {
      assert b == {};
    } else {
      var x :| x in a;
      SameCardinality(a - {x}, b - {f[x]}, f);
    }
  }
}
