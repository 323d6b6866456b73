/** The records of segment.h: regions of the pool, the references that lead to
    them, and the predicates on a whole pool that the segmenter keeps.  A pointer
    to a region is its index in the pool. */
module Regions {
  import opened Options

  const BLACK: nat := 0
  const WHITE: nat := 255

  /** The bits of Region.flags; a flags word is the set of its bits. */
  datatype Flag = Free | AdjacentToRoot | Saturated | Fragmented | LostSymbol

  const UNKNOWN_REGION_LEVEL: int := -1
  const MAX_SHORT: int := 0x7FFF

  /** The conversion to a 16-bit signed integer made by the casts to short. */
  function ToShort(x: int): (s: int)
    ensures -0x8000 <= s <= MAX_SHORT && (s - x) % 0x1_0000 == 0
    ensures 0 <= x <= MAX_SHORT ==> s == x
  {
    (x + 0x8000) % 0x1_0000 - 0x8000
  }

  datatype Region = Region(
    colour: nat,
    left: int, top: int, right: int, bottom: int,
    flags: set<Flag>,
    level: int, depth: int, childrenVisited: int, descendentCount: int,
    next: Option<nat>,
    adjacent: seq<nat>)

  datatype RegionReference = RegionReference(region: Option<nat>, redirect: nat)

  ghost predicate Live(g: seq<Region>, r: int) {
    0 <= r < |g| && Free !in g[r].flags
  }

  lemma LiveBound(g: seq<Region>, r: int)
    requires Live(g, r)
    ensures 0 <= r < |g|
  {
  }

  /** How often b is listed among the neighbours of a. */
  ghost function Mult(g: seq<Region>, a: nat, b: nat): nat
    requires a < |g|
  {
    multiset(g[a].adjacent)[b]
  }

  ghost predicate Lists(g: seq<Region>, a: int, b: int) {
    0 <= a < |g| && b in g[a].adjacent
  }

  /** The records kept for the passes that follow have their initial values. */
  ghost predicate Untouched(region: Region) {
    && region.level == UNKNOWN_REGION_LEVEL && region.childrenVisited == 0 && region.descendentCount == MAX_SHORT
    && LostSymbol !in region.flags
  }

  /** What the adjacency lists always satisfy: neighbours exist and have another
      colour, every link is listed equally often at its two ends, no list exceeds
      the capacity, and saturated and freed regions list nobody.  Nothing has been
      recorded for later passes. */
  ghost predicate WellLinked(g: seq<Region>, capacity: nat) {
    && (forall a | 0 <= a < |g| :: Untouched(g[a]))
    && (forall a | 0 <= a < |g| ::
          && |g[a].adjacent| <= capacity
          && (Saturated in g[a].flags || Free in g[a].flags ==> g[a].adjacent == []))
    && (forall a, b | Lists(g, a, b) :: b < |g| && g[b].colour != g[a].colour)
    && (forall a, b | 0 <= a < |g| && 0 <= b < |g| :: Mult(g, a, b) == Mult(g, b, a))
  }

  ghost predicate NoDuplicates(g: seq<Region>) {
    forall a, b | 0 <= a < |g| && 0 <= b < |g| :: Mult(g, a, b) <= 1
  }

  /** What the graph knows about a pair of touching regions: a link, or one end
      overflowed and the other end was told that it lost a link. */
  ghost predicate Linked(g: seq<Region>, a: nat, b: nat)
    requires a < |g| && b < |g|
  {
    || Lists(g, a, b)
    || (Saturated in g[a].flags && Fragmented in g[b].flags)
    || (Saturated in g[b].flags && Fragmented in g[a].flags)
  }

  lemma ListsMult(g: seq<Region>, a: nat, b: nat)
    requires a < |g|
    ensures Lists(g, a, b) <==> Mult(g, a, b) > 0
  {
  }

  lemma LinkedSymmetric(g: seq<Region>, capacity: nat, a: nat, b: nat)
    requires WellLinked(g, capacity) && a < |g| && b < |g|
    ensures Lists(g, a, b) <==> Lists(g, b, a)
    ensures Linked(g, a, b) <==> Linked(g, b, a)
  {
    ListsMult(g, a, b);
    ListsMult(g, b, a);
    assert Mult(g, a, b) == Mult(g, b, a);
  }

  /** Overwriting a slot with the last entry and dropping the last slot. */
  function SwapRemove(s: seq<nat>, i: nat): (t: seq<nat>)
    requires i < |s|
    ensures |t| == |s| - 1
    ensures multiset(t) == multiset(s) - multiset{s[i]}
  {
    var last := |s| - 1;
    assert s == s[..last] + [s[last]];
    if i < last then
      assert s[..last] == s[..i] + [s[i]] + s[i + 1..last];
      assert s[i := s[last]][..last] == s[..i] + [s[last]] + s[i + 1..last];
      s[i := s[last]][..last]
    else
      assert s[i := s[last]][..last] == s[..last];
      s[i := s[last]][..last]
  }
}
