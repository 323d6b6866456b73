/** The state of the raster scan as one value, and the steps of the scan on it. */
module Scanning {
  import opened Options
  import opened Sequences
  import opened Regions
  import opened RegionGraph
  import opened Pixels
  import opened Components
  import opened Overflow
  import opened References
  import opened Storage

  datatype Frame = Frame(width: nat, height: nat, capacity: nat)

  /** The pools, and what is only remembered for the proof: the root and rank of every
      reference, the owner of every live region, the freed regions, the reference given
      to each scanned pixel, its region, and the border pixels seen so far. */
  datatype ScanState = ScanState(
    refs: seq<RegionReference>, root: seq<nat>, rank: seq<nat>,
    g: seq<Region>, owner: map<nat, nat>, head: Option<nat>, free: seq<nat>,
    given: map<Pixel, nat>, reg: Labelling, border: set<Pixel>)

  ghost predicate IsFrame(f: Frame, img: Image) {
    && (forall p: Pixel :: p in img <==> InFrame(f.width, f.height, p))
    && (forall p | p in img :: img[p] == BLACK || img[p] == WHITE)
    && |img| == f.height * f.width
  }

  ghost predicate StoredIn(s: ScanState) {
    Stored(s.refs, s.root, s.rank, s.g, s.owner, s.head, s.free, s.given, s.reg)
  }

  ghost predicate Scanned(f: Frame, s: ScanState, x: int, y: int) {
    && 0 <= x <= f.width && 0 <= y <= f.height && (y == f.height ==> x == 0)
    && (forall p: Pixel :: p in s.reg <==> Before(f.width, x, y, p))
    && (forall p :: p in s.border <==> p in s.reg && (p.y == 0 || p.x == 0 || (p.x == f.width - 1 && p.y < y)))
    && |s.refs| <= |s.given|
  }

  /** The pixels before (x, y) have been scanned; everything but the links is settled. */
  ghost predicate Progress(f: Frame, s: ScanState, img: Image, x: int, y: int) {
    IsFrame(f, img) && Scanned(f, s, x, y) && StoredIn(s) && WellLinked(s.g, f.capacity)
  }

  ghost predicate Scans(f: Frame, s: ScanState, img: Image, x: int, y: int) {
    && Progress(f, s, img, x, y) && Faithful(img, s.reg, s.g, s.border)
    && Accounted(s.reg, s.g, f.capacity, {})
  }

  /** Pixel (x, y) has opened a region that is not linked yet at the pending sides. */
  ghost predicate Opening(f: Frame, s: ScanState, img: Image, x: int, y: int, pending: set<Side>) {
    && Progress(f, s, img, x + 1, y) && FaithfulBut(img, s.reg, s.g, s.border, Pixel(x, y))
    && Accounted(s.reg, s.g, f.capacity, pending)
  }

  /** The sides of (x, y) towards the pixels scanned before it. */
  function NewSides(x: int, y: int): set<Side> {
    Sides(Pixel(x, y), Pixel(x - 1, y)) + Sides(Pixel(x, y), Pixel(x, y - 1))
  }

  /** The boxes of the regions away from the border. */
  ghost predicate Boxes(s: ScanState, open: int, row: int) { Boxed(s.reg, s.g, open, row) }

  /** The first n references of the row at offset base lead to the regions of row y. */
  ghost predicate Cells(s: ScanState, rows: seq<nat>, base: nat, y: int, n: int) {
    && base + n <= |rows|
    && forall i | 0 <= i < n ::
         && rows[base + i] < |s.root| && Pixel(i, y) in s.given && s.given[Pixel(i, y)] < |s.root|
         && s.root[rows[base + i]] == s.root[s.given[Pixel(i, y)]]
  }

  // ----- what the scan may rely on

  lemma ScanFacts(f: Frame, s: ScanState, img: Image, x: int, y: int)
    requires Progress(f, s, img, x, y)
    ensures s.given.Keys == s.reg.Keys <= img.Keys && |s.root| == |s.refs|
    ensures forall p: Pixel :: p in s.reg <==> Before(f.width, x, y, p)
    ensures forall p | p in s.given :: s.given[p] < |s.refs| && s.root[s.given[p]] < |s.refs|
                                       && IsRoot(s.refs, s.root[s.given[p]])
                                       && s.refs[s.root[s.given[p]]].region == Some(s.reg[p])
    ensures forall k | IsRoot(s.refs, k) ::
              s.root[k] == k && s.refs[k].region.Some? && Live(s.g, s.refs[k].region.value)
  {
    StoredFacts(s.refs, s.root, s.rank, s.g, s.owner, s.head, s.free, s.given, s.reg);
  }

  lemma SameKeys(f: Frame, s: ScanState, img: Image, x: int, y: int)
    requires Progress(f, s, img, x, y)
    ensures s.given.Keys == s.reg.Keys
  {
  }

  lemma RegionFacts(f: Frame, s: ScanState, img: Image, x: int, y: int, p: Pixel)
    requires Scans(f, s, img, x, y) && p in s.reg
    ensures p in img && Live(s.g, s.reg[p]) && s.g[s.reg[p]].colour == img[p]
  {
  }

  lemma OpeningFacts(f: Frame, s: ScanState, img: Image, x: int, y: int, pending: set<Side>, p: Pixel)
    requires Opening(f, s, img, x, y, pending) && p in s.reg
    ensures p in img && Live(s.g, s.reg[p]) && s.g[s.reg[p]].colour == img[p]
  {
  }

  /** While a pixel is left there is room in the pools. */
  lemma RoomForOneMore(f: Frame, s: ScanState, img: Image, x: int, y: int)
    requires Progress(f, s, img, x, y) && x < f.width && y < f.height
    ensures |s.g| <= |s.refs| < f.height * f.width
  {
    hide Faithful, WellLinked, Forest, Owned, FreeChain;
    var c := Pixel(x, y);
    assert c in img && c !in s.given;
    assert s.given.Keys <= img.Keys - {c};
    hide Progress, Stored;
    SmallerSet(s.given.Keys, img.Keys - {c});
    assert |s.given| == |s.given.Keys| && |img| == |img.Keys|;
  }

  // ----- the row of references

  lemma CellsKept(s: ScanState, s': ScanState, rows: seq<nat>, rows': seq<nat>, base: nat, y: int, n: int)
    requires Cells(s, rows, base, y, n)
    requires base + n <= |rows'| && forall i | base <= i < base + n :: rows'[i] == rows[i]
    requires forall p | p in s.given :: p in s'.given && s'.given[p] == s.given[p]
    requires |s.root| <= |s'.root|
    requires forall i, j | 0 <= i < |s.root| && 0 <= j < |s.root| && s.root[i] == s.root[j] :: s'.root[i] == s'.root[j]
    ensures Cells(s', rows', base, y, n)
  {
    forall i | 0 <= i < n
      ensures && rows'[base + i] < |s'.root| && Pixel(i, y) in s'.given && s'.given[Pixel(i, y)] < |s'.root|
              && s'.root[rows'[base + i]] == s'.root[s'.given[Pixel(i, y)]]
    {
      var j, k := rows[base + i], s.given[Pixel(i, y)];
      assert rows'[base + i] == j && s'.given[Pixel(i, y)] == k;
      assert s.root[j] == s.root[k];
      assert s'.root[j] == s'.root[k];
    }
  }

  /** References with a common root keep a common root. */
  ghost predicate RootsAgree(root: seq<nat>, root': seq<nat>) {
    && |root| <= |root'|
    && forall i, j | 0 <= i < |root| && 0 <= j < |root| && root[i] == root[j] :: root'[i] == root'[j]
  }

  lemma RootsAgreeCases(root: seq<nat>, k: nat, from: nat, to: nat)
    ensures RootsAgree(root, root) && RootsAgree(root, root + [k]) && RootsAgree(root, Rerooted(root, from, to))
  {
  }

  /** Both rows after reference k was written for the pixel (x, y). */
  lemma CellsStep(f: Frame, s: ScanState, s': ScanState, rows: seq<nat>, rows': seq<nat>,
                  current: nat, previous: nat, x: nat, y: int, k: nat)
    requires Cells(s, rows, previous, y - 1, f.width) && Cells(s, rows, current, y, x) && x < f.width
    requires |rows| == 2 * f.width && ((current == 0 && previous == f.width) || (current == f.width && previous == 0))
    requires rows' == rows[current + x := k] && s'.given == s.given[Pixel(x, y) := k]
    requires Pixel(x, y) !in s.given && k < |s'.root| && RootsAgree(s.root, s'.root)
    ensures Cells(s', rows', previous, y - 1, f.width) && Cells(s', rows', current, y, x + 1)
  {
    CellsKept(s, s', rows, rows', previous, y - 1, f.width);
    CellsKept(s, s', rows, rows', current, y, x);
  }

  // ----- steps

  lemma ShortenStep(f: Frame, s: ScanState, s': ScanState, img: Image, x: int, y: int, k: nat)
    requires Scans(f, s, img, x, y) && k < |s.refs|
    requires k < |s.root| && s' == s.(refs := s.refs[k := s.refs[k].(redirect := s.root[k])])
    ensures Scans(f, s', img, x, y)
  {
    ShorteningKeepsStored(s.refs, s.root, s.rank, s.g, s.owner, s.head, s.free, s.given, s.reg, k);
  }

  /** The state after new_region, and after flagging on the left and top edge. */
  ghost predicate Opens(s: ScanState, s': ScanState, c: Pixel, r: nat, colour: nat, edge: bool) {
    && s'.refs == s.refs + [RegionReference(Some(r), |s.refs|)] && s'.root == s.root + [|s.refs|]
    && OpensRegion(s.g, s'.g, r, c, colour, edge)
    && Stored(s'.refs, s'.root, s'.rank, s'.g, s'.owner, s'.head, s'.free, s.given, s.reg)
    && s'.given == s.given[c := |s.refs|] && s'.reg == s.reg[c := r]
    && s'.border == if edge then s.border + {c} else s.border
  }

  lemma OpenStep(f: Frame, s: ScanState, s': ScanState, img: Image, x: nat, y: nat, r: nat)
    requires Pixel(x, y) in img && x < f.width && y < f.height
    requires Opens(s, s', Pixel(x, y), r, img[Pixel(x, y)], x == 0 || y == 0)
    requires x > 0 ==> Pixel(x - 1, y) in img && img[Pixel(x - 1, y)] != img[Pixel(x, y)]
    requires y > 0 ==> Pixel(x, y - 1) in img && img[Pixel(x, y - 1)] != img[Pixel(x, y)]
    requires Scans(f, s, img, x, y)
    ensures Opening(f, s', img, x, y, NewSides(x, y))
  {
    hide Stored, Accounted, StoredIn, Faithful, FaithfulBut, WellLinked, Opens, IsFrame, Scanned, OnlyNeighbours;
    SameKeys(f, s, img, x, y);
    CurrentPixel(f, s, img, x, y);
    OpenNeighbours(f, s, img, x, y);
    OpenLinks(f, s, s', img, Pixel(x, y), r, x == 0 || y == 0);
    OpenCounted(f, s, s', x, y, r, img[Pixel(x, y)]);
    OpenPools(s, s', Pixel(x, y), r, img[Pixel(x, y)], x == 0 || y == 0);
    OpenScanned(f, s, s', x, y, r, img[Pixel(x, y)]);
  }

  lemma OpenLinks(f: Frame, s: ScanState, s': ScanState, img: Image, c: Pixel, r: nat, edge: bool)
    requires WellLinked(s.g, f.capacity) && Faithful(img, s.reg, s.g, s.border)
    requires c in img && c !in s.reg && c !in s.border && Opens(s, s', c, r, img[c], edge)
    requires forall p | p in s.reg && (Touch(p, c) || Touch(c, p)) :: p in img && img[p] != img[c]
    ensures WellLinked(s'.g, f.capacity) && FaithfulBut(img, s'.reg, s'.g, s'.border, c)
  {
    hide Stored, Accounted, Faithful, FaithfulBut, WellLinked, OpensRegion;
    OpenKeepsWellLinked(s.g, s'.g, f.capacity, r, c, img[c], edge);
    OpenKeepsFaithful(img, s.reg, s.g, s'.g, f.capacity, s.border, r, c, edge);
  }

  lemma OpenCounted(f: Frame, s: ScanState, s': ScanState, x: nat, y: nat, r: nat, colour: nat)
    requires Accounted(s.reg, s.g, f.capacity, {}) && Pixel(x, y) !in s.reg
    requires Opens(s, s', Pixel(x, y), r, colour, x == 0 || y == 0)
    ensures Accounted(s'.reg, s'.g, f.capacity, NewSides(x, y))
  {
    hide Stored, Accounted, OpensRegion;
    OpenAccounted(s.reg, s.g, s'.g, f.capacity, r, Pixel(x, y), colour, x == 0 || y == 0, NewSides(x, y));
  }

  lemma OpenScanned(f: Frame, s: ScanState, s': ScanState, x: nat, y: nat, r: nat, colour: nat)
    requires Scanned(f, s, x, y) && Opens(s, s', Pixel(x, y), r, colour, x == 0 || y == 0)
    requires s.given.Keys == s.reg.Keys && x < f.width && y < f.height
    ensures Scanned(f, s', x + 1, y)
  {
    hide Scanned, Stored, OpensRegion;
    ScannedOne(f, s, s', x, y);
  }

  lemma OpenPools(s: ScanState, s': ScanState, c: Pixel, r: nat, colour: nat, edge: bool)
    requires Opens(s, s', c, r, colour, edge)
    ensures StoredIn(s')
  {
    hide Stored, Accounted, OpensRegion;
    var k := |s.refs|;
    assert IsRoot(s'.refs, k) && s'.refs[k].region == Some(r);
    AttachKeepsStored(s'.refs, s'.root, s'.rank, s'.g, s'.owner, s'.head, s'.free, s.given, s.reg, c, k, r);
  }

  lemma CurrentPixel(f: Frame, s: ScanState, img: Image, x: nat, y: nat)
    requires IsFrame(f, img) && Scanned(f, s, x, y) && x < f.width && y < f.height
    ensures Pixel(x, y) in img && Pixel(x, y) !in s.reg && Pixel(x, y) !in s.border
    ensures y > 0 ==> Pixel(x, y - 1) in s.reg
    ensures x > 0 ==> Pixel(x - 1, y) in s.reg
    ensures x > 0 && y > 0 ==> Pixel(x - 1, y - 1) in s.reg
    ensures OnlyNeighbours(s.reg, Pixel(x, y), {Pixel(x - 1, y), Pixel(x, y - 1)})
  {
  }

  lemma OpenNeighbours(f: Frame, s: ScanState, img: Image, x: nat, y: nat)
    requires IsFrame(f, img) && Scanned(f, s, x, y) && x < f.width && y < f.height
    requires x > 0 ==> img[Pixel(x - 1, y)] != img[Pixel(x, y)]
    requires y > 0 ==> img[Pixel(x, y - 1)] != img[Pixel(x, y)]
    ensures forall p | p in s.reg && (Touch(p, Pixel(x, y)) || Touch(Pixel(x, y), p)) ::
              p in img && img[p] != img[Pixel(x, y)]
  {
    forall p | p in s.reg && (Touch(p, Pixel(x, y)) || Touch(Pixel(x, y), p))
      ensures p in img && img[p] != img[Pixel(x, y)]
    {
      assert p == Pixel(x - 1, y) || p == Pixel(x, y - 1);
    }
  }

  lemma ScannedOne(f: Frame, s: ScanState, s': ScanState, x: nat, y: nat)
    requires Scanned(f, s, x, y) && s.given.Keys == s.reg.Keys && x < f.width && y < f.height
    requires s'.given.Keys == s.given.Keys + {Pixel(x, y)} && s'.reg.Keys == s.reg.Keys + {Pixel(x, y)}
    requires s'.border == if x == 0 || y == 0 then s.border + {Pixel(x, y)} else s.border
    requires |s'.refs| <= |s.refs| + 1
    ensures Scanned(f, s', x + 1, y)
  {
    KeysNext(f.width, s.reg.Keys, s'.reg.Keys, x, y);
    BorderNext(f.width, s.reg.Keys, s.border, s'.border, x, y);
    hide Before;
    OneMoreKey(s.given, s'.given, Pixel(x, y));
    assert s'.reg.Keys == s.reg.Keys + {Pixel(x, y)};
  }

  lemma OneMoreKey(m: map<Pixel, nat>, m': map<Pixel, nat>, p: Pixel)
    requires p !in m.Keys && m'.Keys == m.Keys + {p}
    ensures |m'| == |m| + 1
  {
    assert |m'| == |m'.Keys| && |m| == |m.Keys|;
  }

  lemma KeysNext(width: nat, keys: set<Pixel>, keys': set<Pixel>, x: nat, y: nat)
    requires x < width && forall p: Pixel :: p in keys <==> Before(width, x, y, p)
    requires keys' == keys + {Pixel(x, y)}
    ensures Pixel(x, y) !in keys && forall p: Pixel :: p in keys' <==> Before(width, x + 1, y, p)
  {
    BeforeNext(width, x, y, Pixel(x, y));
    hide Before;
    forall p: Pixel ensures p in keys' <==> Before(width, x + 1, y, p) { BeforeNext(width, x, y, p); }
  }

  lemma BorderNext(width: nat, keys: set<Pixel>, border: set<Pixel>, border': set<Pixel>, x: nat, y: nat)
    requires Pixel(x, y) !in keys
    requires forall p :: p in border <==> p in keys && (p.y == 0 || p.x == 0 || (p.x == width - 1 && p.y < y))
    requires border' == if x == 0 || y == 0 then border + {Pixel(x, y)} else border
    ensures forall p :: p in border' <==>
                          p in keys + {Pixel(x, y)} && (p.y == 0 || p.x == 0 || (p.x == width - 1 && p.y < y))
  {
  }

  lemma BeforeNext(width: nat, x: nat, y: nat, p: Pixel)
    requires x < width
    ensures Before(width, x + 1, y, p) <==> Before(width, x, y, p) || p == Pixel(x, y)
    ensures p == Pixel(x, y) ==> !Before(width, x, y, p)
  {
  }

  lemma OpenBoxes(f: Frame, s: ScanState, s': ScanState, img: Image, x: nat, y: nat, r: nat, row: int)
    requires Pixel(x, y) in img && x < f.width && y < f.height && Boxes(s, -1, row)
    requires Opens(s, s', Pixel(x, y), r, img[Pixel(x, y)], x == 0 || y == 0)
    requires Scans(f, s, img, x, y)
    ensures Boxes(s', r, y)
  {
    hide Stored, Accounted, WellLinked, Boxed, OpensRegion;
    OpenKeepsBoxed(img, s.reg, s.g, s'.g, row, r, Pixel(x, y), x == 0 || y == 0);
  }

  lemma LinkStep(f: Frame, s: ScanState, s': ScanState, img: Image, x: int, y: int, pending: set<Side>, q: Pixel)
    requires Opening(f, s, img, x, y, pending) && Sides(Pixel(x, y), q) <= pending && x < f.width && 0 <= x && 0 <= y
    requires q in s.reg && Pixel(x, y) in s.reg && q in img && Pixel(x, y) in img && img[q] != img[Pixel(x, y)]
    requires Touch(Pixel(x, y), q) && Touch(q, Pixel(x, y))
    requires s' == s.(g := s'.g)
    requires s.reg[q] < |s.g| && s.reg[Pixel(x, y)] < |s.g|
    requires IsMadeAdjacent(s.g, s'.g, f.capacity, s.reg[Pixel(x, y)], s.reg[q])
    ensures Opening(f, s', img, x, y, pending - Sides(Pixel(x, y), q))
    ensures KeepsLinks(s.g, s'.g) && Linked(s'.g, s.reg[Pixel(x, y)], s.reg[q])
  {
    hide Stored, Accounted, FaithfulBut, WellLinked, IsMadeAdjacent, IsFrame;
    OpeningFacts(f, s, img, x, y, pending, Pixel(x, y));
    OpeningFacts(f, s, img, x, y, pending, q);
    var c := Pixel(x, y);
    MadeAdjacentKeeps(s.g, s'.g, f.capacity, s.reg[c], s.reg[q]);
    LinkKeepsFaithfulBut(img, s.reg, s.g, s'.g, s.border, c, q);
    RealEdges(img, s.reg, s.g, s.border, c);
    MadeAdjacentAccounted(s.reg, s.g, s'.g, f.capacity, pending, c, q);
    LinkKeepsFreed(s.g, s'.g, f.capacity);
    SameFreedKeepsStored(s.refs, s.root, s.rank, s.g, s'.g, s.owner, s.head, s.free, s.given, s.reg);
  }

  lemma RealEdges(img: Image, reg: Labelling, g: seq<Region>, border: set<Pixel>, c: Pixel)
    requires FaithfulBut(img, reg, g, border, c)
    ensures EdgesReal(reg, g)
  {
  }

  lemma LinkBoxes(f: Frame, s: ScanState, s': ScanState, open: int, row: int)
    requires Boxes(s, open, row) && KeepsLinks(s.g, s'.g) && s' == s.(g := s'.g)
    ensures Boxes(s', open, row)
  {
    LinkKeepsBoxed(s.reg, s.g, s'.g, open, row);
  }

  lemma LinksDone(f: Frame, s: ScanState, img: Image, x: nat, y: nat, pending: set<Side>)
    requires Opening(f, s, img, x, y, pending) && x < f.width && y < f.height && Pixel(x, y) in s.reg
             && s.reg[Pixel(x, y)] < |s.g|
    requires forall q | q in s.reg && q in {Pixel(x - 1, y), Pixel(x, y - 1)} ::
              s.reg[q] < |s.g| && Linked(s.g, s.reg[Pixel(x, y)], s.reg[q])
    ensures Scans(f, s, img, x + 1, y)
  {
    hide Stored, Accounted, FaithfulBut, Faithful, WellLinked, Linked, IsFrame;
    ScanFacts(f, s, img, x + 1, y);
    var c := Pixel(x, y);
    forall p | p in s.reg && (Touch(p, c) || Touch(c, p)) && img[p] != img[c]
      ensures Linked(s.g, s.reg[c], s.reg[p])
    {
      assert p in {Pixel(x - 1, y), Pixel(x, y - 1)};
    }
    LinksComplete(img, s.reg, s.g, f.capacity, s.border, c);
    FewerPending(s.reg, s.g, f.capacity, pending, {});
  }

  /** The pixel (x, y) takes over the root of its neighbour a. */
  ghost predicate Attaches(s: ScanState, s': ScanState, x: int, y: int, a: Pixel, k: nat) {
    && a in s.reg && k < |s.refs|
    && s' == s.(given := s.given[Pixel(x, y) := k], reg := s.reg[Pixel(x, y) := s.reg[a]],
                border := if x == 0 || y == 0 then s.border + {Pixel(x, y)} else s.border)
  }

  lemma AttachStep(f: Frame, s: ScanState, s': ScanState, img: Image, x: nat, y: nat, k: nat, a: Pixel, b: Pixel,
                   d: Pixel)
    requires Scans(f, s, img, x, y) && x < f.width && y < f.height && Attaches(s, s', x, y, a, k)
    requires CanAttach(img, s.reg, Pixel(x, y), a, b, d)
    requires IsRoot(s.refs, k) && s.refs[k].region == Some(s.reg[a])
    requires x == 0 || y == 0 ==> a in s.border
    ensures Scans(f, s', img, x + 1, y)
  {
    hide Stored, Accounted, Faithful, WellLinked, CanAttach, Corner, IsFrame, Scanned, StoredIn, Attaches;
    ScanFacts(f, s, img, x, y);
    CurrentPixel(f, s, img, x, y);
    AttachLinks(f, s, s', img, x, y, k, a, b, d);
    AttachCounted(f, s, s', x, y, k, a);
    AttachPools(f, s, s', img, x, y, k, a);
    AttachScanned(f, s, s', x, y, k, a);
  }

  lemma AttachLinks(f: Frame, s: ScanState, s': ScanState, img: Image, x: nat, y: nat, k: nat, a: Pixel, b: Pixel,
                    d: Pixel)
    requires WellLinked(s.g, f.capacity) && Faithful(img, s.reg, s.g, s.border)
    requires Attaches(s, s', x, y, a, k) && CanAttach(img, s.reg, Pixel(x, y), a, b, d)
    requires Pixel(x, y) !in s.border && (x == 0 || y == 0 ==> a in s.border)
    ensures s'.g == s.g && Faithful(img, s'.reg, s'.g, s'.border)
  {
    hide Faithful, WellLinked, CanAttach;
    AttachKeepsFaithful(img, s.reg, s.g, f.capacity, s.border, Pixel(x, y), a, b, d);
  }

  lemma AttachCounted(f: Frame, s: ScanState, s': ScanState, x: nat, y: nat, k: nat, a: Pixel)
    requires Accounted(s.reg, s.g, f.capacity, {}) && Attaches(s, s', x, y, a, k) && Pixel(x, y) !in s.reg
    ensures Accounted(s'.reg, s'.g, f.capacity, {})
  {
    hide Accounted;
    GrownAccounted(s.reg, s'.reg, s.g, f.capacity);
  }

  lemma AttachPools(f: Frame, s: ScanState, s': ScanState, img: Image, x: nat, y: nat, k: nat, a: Pixel)
    requires StoredIn(s) && Attaches(s, s', x, y, a, k) && s.given.Keys == s.reg.Keys
    requires IsRoot(s.refs, k) && s.refs[k].region == Some(s.reg[a])
    ensures StoredIn(s')
  {
    hide Stored;
    AttachKeepsStored(s.refs, s.root, s.rank, s.g, s.owner, s.head, s.free, s.given, s.reg, Pixel(x, y), k, s.reg[a]);
  }

  lemma AttachScanned(f: Frame, s: ScanState, s': ScanState, x: nat, y: nat, k: nat, a: Pixel)
    requires Scanned(f, s, x, y) && Attaches(s, s', x, y, a, k) && x < f.width && y < f.height
    requires s.given.Keys == s.reg.Keys
    ensures Scanned(f, s', x + 1, y)
  {
    hide Scanned;
    ScannedOne(f, s, s', x, y);
  }

  /** A step that changes boxes only. */
  lemma BoxStep(f: Frame, s: ScanState, s': ScanState, img: Image, x: int, y: int)
    requires Scans(f, s, img, x, y) && s' == s.(g := s'.g) && OnlyBoxesChange(s.g, s'.g)
    requires forall r | 0 <= r < |s.g| :: s'.g[r].next == s.g[r].next
    ensures Scans(f, s', img, x, y)
  {
    hide Stored, Accounted, Faithful, WellLinked, IsFrame, OnlyBoxesChange;
    BoxStepCounted(s.reg, s.g, s'.g, f.capacity);
    BoxStepKeepsFaithful(img, s.reg, s.g, s'.g, s.border);
    BoxStepKeepsWellLinked(s.g, s'.g, f.capacity);
    BoxStepFreed(s.g, s'.g);
    SameFreedKeepsStored(s.refs, s.root, s.rank, s.g, s'.g, s.owner, s.head, s.free, s.given, s.reg);
  }

  lemma BoxStepCounted(reg: Labelling, g: seq<Region>, g': seq<Region>, capacity: nat)
    requires Accounted(reg, g, capacity, {}) && OnlyBoxesChange(g, g')
    ensures Accounted(reg, g', capacity, {})
  {
    hide Accounted;
    KeptAccounted(reg, g, g', capacity, {});
  }

  lemma BoxStepFreed(g: seq<Region>, g': seq<Region>)
    requires OnlyBoxesChange(g, g') && forall r | 0 <= r < |g| :: g'[r].next == g[r].next
    ensures SameFreed(g, g')
  {
  }

  /** Flagging the region of a border pixel. */
  lemma FlagStep(f: Frame, s: ScanState, img: Image, p: Pixel)
    requires IsFrame(f, img) && StoredIn(s) && WellLinked(s.g, f.capacity) && Faithful(img, s.reg, s.g, s.border)
    requires p in s.reg && s.reg[p] < |s.g| && Accounted(s.reg, s.g, f.capacity, {})
    ensures var s' := s.(g := AddFlag(s.g, s.reg[p], AdjacentToRoot), border := s.border + {p});
            && StoredIn(s') && WellLinked(s'.g, f.capacity) && Faithful(img, s'.reg, s'.g, s'.border)
            && Accounted(s'.reg, s'.g, f.capacity, {})
  {
    hide Stored, Accounted, Faithful, WellLinked, IsFrame;
    var g' := AddFlag(s.g, s.reg[p], AdjacentToRoot);
    FlagKeepsFaithful(img, s.reg, s.g, s.border, p);
    FlagKeepsWellLinked(s.g, f.capacity, s.reg[p]);
    KeptAccounted(s.reg, s.g, g', f.capacity, {});
    SameFreedKeepsStored(s.refs, s.root, s.rank, s.g, g', s.owner, s.head, s.free, s.given, s.reg);
  }

  /** From the end of a row to the start of the next one. */
  lemma NextRow(f: Frame, s: ScanState, s': ScanState, img: Image, y: nat)
    requires Scans(f, s, img, f.width, y) && f.width > 0 && y < f.height
    requires Pixel(f.width - 1, y) in s.reg && s.reg[Pixel(f.width - 1, y)] < |s.g|
    requires s' == s.(g := AddFlag(s.g, s.reg[Pixel(f.width - 1, y)], AdjacentToRoot),
                      border := s.border + {Pixel(f.width - 1, y)})
    ensures Scans(f, s', img, 0, y + 1)
  {
    hide Stored, Accounted, Faithful, WellLinked, IsFrame;
    var last := Pixel(f.width - 1, y);
    FlagStep(f, s, img, last);
    forall p: Pixel ensures p in s'.reg <==> Before(f.width, 0, y + 1, p) {}
    forall p
      ensures p in s'.border <==> p in s'.reg && (p.y == 0 || p.x == 0 || (p.x == f.width - 1 && p.y < y + 1))
    {}
  }

  lemma NextRowBoxes(f: Frame, s: ScanState, s': ScanState, y: nat)
    requires f.width > 0 && Pixel(f.width - 1, y) in s.reg && s.reg[Pixel(f.width - 1, y)] < |s.g|
    requires Boxes(s, s.reg[Pixel(f.width - 1, y)], y)
    requires s' == s.(g := AddFlag(s.g, s.reg[Pixel(f.width - 1, y)], AdjacentToRoot),
                      border := s.border + {Pixel(f.width - 1, y)})
    ensures forall row :: Boxes(s', -1, row)
  {
    var r := s.reg[Pixel(f.width - 1, y)];
    FlagKeepsBoxed(s.reg, s.g, r, r, y);
  }

  /** In the top row every region is flagged. */
  lemma TopBoxes(f: Frame, s: ScanState, img: Image, x: int, open: int, row: int)
    requires Scans(f, s, img, x, 0)
    ensures Boxes(s, open, row)
  {
    forall r | Live(s.g, r) ensures AdjacentToRoot in s.g[r].flags {
      var p :| p in s.reg && s.reg[p] == r;
      assert p in s.border;
    }
  }

  // ----- the neighbours of the current pixel

  lemma CanAttachWest(f: Frame, s: ScanState, img: Image, x: nat, y: nat)
    requires Scans(f, s, img, x, y) && 0 < x < f.width && y < f.height
    requires Pixel(x - 1, y) in img && Pixel(x, y) in img && img[Pixel(x - 1, y)] == img[Pixel(x, y)]
    requires y > 0 ==> var w, n := Pixel(x - 1, y), Pixel(x, y - 1);
                       n in img && n in s.reg && w in s.reg && (s.reg[n] == s.reg[w] || img[n] != img[w])
    ensures CanAttach(img, s.reg, Pixel(x, y), Pixel(x - 1, y), Pixel(x, y - 1), Pixel(x - 1, y - 1))
  {
    hide Stored, Accounted, Faithful, WellLinked;
    ScanFacts(f, s, img, x, y);
    CurrentPixel(f, s, img, x, y);
  }

  lemma CanAttachNorth(f: Frame, s: ScanState, img: Image, x: nat, y: nat)
    requires Scans(f, s, img, x, y) && x < f.width && 0 < y < f.height
    requires Pixel(x, y - 1) in img && Pixel(x, y) in img && img[Pixel(x, y - 1)] == img[Pixel(x, y)]
    requires x > 0 ==> Pixel(x - 1, y) in img && img[Pixel(x - 1, y)] != img[Pixel(x, y)]
    ensures CanAttach(img, s.reg, Pixel(x, y), Pixel(x, y - 1), Pixel(x - 1, y), Pixel(x - 1, y - 1))
  {
    hide Stored, Accounted, Faithful, WellLinked;
    ScanFacts(f, s, img, x, y);
    CurrentPixel(f, s, img, x, y);
  }

  /** Of two roots, both lead to regions; the regions differ if the roots do. */
  lemma RootRegions(f: Frame, s: ScanState, img: Image, x: int, y: int, j: nat, k: nat)
    requires Progress(f, s, img, x, y) && IsRoot(s.refs, j) && IsRoot(s.refs, k)
    ensures s.refs[j].region == s.refs[k].region <==> j == k
  {
  }

  lemma RankOfRoots(f: Frame, s: ScanState, img: Image, x: int, y: int)
    requires Progress(f, s, img, x, y)
    ensures |s.rank| == |s.root| == |s.refs|
  {
  }

  lemma CellFacts(f: Frame, s: ScanState, img: Image, x: int, y: int, rows: seq<nat>, base: nat, row: int, n: int,
                  i: int)
    requires Progress(f, s, img, x, y) && Cells(s, rows, base, row, n) && 0 <= i < n
    ensures rows[base + i] < |s.refs| == |s.root| && s.root[rows[base + i]] < |s.refs|
    ensures IsRoot(s.refs, s.root[rows[base + i]]) && s.root[s.root[rows[base + i]]] == s.root[rows[base + i]]
  {
    hide Stored, Accounted, WellLinked, IsFrame, Scanned;
    ScanFacts(f, s, img, x, y);
    assert IsRoot(s.refs, s.root[s.given[Pixel(i, row)]]);
  }

  lemma SameCells(s: ScanState, s': ScanState, rows: seq<nat>, base: nat, y: int, n: int)
    requires Cells(s, rows, base, y, n) && s'.given == s.given && s'.root == s.root
    ensures Cells(s', rows, base, y, n)
  {
  }

  /** Settled boxes are exact even if a run is still open. */
  lemma ClosedBoxes(f: Frame, s: ScanState, open: int, row: int)
    requires Boxes(s, -1, row)
    ensures Boxes(s, open, row)
  {
    forall r: nat | Live(s.g, r) && BoxKept(s.reg, s.g, r, -1, row) ensures BoxKept(s.reg, s.g, r, open, row) {}
  }

  lemma CellRegion(f: Frame, s: ScanState, img: Image, x: int, y: int, rows: seq<nat>, base: nat, row: int, n: int,
                   i: int)
    requires Progress(f, s, img, x, y) && Cells(s, rows, base, row, n) && 0 <= i < n
    requires IsRoot(s.refs, rows[base + i])
    ensures Pixel(i, row) in s.reg && Pixel(i, row) in s.given
    ensures s.refs[rows[base + i]].region == Some(s.reg[Pixel(i, row)])
    ensures rows[base + i] < |s.root| && s.root[rows[base + i]] == rows[base + i]
    ensures s.reg[Pixel(i, row)] < |s.g|
  {
    hide Stored, Accounted, WellLinked, IsFrame, Scanned;
    ScanFacts(f, s, img, x, y);
    assert IsRoot(s.refs, s.root[s.given[Pixel(i, row)]]);
  }

  lemma AttachWestBoxes(f: Frame, s: ScanState, s': ScanState, img: Image, x: nat, y: nat, k: nat)
    requires Scans(f, s, img, x, y) && 0 < x < f.width && y < f.height && Attaches(s, s', x, y, Pixel(x - 1, y), k)
    requires Boxes(s, s.reg[Pixel(x - 1, y)], y)
    ensures Boxes(s', s.reg[Pixel(x - 1, y)], y)
  {
    hide Stored, Accounted, WellLinked, Faithful, Boxed, IsFrame, Scanned;
    CurrentPixel(f, s, img, x, y);
    RegionFacts(f, s, img, x, y, Pixel(x - 1, y));
    AttachWestKeepsBoxed(s.reg, s.g, Pixel(x, y), Pixel(x - 1, y));
  }

  /** The pool after the run that began at (x, y) below its region has moved the bottom side. */
  function Lowered(g: seq<Region>, r: nat, y: int): seq<Region>
    requires r < |g|
  {
    g[r := g[r].(bottom := ToShort(y))]
  }

  lemma AttachNorthBoxes(f: Frame, s: ScanState, s': ScanState, img: Image, x: nat, y: nat, k: nat, row: int)
    requires Scans(f, s, img, x, y) && x < f.width && 0 < y < f.height && Attaches(s, s', x, y, Pixel(x, y - 1), k)
    requires Boxes(s, -1, row) && s.reg[Pixel(x, y - 1)] < |s.g|
    ensures x > 0 ==> Boxes(s'.(g := Lowered(s.g, s.reg[Pixel(x, y - 1)], y)), s.reg[Pixel(x, y - 1)], y)
    ensures x == 0 ==> Boxes(s', s.reg[Pixel(x, y - 1)], y)
  {
    hide Stored, Accounted, WellLinked, Boxed, IsFrame;
    var n := Pixel(x, y - 1);
    CurrentPixel(f, s, img, x, y);
    RegionFacts(f, s, img, x, y, n);
    if x == 0 {
      assert n in s.border && n in s.reg;
      assert AdjacentToRoot in s.g[s.reg[n]].flags;
    }
    var g' := if x == 0 then s.g else Lowered(s.g, s.reg[n], y);
    AttachNorthKeepsBoxed(s.reg, s.g, g', row, Pixel(x, y), n);
  }

  /** The pool after the run that ends at (x - 1, y) has settled the right side. */
  function Widened(g: seq<Region>, r: nat, x: int): seq<Region>
    requires r < |g|
  {
    if g[r].right < x - 1 then g[r := g[r].(right := ToShort(x - 1))] else g
  }

  lemma RunEndBoxes(f: Frame, s: ScanState, img: Image, x: nat, y: nat)
    requires Scans(f, s, img, x, y) && 0 < x < f.width && y < f.height
    requires Pixel(x - 1, y) in s.reg && s.reg[Pixel(x - 1, y)] < |s.g| && Boxes(s, s.reg[Pixel(x - 1, y)], y)
    ensures Boxes(s.(g := Widened(s.g, s.reg[Pixel(x - 1, y)], x)), -1, y)
  {
    hide Stored, Accounted, WellLinked, Faithful, Boxed, IsFrame;
    RunEndKeepsBoxed(s.reg, s.g, Widened(s.g, s.reg[Pixel(x - 1, y)], x), Pixel(x - 1, y));
  }

  /** The run that ends at (x - 1, y) settles the right side of its region. */
  lemma WidenStep(f: Frame, s: ScanState, s': ScanState, img: Image, x: nat, y: nat)
    requires Scans(f, s, img, x, y) && 0 < x < f.width && y < f.height
    requires Pixel(x - 1, y) in s.reg && s.reg[Pixel(x - 1, y)] < |s.g| && Boxes(s, s.reg[Pixel(x - 1, y)], y)
    requires s' == s.(g := Widened(s.g, s.reg[Pixel(x - 1, y)], x))
    ensures Scans(f, s', img, x, y)
    ensures Boxes(s', -1, y) && Boxes(s', s.reg[Pixel(x - 1, y)], y)
    ensures |s'.g| == |s.g| && forall r | 0 <= r < |s.g| :: s'.g[r].colour == s.g[r].colour
  {
    hide Stored, Accounted, Faithful, WellLinked, IsFrame, Scanned, Boxed, Boxes;
    BoxStep(f, s, s', img, x, y);
    RunEndBoxes(f, s, img, x, y);
    ClosedBoxes(f, s', s.reg[Pixel(x - 1, y)], y);
  }

  /** A run that begins below its region: attaches (x, y) and moves the bottom side. */
  lemma LowerStep(f: Frame, s: ScanState, s': ScanState, img: Image, x: nat, y: nat, k: nat)
    requires Scans(f, s, img, x, y) && 0 < x < f.width && 0 < y < f.height && k < |s.refs|
    requires CanAttach(img, s.reg, Pixel(x, y), Pixel(x, y - 1), Pixel(x - 1, y), Pixel(x - 1, y - 1))
    requires Pixel(x, y - 1) in s.reg && s.reg[Pixel(x, y - 1)] < |s.g|
    requires IsRoot(s.refs, k) && s.refs[k].region == Some(s.reg[Pixel(x, y - 1)])
    requires s' == s.(given := s.given[Pixel(x, y) := k], reg := s.reg[Pixel(x, y) := s.reg[Pixel(x, y - 1)]],
                      g := Lowered(s.g, s.reg[Pixel(x, y - 1)], y))
    requires Boxes(s, -1, y)
    ensures Scans(f, s', img, x + 1, y) && Boxes(s', s.reg[Pixel(x, y - 1)], y)
  {
    hide Stored, Accounted, Faithful, WellLinked, IsFrame, Scanned, Boxed, Boxes, CanAttach;
    var n := Pixel(x, y - 1);
    var s1 := s.(given := s.given[Pixel(x, y) := k], reg := s.reg[Pixel(x, y) := s.reg[n]]);
    AttachStep(f, s, s1, img, x, y, k, n, Pixel(x - 1, y), Pixel(x - 1, y - 1));
    AttachNorthBoxes(f, s, s1, img, x, y, k, y);
    BoxStep(f, s1, s', img, x + 1, y);
  }

  // ----- merging at a pixel

  ghost predicate Merges(f: Frame, s: ScanState, s': ScanState, m: seq<Region>, c: Pixel, a: Pixel, b: Pixel,
                         from: nat, to: nat) {
    && a in s.reg && b in s.reg && IsRoot(s.refs, from) && IsRoot(s.refs, to) && from < |s.root| && to < |s.rank|
    && s.refs[from].region == Some(s.reg[a]) && s.refs[to].region == Some(s.reg[b])
    && s.reg[a] < |s.g| && s.reg[b] < |s.g| && |s.rank| == |s.root|
    && |m| == |s.g| && IsMerger(s.g, m, f.capacity, s.reg[b], s.reg[a])
    && s' == ScanState(
               s.refs[from := RegionReference(None, to)],
               Rerooted(s.root, from, to), Lifted(s.root, s.rank, from, s.rank[to] + 1),
               m[s.reg[a] := m[s.reg[a]].(flags := {Free}, next := s.head)],
               s.owner - {s.reg[a]}, Some(s.reg[a]), [s.reg[a]] + s.free,
               s.given[c := to], Relabelled(s.reg, s.reg[b], s.reg[a])[c := s.reg[b]], s.border)
  }

  lemma MergesMade(f: Frame, s: ScanState, s': ScanState, m: seq<Region>, c: Pixel, a: Pixel, b: Pixel, from: nat,
                   to: nat)
    requires a in s.reg && b in s.reg && s.reg[a] < |s.g| && s.reg[b] < |s.g|
    requires IsRoot(s.refs, from) && s.refs[from].region == Some(s.reg[a])
    requires IsRoot(s.refs, to) && s.refs[to].region == Some(s.reg[b])
    requires |s.root| == |s.refs| == |s.rank| && |m| == |s.g| && IsMerger(s.g, m, f.capacity, s.reg[b], s.reg[a])
    requires s'.refs == s.refs[from := RegionReference(None, to)]
    requires s'.root == Rerooted(s.root, from, to) && s'.rank == Lifted(s.root, s.rank, from, s.rank[to] + 1)
    requires s'.g == m[s.reg[a] := m[s.reg[a]].(flags := {Free}, next := s.head)]
    requires s'.owner == s.owner - {s.reg[a]} && s'.head == Some(s.reg[a]) && s'.free == [s.reg[a]] + s.free
    requires s'.given == s.given[c := to] && s'.reg == Relabelled(s.reg, s.reg[b], s.reg[a])[c := s.reg[b]]
    requires s'.border == s.border
    ensures Merges(f, s, s', m, c, a, b, from, to)
  {
  }

  lemma MergeStored(f: Frame, s: ScanState, s': ScanState, m: seq<Region>, img: Image, x: nat, y: nat,
                    a: Pixel, b: Pixel, from: nat, to: nat)
    requires Scans(f, s, img, x, y) && Merges(f, s, s', m, Pixel(x, y), a, b, from, to)
    requires s.reg[a] != s.reg[b] && img[a] == img[b]
    ensures StoredIn(s')
  {
    hide Stored, Accounted, Faithful, WellLinked, IsFrame, IsMerger, Scanned, Forest, Owned, Led, FreeChain, SameFreed;
    RegionFacts(f, s, img, x, y, a);
    RegionFacts(f, s, img, x, y, b);
    MergedPoolStored(f, s, m, s.reg[b], s.reg[a]);
    UniteStored(s.refs, s.root, s.rank, m, s.owner, s.head, s.free, s.given, s.reg, Pixel(x, y), from, to);
  }

  lemma MergedPoolStored(f: Frame, s: ScanState, m: seq<Region>, r1: nat, r2: nat)
    requires StoredIn(s) && WellLinked(s.g, f.capacity) && Live(s.g, r1) && Live(s.g, r2) && r1 != r2
    requires s.g[r1].colour == s.g[r2].colour && IsMerger(s.g, m, f.capacity, r1, r2)
    ensures StoredIn(s.(g := m)) && Live(m, r1) && Live(m, r2) && m[r2].adjacent == []
  {
    hide Stored;
    MergerKeeps(s.g, m, f.capacity, r1, r2);
    MergerFreed(s.g, m, f.capacity, r1, r2);
    SameFreedKeepsStored(s.refs, s.root, s.rank, s.g, m, s.owner, s.head, s.free, s.given, s.reg);
  }

  lemma MergerFreed(g: seq<Region>, m: seq<Region>, capacity: nat, r1: nat, r2: nat)
    requires WellLinked(g, capacity) && WellLinked(m, capacity)
    requires Live(g, r1) && Live(g, r2) && r1 != r2 && IsMerger(g, m, capacity, r1, r2)
    ensures SameFreed(g, m) && Live(m, r1) && Live(m, r2) && m[r2].adjacent == []
  {
    forall a | 0 <= a < |g|
      ensures Free in m[a].flags <==> Free in g[a].flags
      ensures Free in g[a].flags ==> m[a].next == g[a].next && m[a].adjacent == g[a].adjacent
    {
      if a != r1 && a != r2 { assert IsRelinked(g, m, capacity, r1, r2, a); }
    }
  }

  lemma MergeStep(f: Frame, s: ScanState, s': ScanState, m: seq<Region>, img: Image, x: nat, y: nat,
                  a: Pixel, b: Pixel, from: nat, to: nat)
    requires Scans(f, s, img, x, y) && 0 < x < f.width && 0 < y < f.height
    requires a == Pixel(x - 1, y) && b == Pixel(x, y - 1)
    requires Merges(f, s, s', m, Pixel(x, y), a, b, from, to)
    requires s.reg[a] != s.reg[b] && img[a] == img[Pixel(x, y)] == img[b]
    ensures Scans(f, s', img, x + 1, y)
  {
    hide Stored, Accounted, Faithful, WellLinked, IsMerger, IsFrame, Scanned, OnlyNeighbours;
    ScanFacts(f, s, img, x, y);
    var c := Pixel(x, y);
    CurrentPixel(f, s, img, x, y);
    assert IsFreed(m, s'.g, s.reg[a]);
    assert CanMerge(img, s.reg, s.g, m, s'.g, f.capacity, c, a, b);
    MergeKeepsFaithful(img, s.reg, s.g, m, s'.g, f.capacity, s.border, c, a, b);
    MergeCounted(f, s, img, m, s'.g, s'.reg, c, a, b);
    MergeStored(f, s, s', m, img, x, y, a, b, from, to);
    ScannedOne(f, s, s', x, y);
  }

  lemma MergeCounted(f: Frame, s: ScanState, img: Image, m: seq<Region>, g': seq<Region>, reg': Labelling,
                     c: Pixel, a: Pixel, b: Pixel)
    requires WellLinked(s.g, f.capacity) && Faithful(img, s.reg, s.g, s.border)
    requires Accounted(s.reg, s.g, f.capacity, {}) && CanMerge(img, s.reg, s.g, m, g', f.capacity, c, a, b)
    requires reg' == Relabelled(s.reg, s.reg[b], s.reg[a])[c := s.reg[b]]
    ensures Accounted(reg', g', f.capacity, {})
  {
    hide Accounted, WellLinked, Coloured, TouchingAgree, EdgesReal;
    MergeAccounted(img, s.reg, reg', s.g, m, g', f.capacity, c, a, b);
  }

  lemma MergeBoxes(f: Frame, s: ScanState, s': ScanState, m: seq<Region>, img: Image, x: nat, y: nat,
                   a: Pixel, b: Pixel, from: nat, to: nat)
    requires Scans(f, s, img, x, y) && 0 < x < f.width && 0 < y < f.height
    requires a == Pixel(x - 1, y) && b == Pixel(x, y - 1)
    requires Merges(f, s, s', m, Pixel(x, y), a, b, from, to)
    requires s.reg[a] != s.reg[b] && Boxes(s, s.reg[a], y)
    ensures Boxes(s', s.reg[b], y)
  {
    hide Stored, Accounted, WellLinked, IsMerger, Faithful, Boxed, IsFrame, Scanned;
    CurrentPixel(f, s, img, x, y);
    RegionFacts(f, s, img, x, y, a);
    RegionFacts(f, s, img, x, y, b);
    MergeKeepsBoxed(s.reg, s.g, m, s'.g, f.capacity, Pixel(x, y), a, b);
  }

  // ----- the two ends of the scan

  lemma Begin(f: Frame, s: ScanState, img: Image)
    requires IsFrame(f, img) && f.width > 0 && f.height > 0
    requires s == ScanState([], [], [], [], map[], None, [], map[], map[], {})
    ensures Scans(f, s, img, 0, 0)
  {
    hide Stored, Accounted, Faithful, IsFrame;
    NothingStored();
    NothingFaithful(img);
  }

  lemma NothingStored()
    ensures Stored([], [], [], [], map[], None, [], map[], map[])
  {
    hide Forest, Owned, FreeChain, Led;
    NothingReferred();
    NothingOwned();
    NothingFree();
  }

  lemma NothingReferred()
    ensures Forest([], [], []) && Led([], [], map[], map[])
  {
  }

  lemma NothingOwned()
    ensures Owned([], [], map[])
  {
  }

  lemma NothingFree()
    ensures FreeChain([], None, [])
  {
  }

  lemma NothingFaithful(img: Image)
    ensures Faithful(img, map[], [], {}) && forall capacity :: Accounted(map[], [], capacity, {})
  {
  }

  /** Where the references of a row lead is not affected by shortening a path. */
  lemma CellsShortened(s: ScanState, s': ScanState, rows: seq<nat>, rows': seq<nat>, base: nat, y: int, n: int,
                       slot: nat)
    requires Cells(s, rows, base, y, n) && s'.given == s.given && s'.root == s.root
    requires slot < |rows| && rows[slot] < |s.root| && s.root[rows[slot]] < |s.root|
    requires rows' == rows[slot := s.root[rows[slot]]] && s.root[s.root[rows[slot]]] == s.root[rows[slot]]
    ensures Cells(s', rows', base, y, n)
  {
  }

  /** The state when all rows are done and n pixels of the bottom row have been flagged. */
  ghost predicate Finishing(f: Frame, s: ScanState, img: Image, n: int) {
    && IsFrame(f, img) && StoredIn(s) && WellLinked(s.g, f.capacity) && Faithful(img, s.reg, s.g, s.border)
    && Accounted(s.reg, s.g, f.capacity, {})
    && s.reg.Keys == img.Keys && |s.refs| <= |s.given|
    && (forall p :: p in s.border <==>
          p in s.reg && (p.y == 0 || p.x == 0 || p.x == f.width - 1 || (p.y == f.height - 1 && p.x < n)))
  }

  lemma StartFinishing(f: Frame, s: ScanState, img: Image)
    requires Scans(f, s, img, 0, f.height) && f.height > 0
    ensures Finishing(f, s, img, 0)
  {
    hide Stored, Accounted, Faithful, WellLinked;
    forall p ensures p in s.reg <==> p in img {}
  }

  lemma FinishStep(f: Frame, s: ScanState, s': ScanState, img: Image, x: nat, p: Pixel)
    requires Finishing(f, s, img, x) && x < f.width && f.height > 0 && p == Pixel(x, f.height - 1)
    requires p in s.reg && s.reg[p] < |s.g|
    requires s' == s.(g := AddFlag(s.g, s.reg[p], AdjacentToRoot), border := s.border + {p})
    ensures Finishing(f, s', img, x + 1)
  {
    hide Stored, Accounted, Faithful, WellLinked, IsFrame;
    FlagStep(f, s, img, p);
  }

  lemma FinishShorten(f: Frame, s: ScanState, s': ScanState, img: Image, x: nat, k: nat)
    requires Finishing(f, s, img, x) && k < |s.refs| && k < |s.root|
    requires s' == s.(refs := s.refs[k := s.refs[k].(redirect := s.root[k])])
    ensures Finishing(f, s', img, x)
  {
    hide Stored, Accounted, Faithful, WellLinked, IsFrame;
    ShorteningKeepsStored(s.refs, s.root, s.rank, s.g, s.owner, s.head, s.free, s.given, s.reg, k);
  }

  lemma FinishFacts(f: Frame, s: ScanState, img: Image, x: int, rows: seq<nat>, base: nat, row: int, n: int, i: int)
    requires Finishing(f, s, img, x) && Cells(s, rows, base, row, n) && 0 <= i < n
    ensures StoredIn(s)
    ensures Pixel(i, row) in s.reg && s.reg[Pixel(i, row)] < |s.g| && |s.root| == |s.refs|
    ensures rows[base + i] < |s.refs| && s.root[rows[base + i]] < |s.refs|
    ensures IsRoot(s.refs, s.root[rows[base + i]]) && s.root[s.root[rows[base + i]]] == s.root[rows[base + i]]
    ensures s.refs[s.root[rows[base + i]]].region == Some(s.reg[Pixel(i, row)])
  {
    StoredFacts(s.refs, s.root, s.rank, s.g, s.owner, s.head, s.free, s.given, s.reg);
  }

  lemma FinishBoxes(f: Frame, s: ScanState, r: nat, border: set<Pixel>, row: int)
    requires r < |s.g| && Boxes(s, -1, row)
    ensures Boxes(s.(g := AddFlag(s.g, r, AdjacentToRoot), border := border), -1, row)
  {
    FlagKeepsBoxed(s.reg, s.g, r, -1, row);
  }

  // ----- the top row

  lemma NoCells(s: ScanState, rows: seq<nat>)
    ensures Cells(s, rows, 0, 0, 0)
  {
  }

  lemma TopCells(s: ScanState, s': ScanState, rows: seq<nat>, rows': seq<nat>, x: nat, k: nat)
    requires Cells(s, rows, 0, 0, x) && x < |rows| && rows' == rows[x := k]
    requires s'.given == s.given[Pixel(x, 0) := k] && Pixel(x, 0) !in s.given && k < |s'.root|
    requires s'.root == s.root || (s'.root == s.root + [|s.refs|])
    ensures Cells(s', rows', 0, 0, x + 1)
  {
    RootsAgreeCases(s.root, |s.refs|, 0, 0);
    CellsKept(s, s', rows, rows', 0, 0, x);
  }

  lemma TopBorder(f: Frame, s: ScanState, img: Image, x: int, p: Pixel)
    requires Scans(f, s, img, x, 0) && p in s.reg
    ensures p in s.border
  {
  }

  lemma NoCellsAt(s: ScanState, rows: seq<nat>, base: nat, y: int)
    requires base <= |rows|
    ensures Cells(s, rows, base, y, 0)
  {
  }

  lemma NoWest(f: Frame, s: ScanState, img: Image, y: int)
    requires Progress(f, s, img, 1, y)
    ensures Pixel(-1, y) !in s.reg
  {
  }

  lemma NoNorth(f: Frame, s: ScanState, img: Image, x: int)
    requires Progress(f, s, img, x + 1, 0)
    ensures Pixel(x, -1) !in s.reg
  {
  }

  lemma EndTop(f: Frame, s: ScanState, img: Image)
    requires Scans(f, s, img, f.width, 0) && f.height > 0
    ensures Scans(f, s, img, 0, 1)
  {
    hide Stored, Accounted, Faithful, WellLinked, IsFrame;
    forall p: Pixel ensures Before(f.width, f.width, 0, p) <==> Before(f.width, 0, 1, p) {}
  }

  lemma TopBoxesAbove(f: Frame, s: ScanState, img: Image)
    requires Scans(f, s, img, f.width, 0)
    ensures Boxes(s, -1, 0)
  {
    TopBoxes(f, s, img, f.width, -1, 0);
  }

  lemma RootRegionKept(refs: seq<RegionReference>, refs': seq<RegionReference>, k: nat)
    requires k < |refs| == |refs'| && forall j | 0 <= j < |refs| :: refs'[j].region == refs[j].region
    ensures refs'[k].region == refs[k].region
  {
  }

  lemma SameBoxesKept(f: Frame, s: ScanState, s': ScanState, open: int, row: int)
    requires Boxes(s, open, row) && s'.reg == s.reg && s'.g == s.g
    ensures Boxes(s', open, row)
  {
  }

  // ----- the result

  /** Where the reference given to pixel p leads. */
  ghost function RootOf(s: ScanState, p: Pixel): int {
    if p in s.given && s.given[p] < |s.root| then s.root[s.given[p]] else -1
  }

  /** What step_segmenter leaves behind for the image. */
  ghost predicate Segmented(f: Frame, s: ScanState, img: Image) {
    && Finishing(f, s, img, f.width)
    && Boxes(s, -1, f.height - 1)
    && |s.g| <= |s.refs| <= f.height * f.width
  }

  lemma Finish(f: Frame, s: ScanState, img: Image)
    requires Finishing(f, s, img, f.width) && Boxes(s, -1, f.height - 1)
    ensures Segmented(f, s, img)
  {
    StoredFacts(s.refs, s.root, s.rank, s.g, s.owner, s.head, s.free, s.given, s.reg);
    SmallerSet(s.given.Keys, img.Keys);
    assert |s.given| == |s.given.Keys| && |img| == |img.Keys|;
  }
}
