/** The meaning of a labelling of the scanned pixels by regions of the pool, and the
    steps of the raster scan that keep it. */
module Components {
  import opened Regions
  import opened RegionGraph
  import opened Pixels

  type Labelling = map<Pixel, nat>

  /** Every scanned pixel belongs to a live region of its own colour. */
  ghost predicate Coloured(img: Image, reg: Labelling, g: seq<Region>) {
    forall p | p in reg :: p in img && Live(g, reg[p]) && g[reg[p]].colour == img[p]
  }

  ghost predicate Inhabited(reg: Labelling, g: seq<Region>) {
    forall r | Live(g, r) :: r in reg.Values
  }

  ghost predicate TouchingAgree(img: Image, reg: Labelling)
  {
    && reg.Keys <= img.Keys
    && forall p, q | p in reg && q in reg && Touch(p, q) && img[p] == img[q] :: reg[p] == reg[q]
  }

  ghost predicate RegionsJoined(img: Image, reg: Labelling) {
    forall p, q | p in reg && q in reg && reg[p] == reg[q] :: Joined(img, reg.Keys, p, q)
  }

  ghost predicate TouchAt(reg: Labelling, p: Pixel, q: Pixel, a: nat, b: nat) {
    p in reg && q in reg && Touch(p, q) && reg[p] == a && reg[q] == b
  }

  /** Listed neighbours really touch somewhere. */
  ghost predicate EdgesReal(reg: Labelling, g: seq<Region>) {
    forall a, b | Lists(g, a, b) :: exists p, q :: TouchAt(reg, p, q, a, b)
  }

  /** The graph knows about every two touching pixels of different colour. */
  ghost predicate TouchingLinked(img: Image, reg: Labelling, g: seq<Region>)
  {
    && Coloured(img, reg, g)
    && forall p, q | p in reg && q in reg && Touch(p, q) && img[p] != img[q] :: Linked(g, reg[p], reg[q])
  }

  /** Exactly the regions with a pixel in the border are flagged. */
  ghost predicate Bordered(reg: Labelling, g: seq<Region>, border: set<Pixel>) {
    forall r | Live(g, r) :: AdjacentToRoot in g[r].flags <==> exists p | p in border :: p in reg && reg[p] == r
  }

  /** The box of r bounds its pixels and is attained on every side; only the pixels of
      an unfinished run, those of row `row' in region `open', may exceed the right side. */
  ghost predicate BoxExact(reg: Labelling, g: seq<Region>, r: nat, open: int, row: int)
    requires r < |g|
  {
    && (forall p | p in reg && reg[p] == r ::
          && g[r].left <= p.x && g[r].top <= p.y <= g[r].bottom
          && (p.x <= g[r].right || (r == open && p.y == row)))
    && (exists p | p in reg :: reg[p] == r && p.x == g[r].left)
    && (exists p | p in reg :: reg[p] == r && p.x == g[r].right)
    && (exists p | p in reg :: reg[p] == r && p.y == g[r].top)
    && (exists p | p in reg :: reg[p] == r && p.y == g[r].bottom)
  }

  /** The coordinates of the region's pixels fit into a short. */
  ghost predicate Small(reg: Labelling, r: nat) {
    forall p | p in reg && reg[p] == r :: p.x <= MAX_SHORT && p.y <= MAX_SHORT
  }

  /** The box is held in shorts, and it is exact as far as they reach. */
  ghost predicate BoxKept(reg: Labelling, g: seq<Region>, r: nat, open: int, row: int)
    requires r < |g|
  {
    && g[r].right <= MAX_SHORT && g[r].bottom <= MAX_SHORT
    && (Small(reg, r) ==> BoxExact(reg, g, r, open, row))
  }

  ghost predicate Boxed(reg: Labelling, g: seq<Region>, open: int, row: int) {
    forall r | Live(g, r) && AdjacentToRoot !in g[r].flags :: BoxKept(reg, g, r, open, row)
  }

  /** With more pixels a region does not become smaller. */
  lemma SmallBefore(reg: Labelling, reg': Labelling, r: nat, r': nat)
    requires forall p | p in reg && reg[p] == r :: p in reg' && reg'[p] == r'
    ensures Small(reg', r') ==> Small(reg, r)
  {
  }

  /** Everything but the boxes. */
  ghost predicate Faithful(img: Image, reg: Labelling, g: seq<Region>, border: set<Pixel>) {
    && Coloured(img, reg, g)
    && Inhabited(reg, g)
    && TouchingAgree(img, reg)
    && RegionsJoined(img, reg)
    && EdgesReal(reg, g)
    && TouchingLinked(img, reg, g)
    && Bordered(reg, g, border)
  }

  // ----- from the labelling to connectivity

  lemma {:induction false} PathStaysInRegion(img: Image, reg: Labelling, path: seq<Pixel>)
    requires reg.Keys <= img.Keys && TouchingAgree(img, reg) && IsPath(img, reg.Keys, path)
    ensures reg[path[0]] == reg[path[|path| - 1]]
    decreases |path|
  {
    if |path| <= 1 {
    } else {
      var init := path[..|path| - 1];
      assert IsPath(img, reg.Keys, init);
      PathStaysInRegion(img, reg, init);
      assert Touch(path[|path| - 2], path[|path| - 2 + 1]);
    }
  }

  /** Two scanned pixels have the same region exactly when a path of touching pixels
      of one colour joins them. */
  lemma RegionsAreComponents(img: Image, reg: Labelling, p: Pixel, q: Pixel)
    requires reg.Keys <= img.Keys && TouchingAgree(img, reg) && RegionsJoined(img, reg)
    requires p in reg && q in reg
    ensures reg[p] == reg[q] <==> Joined(img, reg.Keys, p, q)
  {
    if Joined(img, reg.Keys, p, q) {
      var path :| IsPath(img, reg.Keys, path) && path[0] == p && path[|path| - 1] == q;
      PathStaysInRegion(img, reg, path);
    }
  }

  // ----- steps that only touch the pool

  /** Regions keep their colour and liveness; flags only grow, by flags that do not
      concern the labelling. */
  ghost predicate SameRegions(g: seq<Region>, g': seq<Region>) {
    && |g'| == |g|
    && forall r | 0 <= r < |g| ::
         && g'[r].colour == g[r].colour
         && (Free in g'[r].flags <==> Free in g[r].flags)
         && (AdjacentToRoot in g'[r].flags <==> AdjacentToRoot in g[r].flags)
  }

  ghost predicate SameBoxes(g: seq<Region>, g': seq<Region>) {
    && |g'| == |g|
    && forall r | 0 <= r < |g| ::
         g'[r].left == g[r].left && g'[r].top == g[r].top && g'[r].right == g[r].right && g'[r].bottom == g[r].bottom
  }

  lemma LinkKeepsBoxed(reg: Labelling, g: seq<Region>, g': seq<Region>, open: int, row: int)
    requires Boxed(reg, g, open, row) && SameRegions(g, g') && SameBoxes(g, g')
    ensures Boxed(reg, g', open, row)
  {
    forall r | Live(g', r) && AdjacentToRoot !in g'[r].flags ensures BoxKept(reg, g', r, open, row)
    {
      assert Live(g, r) && BoxKept(reg, g, r, open, row);
    }
  }

  /** A step that leaves the links and flags of every region alone. */
  ghost predicate OnlyBoxesChange(g: seq<Region>, g': seq<Region>) {
    && |g'| == |g|
    && forall r | 0 <= r < |g| ::
         g'[r] == g[r].(left := g'[r].left, top := g'[r].top, right := g'[r].right, bottom := g'[r].bottom)
  }

  lemma BoxStepKeepsFaithful(img: Image, reg: Labelling, g: seq<Region>, g': seq<Region>, border: set<Pixel>)
    requires Faithful(img, reg, g, border) && OnlyBoxesChange(g, g')
    ensures Faithful(img, reg, g', border)
  {
    assert forall a, b :: Lists(g', a, b) <==> Lists(g, a, b);
    assert forall r :: Live(g', r) <==> Live(g, r);
    forall p, q | p in reg && q in reg && Touch(p, q) && img[p] != img[q] ensures Linked(g', reg[p], reg[q]) {
      assert Linked(g, reg[p], reg[q]);
    }
  }

  lemma BoxStepKeepsWellLinked(g: seq<Region>, g': seq<Region>, capacity: nat)
    requires WellLinked(g, capacity) && OnlyBoxesChange(g, g')
    ensures WellLinked(g', capacity)
  {
    forall a, b | 0 <= a < |g'| && 0 <= b < |g'| ensures Mult(g', a, b) == Mult(g', b, a) {
      assert Mult(g, a, b) == Mult(g, b, a);
    }
    forall a, b | Lists(g', a, b) ensures b < |g'| && g'[b].colour != g'[a].colour {
      assert Lists(g, a, b);
    }
  }

  /** Flagging the region of a border pixel. */
  lemma FlagKeepsFaithful(img: Image, reg: Labelling, g: seq<Region>, border: set<Pixel>, p: Pixel)
    requires Faithful(img, reg, g, border) && p in reg
    ensures Faithful(img, reg, AddFlag(g, reg[p], AdjacentToRoot), border + {p})
  {
    var g' := AddFlag(g, reg[p], AdjacentToRoot);
    assert forall a, b :: Lists(g', a, b) <==> Lists(g, a, b);
    assert forall r :: Live(g', r) <==> Live(g, r);
    forall u, v | u in reg && v in reg && Touch(u, v) && img[u] != img[v] ensures Linked(g', reg[u], reg[v]) {
      assert Linked(g, reg[u], reg[v]);
    }
    forall r | Live(g', r)
      ensures AdjacentToRoot in g'[r].flags <==> exists q | q in border + {p} :: q in reg && reg[q] == r
    {
      assert Live(g, r);
      if r == reg[p] {
        assert p in border + {p};
      } else {
        assert forall q | q in border + {p} && q in reg && reg[q] == r :: q in border;
        assert forall q | q in border :: q in border + {p};
      }
    }
  }

  lemma FlagKeepsWellLinked(g: seq<Region>, capacity: nat, r: nat)
    requires WellLinked(g, capacity) && r < |g|
    ensures WellLinked(AddFlag(g, r, AdjacentToRoot), capacity)
  {
    var g' := AddFlag(g, r, AdjacentToRoot);
    forall a, b | 0 <= a < |g'| && 0 <= b < |g'| ensures Mult(g', a, b) == Mult(g', b, a) {
      assert Mult(g, a, b) == Mult(g, b, a);
    }
    forall a, b | Lists(g', a, b) ensures b < |g'| && g'[b].colour != g'[a].colour {
      assert Lists(g, a, b);
    }
  }

  /** Flagging a region takes it out of the regions whose boxes matter. */
  lemma FlagKeepsBoxed(reg: Labelling, g: seq<Region>, r: nat, open: int, row: int)
    requires Boxed(reg, g, open, row) && r < |g|
    ensures Boxed(reg, AddFlag(g, r, AdjacentToRoot), open, row)
    ensures r == open ==> forall row' :: Boxed(reg, AddFlag(g, r, AdjacentToRoot), -1, row')
  {
    var g' := AddFlag(g, r, AdjacentToRoot);
    forall s | Live(g', s) && AdjacentToRoot !in g'[s].flags
      ensures BoxKept(reg, g', s, open, row)
      ensures r == open ==> forall row' :: BoxKept(reg, g', s, -1, row')
    {
      assert Live(g, s) && BoxKept(reg, g, s, open, row);
    }
  }

  // ----- labelling one more pixel

  /** The neighbours of c that have been scanned are among west and north. */
  ghost predicate OnlyNeighbours(reg: Labelling, c: Pixel, near: set<Pixel>) {
    forall p | p in reg && (Touch(p, c) || Touch(c, p)) :: p in near
  }

  /** The corner argument: c gets the region of its neighbour a; its other neighbour b
      has another colour, and d touches both a and b. */
  ghost predicate Corner(img: Image, reg: Labelling, a: Pixel, b: Pixel, d: Pixel)
  {
    && reg.Keys <= img.Keys
    && a in reg && b in reg && d in reg
    && Touch(a, d) && Touch(d, b)
    && img[a] != img[b] && (img[d] == img[a] || img[d] == img[b])
  }

  lemma CornerLinked(img: Image, reg: Labelling, g: seq<Region>, capacity: nat, a: Pixel, b: Pixel, d: Pixel)
    requires WellLinked(g, capacity) && Coloured(img, reg, g)
    requires TouchingAgree(img, reg) && TouchingLinked(img, reg, g) && Corner(img, reg, a, b, d)
    ensures Linked(g, reg[a], reg[b]) && Linked(g, reg[b], reg[a])
  {
    if img[d] == img[a] {
      assert reg[d] == reg[a] && Linked(g, reg[d], reg[b]);
    } else {
      assert reg[d] == reg[b] && Linked(g, reg[a], reg[d]);
    }
    LinkedSymmetric(g, capacity, reg[a], reg[b]);
  }

  /** Pixel c joins the region of its scanned neighbour a.  Its other scanned
      neighbour, if there is one, is in the same region or lies across a corner. */
  ghost predicate CanAttach(img: Image, reg: Labelling, c: Pixel, a: Pixel, b: Pixel, d: Pixel)
  {
    && reg.Keys <= img.Keys
    && c in img && c !in reg && a in reg && Touch(a, c) && Touch(c, a) && img[a] == img[c]
    && OnlyNeighbours(reg, c, {a, b})
    && (b in reg ==> reg[b] == reg[a] || Corner(img, reg, a, b, d))
  }

  lemma AttachKeepsFaithful(img: Image, reg: Labelling, g: seq<Region>, capacity: nat, border: set<Pixel>,
                            c: Pixel, a: Pixel, b: Pixel, d: Pixel)
    requires WellLinked(g, capacity) && Faithful(img, reg, g, border) && CanAttach(img, reg, c, a, b, d)
    requires c !in border
    ensures Faithful(img, reg[c := reg[a]], g, border)
    ensures a in border ==> Faithful(img, reg[c := reg[a]], g, border + {c})
  {
    var reg' := reg[c := reg[a]];
    AttachAgree(img, reg, g, c, a, b, d);
    AttachJoined(img, reg, c, a);
    AttachLinked(img, reg, g, capacity, c, a, b, d);
    forall x, y | Lists(g, x, y) ensures exists p, q :: TouchAt(reg', p, q, x, y) {
      var p, q :| TouchAt(reg, p, q, x, y);
      assert TouchAt(reg', p, q, x, y);
    }
    forall r | Live(g, r) ensures r in reg'.Values {
      var p :| p in reg && reg[p] == r;
      assert p in reg' && reg'[p] == r;
    }
    AttachBordered(reg, g, border, c, a);
  }

  lemma AttachBordered(reg: Labelling, g: seq<Region>, border: set<Pixel>, c: Pixel, a: Pixel)
    requires Bordered(reg, g, border) && c !in border && c !in reg && a in reg
    ensures Bordered(reg[c := reg[a]], g, border)
    ensures a in border ==> Bordered(reg[c := reg[a]], g, border + {c})
  {
    var reg' := reg[c := reg[a]];
    forall r | Live(g, r)
      ensures AdjacentToRoot in g[r].flags <==> exists p | p in border :: p in reg' && reg'[p] == r
      ensures a in border ==>
                (AdjacentToRoot in g[r].flags <==> exists p | p in border + {c} :: p in reg' && reg'[p] == r)
    {
      if p :| p in border && p in reg && reg[p] == r {
        assert p in reg' && reg'[p] == r && p in border + {c};
      }
      if p :| p in border + {c} && p in reg' && reg'[p] == r {
        if p == c {
          assert reg[a] == r;
        } else {
          assert p in border && p in reg && reg[p] == r;
        }
      }
    }
  }

  lemma AttachAgree(img: Image, reg: Labelling, g: seq<Region>, c: Pixel, a: Pixel, b: Pixel, d: Pixel)
    requires reg.Keys <= img.Keys && TouchingAgree(img, reg) && CanAttach(img, reg, c, a, b, d)
    ensures TouchingAgree(img, reg[c := reg[a]])
  {
  }

  lemma AttachJoined(img: Image, reg: Labelling, c: Pixel, a: Pixel)
    requires reg.Keys <= img.Keys && RegionsJoined(img, reg)
    requires c in img && c !in reg && a in reg && Touch(a, c) && img[a] == img[c]
    ensures RegionsJoined(img, reg[c := reg[a]])
  {
    var reg' := reg[c := reg[a]];
    var all := reg'.Keys;
    forall p, q | p in reg' && q in reg' && reg'[p] == reg'[q] ensures Joined(img, all, p, q) {
      var p0, q0 := if p == c then a else p, if q == c then a else q;
      JoinedGrows(img, reg.Keys, all, p0, q0);
      JoinedStep(img, all, a, c);
      JoinedSymmetric(img, all, a, c);
      if p == c { JoinedTransitive(img, all, c, a, q0); }
      if q == c { JoinedTransitive(img, all, p, a, c); }
    }
  }

  lemma AttachLinked(img: Image, reg: Labelling, g: seq<Region>, capacity: nat, c: Pixel, a: Pixel, b: Pixel, d: Pixel)
    requires WellLinked(g, capacity) && Coloured(img, reg, g)
    requires TouchingAgree(img, reg) && TouchingLinked(img, reg, g) && CanAttach(img, reg, c, a, b, d)
    ensures Coloured(img, reg[c := reg[a]], g) && TouchingLinked(img, reg[c := reg[a]], g)
  {
    var reg' := reg[c := reg[a]];
    assert Coloured(img, reg', g);
    forall p, q | p in reg' && q in reg' && Touch(p, q) && img[p] != img[q]
      ensures Linked(g, reg'[p], reg'[q])
    {
      if p == c || q == c {
        assert b in reg && (p == b || q == b);
        CornerLinked(img, reg, g, capacity, a, b, d);
      }
    }
  }

  /** The run goes on: its right side may lag behind. */
  lemma AttachWestKeepsBoxed(reg: Labelling, g: seq<Region>, c: Pixel, a: Pixel)
    requires c !in reg && a in reg && reg[a] < |g| && a == Pixel(c.x - 1, c.y) && Boxed(reg, g, reg[a], c.y)
    ensures Boxed(reg[c := reg[a]], g, reg[a], c.y)
  {
    var reg' := reg[c := reg[a]];
    forall r: nat | Live(g, r) && AdjacentToRoot !in g[r].flags ensures BoxKept(reg', g, r, reg[a], c.y) {
      assert BoxKept(reg, g, r, reg[a], c.y);
      SmallBefore(reg, reg', r, r);
      if Small(reg', r) { BoxWitnesses(reg, g, r, reg[a], c.y, c, reg[a]); }
    }
  }

  /** The box stays attained when one more pixel is labelled. */
  lemma BoxWitnesses(reg: Labelling, g: seq<Region>, r: nat, open: int, row: int, c: Pixel, owner: nat)
    requires r < |g| && c !in reg && BoxExact(reg, g, r, open, row)
    ensures var reg' := reg[c := owner];
            && (exists p | p in reg' :: reg'[p] == r && p.x == g[r].left)
            && (exists p | p in reg' :: reg'[p] == r && p.x == g[r].right)
            && (exists p | p in reg' :: reg'[p] == r && p.y == g[r].top)
            && (exists p | p in reg' :: reg'[p] == r && p.y == g[r].bottom)
  {
    var reg' := reg[c := owner];
    var p0 :| p0 in reg && reg[p0] == r && p0.x == g[r].left;
    var p1 :| p1 in reg && reg[p1] == r && p1.x == g[r].right;
    var p2 :| p2 in reg && reg[p2] == r && p2.y == g[r].top;
    var p3 :| p3 in reg && reg[p3] == r && p3.y == g[r].bottom;
    assert p0 in reg' && p1 in reg' && p2 in reg' && p3 in reg';
  }

  /** A new run that continues the region above: only the bottom side moves. */
  lemma AttachNorthKeepsBoxed(reg: Labelling, g: seq<Region>, g': seq<Region>, row: int, c: Pixel, a: Pixel)
    requires c !in reg && a in reg && reg[a] < |g| && a == Pixel(c.x, c.y - 1) && Boxed(reg, g, -1, row)
    requires 0 <= c.y && forall p | p in reg :: p.y <= c.y
    requires g' == g[reg[a] := g[reg[a]].(bottom := ToShort(c.y))] || (g' == g && AdjacentToRoot in g[reg[a]].flags)
    ensures Boxed(reg[c := reg[a]], g', reg[a], c.y)
  {
    var reg' := reg[c := reg[a]];
    forall r: nat | Live(g', r) && AdjacentToRoot !in g'[r].flags ensures BoxKept(reg', g', r, reg[a], c.y) {
      assert Live(g, r) && BoxKept(reg, g, r, -1, row);
      SmallBefore(reg, reg', r, r);
      if Small(reg', r) {
        BoxWitnesses(reg, g, r, -1, row, c, reg[a]);
        if r == reg[a] {
          assert c in reg' && reg'[c] == r && c.y == g'[r].bottom;
        }
      }
    }
  }

  /** The run that ends in column x settles the right side of its region. */
  lemma RunEndKeepsBoxed(reg: Labelling, g: seq<Region>, g': seq<Region>, last: Pixel)
    requires last in reg && reg[last] < |g| && Boxed(reg, g, reg[last], last.y)
    requires 0 <= last.x && forall p | p in reg && p.y == last.y :: p.x <= last.x
    requires g' == if g[reg[last]].right < last.x then g[reg[last] := g[reg[last]].(right := ToShort(last.x))] else g
    ensures forall row :: Boxed(reg, g', -1, row)
  {
    forall r: nat, row | Live(g', r) && AdjacentToRoot !in g'[r].flags ensures BoxKept(reg, g', r, -1, row) {
      assert Live(g, r) && BoxKept(reg, g, r, reg[last], last.y);
      if Small(reg, r) { RunEndExact(reg, g, g', last, r, row); }
    }
  }

  lemma RunEndExact(reg: Labelling, g: seq<Region>, g': seq<Region>, last: Pixel, r: nat, row: int)
    requires last in reg && reg[last] < |g| && r < |g| && BoxExact(reg, g, r, reg[last], last.y) && Small(reg, r)
    requires 0 <= last.x && forall p | p in reg && p.y == last.y :: p.x <= last.x
    requires g' == if g[reg[last]].right < last.x then g[reg[last] := g[reg[last]].(right := ToShort(last.x))] else g
    ensures BoxExact(reg, g', r, -1, row)
  {
    var p0 :| p0 in reg && reg[p0] == r && p0.x == g[r].left;
    var p1 :| p1 in reg && reg[p1] == r && p1.x == g[r].right;
    var p2 :| p2 in reg && reg[p2] == r && p2.y == g[r].top;
    var p3 :| p3 in reg && reg[p3] == r && p3.y == g[r].bottom;
    if g'[r].right != g[r].right {
      assert reg[last] == r && last.x == g'[r].right;
    }
  }

  // ----- a pixel that opens a region

  /** Slot r holds a region that is not in use, or is the next slot of the pool. */
  ghost predicate Vacant(g: seq<Region>, r: nat) {
    r == |g| || (r < |g| && Free in g[r].flags && g[r].adjacent == [])
  }

  function PutRegion(g: seq<Region>, r: nat, record: Region): seq<Region>
    requires r <= |g|
  {
    if r == |g| then g + [record] else g[r := record]
  }

  ghost predicate OpensRegion(g: seq<Region>, g': seq<Region>, r: nat, c: Pixel, colour: nat, edge: bool) {
    && Vacant(g, r)
    && |g'| == (if r == |g| then |g| + 1 else |g|)
    && (forall s | 0 <= s < |g'| && s != r :: g'[s] == g[s])
    && g'[r].colour == colour && g'[r].adjacent == []
    && g'[r].flags == (if edge then {AdjacentToRoot} else {})
    && g'[r].left == ToShort(c.x) == g'[r].right && g'[r].top == ToShort(c.y) == g'[r].bottom
    && Untouched(g'[r])
  }

  lemma OpenKeepsWellLinked(g: seq<Region>, g': seq<Region>, capacity: nat, r: nat, c: Pixel, colour: nat, edge: bool)
    requires WellLinked(g, capacity) && OpensRegion(g, g', r, c, colour, edge)
    ensures WellLinked(g', capacity)
    ensures forall a, b :: Lists(g', a, b) <==> Lists(g, a, b)
    ensures forall a, b | 0 <= a < |g| && 0 <= b < |g| && Live(g, a) && Live(g, b) ::
              Linked(g', a, b) == Linked(g, a, b)
  {
    forall a, b ensures Lists(g', a, b) <==> Lists(g, a, b) {}
    forall a, b | Lists(g, a, b) ensures b != r {
      if b == r {
        assert b < |g| && g[r].adjacent == [];
        LinkedSymmetric(g, capacity, a, r);
      }
    }
    forall a, b | 0 <= a < |g'| && 0 <= b < |g'| ensures Mult(g', a, b) == Mult(g', b, a) {
      if a < |g| && b < |g| {
        assert Mult(g, a, b) == Mult(g, b, a);
        ListsMult(g, a, b);
        ListsMult(g, b, a);
      } else if a != b {
        ListsMult(g', a, b);
        ListsMult(g', b, a);
      }
    }
  }

  /** The state of the labelling right after new_region: faithful but for the links
      of c, which make_adjacent is about to establish. */
  ghost predicate FaithfulBut(img: Image, reg: Labelling, g: seq<Region>, border: set<Pixel>, c: Pixel) {
    && Coloured(img, reg, g)
    && Inhabited(reg, g)
    && TouchingAgree(img, reg)
    && RegionsJoined(img, reg)
    && EdgesReal(reg, g)
    && (forall p, q | p in reg && q in reg && p != c && q != c && Touch(p, q) && img[p] != img[q] ::
          Linked(g, reg[p], reg[q]))
    && Bordered(reg, g, border)
  }

  lemma OpenKeepsFaithful(img: Image, reg: Labelling, g: seq<Region>, g': seq<Region>, capacity: nat,
                          border: set<Pixel>, r: nat, c: Pixel, edge: bool)
    requires WellLinked(g, capacity) && Faithful(img, reg, g, border)
    requires c in img && c !in reg && c !in border && OpensRegion(g, g', r, c, img[c], edge)
    requires forall p | p in reg && (Touch(p, c) || Touch(c, p)) :: img[p] != img[c]
    ensures FaithfulBut(img, reg[c := r], g', if edge then border + {c} else border, c)
  {
    var reg' := reg[c := r];
    OpenKeepsWellLinked(g, g', capacity, r, c, img[c], edge);
    forall p | p in reg ensures reg[p] != r && reg'[p] == reg[p] && Live(g', reg[p]) {
      assert Live(g, reg[p]);
    }
    assert reg'[c] == r;
    assert TouchingAgree(img, reg');
    OpenJoined(img, reg, r, c);
    OpenInhabited(reg, g, g', r, c, img[c], edge);
    OpenBordered(img, reg, g, g', border, r, c, edge);
    forall a, b | Lists(g', a, b) ensures exists p, q :: TouchAt(reg', p, q, a, b) {
      assert Lists(g, a, b);
      var p, q :| TouchAt(reg, p, q, a, b);
      assert TouchAt(reg', p, q, a, b);
    }
    forall p, q | p in reg' && q in reg' && p != c && q != c && Touch(p, q) && img[p] != img[q]
      ensures Linked(g', reg'[p], reg'[q])
    {
      assert p in reg && q in reg && Linked(g, reg[p], reg[q]);
    }
  }

  lemma OpenJoined(img: Image, reg: Labelling, r: nat, c: Pixel)
    requires RegionsJoined(img, reg) && c in img && c !in reg && forall p | p in reg :: reg[p] != r
    ensures RegionsJoined(img, reg[c := r])
  {
    var reg' := reg[c := r];
    forall p, q | p in reg' && q in reg' && reg'[p] == reg'[q] ensures Joined(img, reg'.Keys, p, q) {
      if p == c {
        assert q == c;
        JoinedStep(img, reg'.Keys, c, c);
      } else {
        assert q != c;
        JoinedGrows(img, reg.Keys, reg'.Keys, p, q);
      }
    }
  }

  lemma OpenInhabited(reg: Labelling, g: seq<Region>, g': seq<Region>, r: nat, c: Pixel, colour: nat, edge: bool)
    requires Inhabited(reg, g) && c !in reg && OpensRegion(g, g', r, c, colour, edge)
    ensures Inhabited(reg[c := r], g')
  {
    var reg' := reg[c := r];
    forall s | Live(g', s) ensures s in reg'.Values {
      if s == r {
        assert reg'[c] == r;
      } else {
        assert Live(g, s);
        var p :| p in reg && reg[p] == s;
        assert p in reg' && reg'[p] == s;
      }
    }
  }

  lemma OpenBordered(img: Image, reg: Labelling, g: seq<Region>, g': seq<Region>, border: set<Pixel>, r: nat, c: Pixel,
                     edge: bool)
    requires Bordered(reg, g, border) && Coloured(img, reg, g)
    requires c in img && c !in reg && c !in border && OpensRegion(g, g', r, c, img[c], edge)
    ensures Bordered(reg[c := r], g', if edge then border + {c} else border)
  {
    var reg' := reg[c := r];
    var border' := if edge then border + {c} else border;
    assert forall p | p in reg :: Live(g, reg[p]);
    forall s | Live(g', s)
      ensures AdjacentToRoot in g'[s].flags <==> exists p | p in border' :: p in reg' && reg'[p] == s
    {
      if s == r {
        if edge {
          assert c in border' && c in reg' && reg'[c] == r;
        }
      } else {
        assert Live(g, s);
        if p :| p in border && p in reg && reg[p] == s {
          assert p in border' && p in reg' && reg'[p] == s;
        }
        if p :| p in border' && p in reg' && reg'[p] == s {
          assert p in border && p in reg && reg[p] == s;
        }
      }
    }
  }

  lemma OpenKeepsBoxed(img: Image, reg: Labelling, g: seq<Region>, g': seq<Region>, row: int, r: nat, c: Pixel,
                       edge: bool)
    requires Coloured(img, reg, g) && Boxed(reg, g, -1, row) && c in img && c !in reg
    requires OpensRegion(g, g', r, c, img[c], edge) && 0 <= c.x && 0 <= c.y
    ensures Boxed(reg[c := r], g', r, c.y)
  {
    var reg' := reg[c := r];
    forall s: nat | Live(g', s) && AdjacentToRoot !in g'[s].flags ensures BoxKept(reg', g', s, r, c.y) {
      if s == r {
        assert forall p | p in reg :: Live(g, reg[p]);
        assert c in reg' && reg'[c] == r;
      } else {
        assert Live(g, s) && BoxKept(reg, g, s, -1, row);
        SmallBefore(reg, reg', s, s);
        if Small(reg', s) { BoxWitnesses(reg, g, s, -1, row, c, r); }
      }
    }
  }

  /** The links of the pixel that opened a region are complete. */
  lemma LinksComplete(img: Image, reg: Labelling, g: seq<Region>, capacity: nat, border: set<Pixel>, c: Pixel)
    requires FaithfulBut(img, reg, g, border, c) && WellLinked(g, capacity) && c in reg
    requires forall p | p in reg && (Touch(p, c) || Touch(c, p)) && img[p] != img[c] :: Linked(g, reg[c], reg[p])
    ensures Faithful(img, reg, g, border)
  {
    forall p, q | p in reg && q in reg && Touch(p, q) && img[p] != img[q] ensures Linked(g, reg[p], reg[q]) {
      if q == c {
        assert Linked(g, reg[c], reg[p]);
        LinkedSymmetric(g, capacity, reg[c], reg[p]);
      }
    }
  }

  lemma LinkKeepsFaithfulBut(img: Image, reg: Labelling, g: seq<Region>, g': seq<Region>, border: set<Pixel>,
                             c: Pixel, q: Pixel)
    requires FaithfulBut(img, reg, g, border, c) && c in reg && q in reg && Touch(c, q) && Touch(q, c)
    requires KeepsLinks(g, g')
    requires forall x, y | Lists(g', x, y) ::
               Lists(g, x, y) || (x == reg[c] && y == reg[q]) || (x == reg[q] && y == reg[c])
    ensures FaithfulBut(img, reg, g', border, c)
  {
    forall a, b | Lists(g', a, b) ensures exists u, v :: TouchAt(reg, u, v, a, b)
    {
      if !Lists(g, a, b) {
        assert TouchAt(reg, c, q, reg[c], reg[q]) && TouchAt(reg, q, c, reg[q], reg[c]);
      }
    }
    forall r | Live(g', r) ensures Live(g, r) {}
    forall p | p in reg ensures Live(g', reg[p]) && g'[reg[p]].colour == img[p] {
      assert Live(g, reg[p]);
    }
  }

  // ----- a pixel that joins two regions

  function Relabelled(reg: Labelling, r1: nat, r2: nat): Labelling {
    map p | p in reg :: if reg[p] == r2 then r1 else reg[p]
  }

  /** The pool after r2 has been merged into r1 and freed. */
  ghost predicate IsFreed(m: seq<Region>, g': seq<Region>, r2: nat)
    requires r2 < |m|
  {
    && |g'| == |m|
    && g'[r2] == m[r2].(flags := {Free}, next := g'[r2].next)
    && forall a | 0 <= a < |m| && a != r2 :: g'[a] == m[a]
  }

  lemma FreedKeepsWellLinked(m: seq<Region>, g': seq<Region>, capacity: nat, r2: nat)
    requires r2 < |m| && WellLinked(m, capacity) && m[r2].adjacent == [] && IsFreed(m, g', r2)
    ensures WellLinked(g', capacity)
    ensures forall a, b :: Lists(g', a, b) <==> Lists(m, a, b)
  {
    forall a, b | 0 <= a < |g'| && 0 <= b < |g'| ensures Mult(g', a, b) == Mult(g', b, a) {
      assert Mult(m, a, b) == Mult(m, b, a);
    }
    forall a, b ensures Lists(g', a, b) <==> Lists(m, a, b) {}
    forall a, b | Lists(g', a, b) ensures b < |g'| && g'[b].colour != g'[a].colour {
      assert Lists(m, a, b);
    }
  }

  /** c touches a in region r2 and b in region r1, all of one colour; m is the pool after
      the merger and g' after r2 was freed. */
  ghost predicate CanMerge(img: Image, reg: Labelling, g: seq<Region>, m: seq<Region>, g': seq<Region>, capacity: nat,
                           c: Pixel, a: Pixel, b: Pixel)
  {
    && reg.Keys <= img.Keys
    && c in img && c !in reg && a in reg && b in reg
    && Touch(a, c) && Touch(c, a) && Touch(b, c) && Touch(c, b)
    && img[a] == img[c] == img[b] && reg[a] != reg[b]
    && OnlyNeighbours(reg, c, {a, b})
    && reg[a] < |g| && reg[b] < |g|
    && IsMerger(g, m, capacity, reg[b], reg[a]) && IsFreed(m, g', reg[a])
  }

  lemma MergeKeepsFaithful(img: Image, reg: Labelling, g: seq<Region>, m: seq<Region>, g': seq<Region>, capacity: nat,
                           border: set<Pixel>, c: Pixel, a: Pixel, b: Pixel)
    requires WellLinked(g, capacity) && Faithful(img, reg, g, border) && c !in border
    requires CanMerge(img, reg, g, m, g', capacity, c, a, b)
    ensures WellLinked(g', capacity)
    ensures Faithful(img, Relabelled(reg, reg[b], reg[a])[c := reg[b]], g', border)
  {
    var r1, r2 := reg[b], reg[a];
    var reg1 := Relabelled(reg, r1, r2);
    var reg' := reg1[c := r1];
    assert Live(g, r1) && Live(g, r2);
    MergerKeeps(g, m, capacity, r1, r2);
    FreedKeepsWellLinked(m, g', capacity, r2);
    MergedColours(g, m, g', capacity, r1, r2);
    MergeColoured(img, reg, g, m, g', capacity, c, a, b);
    MergeJoined(img, reg, r1, r2, c, a, b);
    assert TouchingAgree(img, reg') by { MergeAgree(img, reg, r1, r2, c, a, b); }
    MergeEdges(reg, g, m, g', r1, r2, c);
    MergeLinked(img, reg, g, m, g', capacity, c, a, b);
    MergeBordered(reg, g, m, g', capacity, border, c, a, b);
  }

  lemma MergedColours(g: seq<Region>, m: seq<Region>, g': seq<Region>, capacity: nat, r1: nat, r2: nat)
    requires r1 < |g| && r2 < |g| && r1 != r2 && IsMerger(g, m, capacity, r1, r2) && IsFreed(m, g', r2)
    ensures |g'| == |g|
    ensures forall r | 0 <= r < |g| :: g'[r].colour == g[r].colour
    ensures Live(g, r1) && Live(g, r2) ==> forall r :: Live(g', r) <==> Live(g, r) && r != r2
    ensures Live(g, r1) && Live(g, r2) ==> forall r | Live(g', r) ::
              AdjacentToRoot in g'[r].flags <==>
              AdjacentToRoot in g[r].flags || (r == r1 && AdjacentToRoot in g[r2].flags)
  {
    forall r | 0 <= r < |g|
      ensures g'[r].colour == g[r].colour
      ensures r != r1 && r != r2 ==> g'[r].flags <= g[r].flags + {Fragmented} && g[r].flags <= g'[r].flags
    {
      if r != r1 && r != r2 { assert IsRelinked(g, m, capacity, r1, r2, r); }
    }
  }

  lemma MergeColoured(img: Image, reg: Labelling, g: seq<Region>, m: seq<Region>, g': seq<Region>, capacity: nat,
                      c: Pixel, a: Pixel, b: Pixel)
    requires Coloured(img, reg, g) && Inhabited(reg, g) && CanMerge(img, reg, g, m, g', capacity, c, a, b)
    ensures var reg' := Relabelled(reg, reg[b], reg[a])[c := reg[b]]; Coloured(img, reg', g') && Inhabited(reg', g')
  {
    var r1, r2 := reg[b], reg[a];
    var reg' := Relabelled(reg, r1, r2)[c := r1];
    MergedColours(g, m, g', capacity, r1, r2);
    assert Live(g, reg[a]) && Live(g, reg[b]);
    forall p | p in reg' ensures p in img && Live(g', reg'[p]) && g'[reg'[p]].colour == img[p] {
      if p != c { assert p in reg && Live(g, reg[p]); }
    }
    forall r | Live(g', r) ensures r in reg'.Values {
      assert Live(g, r);
      var p :| p in reg && reg[p] == r;
      assert p in reg' && reg'[p] == r;
    }
  }

  lemma MergeJoined(img: Image, reg: Labelling, r1: nat, r2: nat, c: Pixel, a: Pixel, b: Pixel)
    requires reg.Keys <= img.Keys && RegionsJoined(img, reg) && c in img && c !in reg && a in reg && b in reg
    requires reg[a] == r2 && reg[b] == r1 && Touch(a, c) && Touch(b, c) && img[a] == img[c] == img[b]
    ensures RegionsJoined(img, Relabelled(reg, r1, r2)[c := r1])
  {
    var reg' := Relabelled(reg, r1, r2)[c := r1];
    var all := reg'.Keys;
    assert reg.Keys <= all;
    JoinedStep(img, all, a, c);
    JoinedStep(img, all, b, c);
    JoinedStep(img, all, c, c);
    forall p | p in reg' && reg'[p] == r1 ensures Joined(img, all, p, c) {
      if p != c {
        var n := if reg[p] == r2 then a else b;
        JoinedGrows(img, reg.Keys, all, p, n);
        JoinedTransitive(img, all, p, n, c);
      }
    }
    forall p, q | p in reg' && q in reg' && reg'[p] == reg'[q] ensures Joined(img, all, p, q) {
      if reg'[p] == r1 {
        JoinedSymmetric(img, all, q, c);
        JoinedTransitive(img, all, p, c, q);
      } else {
        JoinedGrows(img, reg.Keys, all, p, q);
      }
    }
  }

  lemma MergeAgree(img: Image, reg: Labelling, r1: nat, r2: nat, c: Pixel, a: Pixel, b: Pixel)
    requires reg.Keys <= img.Keys && TouchingAgree(img, reg) && c in img && c !in reg && a in reg && b in reg
    requires reg[a] == r2 && reg[b] == r1 && OnlyNeighbours(reg, c, {a, b})
    ensures TouchingAgree(img, Relabelled(reg, r1, r2)[c := r1])
  {
  }

  lemma MergeEdges(reg: Labelling, g: seq<Region>, m: seq<Region>, g': seq<Region>, r1: nat, r2: nat, c: Pixel)
    requires EdgesReal(reg, g) && c !in reg
    requires forall x, y :: Lists(g', x, y) <==> Lists(m, x, y)
    requires forall x, y | Lists(m, x, y) ::
              exists x0, y0 :: Lists(g, x0, y0) && Renamed(x0, r1, r2) == x && Renamed(y0, r1, r2) == y
    ensures EdgesReal(Relabelled(reg, r1, r2)[c := r1], g')
  {
    var reg' := Relabelled(reg, r1, r2)[c := r1];
    forall x, y | Lists(g', x, y) ensures exists p, q :: TouchAt(reg', p, q, x, y) {
      assert Lists(m, x, y);
      var x0, y0 :| Lists(g, x0, y0) && Renamed(x0, r1, r2) == x && Renamed(y0, r1, r2) == y;
      var p, q :| TouchAt(reg, p, q, x0, y0);
      assert TouchAt(reg', p, q, x, y);
    }
  }

  lemma MergeLinked(img: Image, reg: Labelling, g: seq<Region>, m: seq<Region>, g': seq<Region>, capacity: nat,
                    c: Pixel, a: Pixel, b: Pixel)
    requires WellLinked(g, capacity) && Coloured(img, reg, g) && TouchingLinked(img, reg, g)
    requires CanMerge(img, reg, g, m, g', capacity, c, a, b)
    requires Coloured(img, Relabelled(reg, reg[b], reg[a])[c := reg[b]], g')
    ensures TouchingLinked(img, Relabelled(reg, reg[b], reg[a])[c := reg[b]], g')
  {
    hide WellLinked, IsMerger, IsFreed, Linked, Coloured;
    var r1, r2 := reg[b], reg[a];
    var reg' := Relabelled(reg, r1, r2)[c := r1];
    ColouredAt(img, reg, g, a);
    ColouredAt(img, reg, g, b);
    MergerSize(g, m, capacity, r1, r2);
    hide Live;
    forall p, q | p in reg' && q in reg' && Touch(p, q) && img[p] != img[q]
      ensures reg'[p] < |g'| && reg'[q] < |g'| && Linked(g', reg'[p], reg'[q])
    {
      assert p != c && q != c && p in reg && q in reg;
      ColouredAt(img, reg, g, p);
      ColouredAt(img, reg, g, q);
      RenamedLinked(g, m, g', capacity, r1, r2, reg[p], reg[q]);
    }
  }

  lemma ColouredAt(img: Image, reg: Labelling, g: seq<Region>, p: Pixel)
    requires Coloured(img, reg, g) && p in reg
    ensures p in img && reg[p] < |g| && Live(g, reg[p]) && g[reg[p]].colour == img[p]
  {
  }

  /** A merger keeps what is known about a pair, under its new names. */
  lemma RenamedLinked(g: seq<Region>, m: seq<Region>, g': seq<Region>, capacity: nat, r1: nat, r2: nat, x: nat, y: nat)
    requires WellLinked(g, capacity) && Live(g, r1) && Live(g, r2) && r1 != r2 && g[r1].colour == g[r2].colour
    requires IsMerger(g, m, capacity, r1, r2) && r2 < |m| && IsFreed(m, g', r2)
    requires x < |g| && y < |g| && g[x].colour != g[y].colour && Linked(g, x, y)
    ensures |g'| == |g| && Linked(g', Renamed(x, r1, r2), Renamed(y, r1, r2))
  {
    MergerSize(g, m, capacity, r1, r2);
    MergerKeeps(g, m, capacity, r1, r2);
    hide WellLinked, IsMerger;
    assert Linked(m, Renamed(x, r1, r2), Renamed(y, r1, r2));
  }

  lemma MergeBordered(reg: Labelling, g: seq<Region>, m: seq<Region>, g': seq<Region>, capacity: nat,
                      border: set<Pixel>, c: Pixel, a: Pixel, b: Pixel)
    requires Bordered(reg, g, border) && a in reg && b in reg && c !in reg && c !in border && reg[a] != reg[b]
    requires Live(g, reg[a]) && Live(g, reg[b])
    requires IsMerger(g, m, capacity, reg[b], reg[a]) && IsFreed(m, g', reg[a])
    ensures Bordered(Relabelled(reg, reg[b], reg[a])[c := reg[b]], g', border)
  {
    var r1, r2 := reg[b], reg[a];
    var reg' := Relabelled(reg, r1, r2)[c := r1];
    MergedColours(g, m, g', capacity, r1, r2);
    forall r | Live(g', r)
      ensures AdjacentToRoot in g'[r].flags <==> exists p | p in border :: p in reg' && reg'[p] == r
    {
      assert Live(g, r);
      if p :| p in border && p in reg && (reg[p] == r || (r == r1 && reg[p] == r2)) {
        assert p in reg' && reg'[p] == r;
      }
      if p :| p in border && p in reg' && reg'[p] == r {
        assert p in reg && (reg[p] == r || (r == r1 && reg[p] == r2));
      }
    }
  }

  lemma MergeKeepsBoxed(reg: Labelling, g: seq<Region>, m: seq<Region>, g': seq<Region>, capacity: nat,
                        c: Pixel, a: Pixel, b: Pixel)
    requires a in reg && b in reg && c !in reg && reg[a] != reg[b] && Live(g, reg[a]) && Live(g, reg[b])
    requires IsMerger(g, m, capacity, reg[b], reg[a]) && IsFreed(m, g', reg[a])
    requires a == Pixel(c.x - 1, c.y) && b == Pixel(c.x, c.y - 1) && Boxed(reg, g, reg[a], c.y)
    ensures Boxed(Relabelled(reg, reg[b], reg[a])[c := reg[b]], g', reg[b], c.y)
  {
    var r1, r2 := reg[b], reg[a];
    var reg' := Relabelled(reg, r1, r2)[c := r1];
    MergedColours(g, m, g', capacity, r1, r2);
    forall r: nat | Live(g', r) && AdjacentToRoot !in g'[r].flags ensures BoxKept(reg', g', r, r1, c.y) {
      assert Live(g, r) && BoxKept(reg, g, r, r2, c.y);
      SmallBefore(reg, reg', r, r);
      if r == r1 {
        assert g'[r1] == MergedRegion(g, capacity, r1, r2);
        assert BoxKept(reg, g, r2, r2, c.y);
        SmallBefore(reg, reg', r2, r1);
        if Small(reg', r) { MergedBox(reg, g, m, g', capacity, c, a, b); }
      } else {
        assert IsRelinked(g, m, capacity, r1, r2, r);
        assert r != r2;
        if Small(reg', r) { OtherBox(reg, reg', g, g', r, r1, r2, c); }
      }
    }
  }

  /** The boxes of other regions are not touched by a merger. */
  lemma OtherBox(reg: Labelling, reg': Labelling, g: seq<Region>, g': seq<Region>, r: nat, r1: nat, r2: nat, c: Pixel)
    requires r < |g| == |g'| && r != r1 && r != r2 && c !in reg && reg' == Relabelled(reg, r1, r2)[c := r1]
    requires g'[r].left == g[r].left && g'[r].top == g[r].top
    requires g'[r].right == g[r].right && g'[r].bottom == g[r].bottom
    requires BoxExact(reg, g, r, r2, c.y)
    ensures BoxExact(reg', g', r, r1, c.y)
  {
    var p0 :| p0 in reg && reg[p0] == r && p0.x == g[r].left;
    var p1 :| p1 in reg && reg[p1] == r && p1.x == g[r].right;
    var p2 :| p2 in reg && reg[p2] == r && p2.y == g[r].top;
    var p3 :| p3 in reg && reg[p3] == r && p3.y == g[r].bottom;
    assert p0 in reg' && p1 in reg' && p2 in reg' && p3 in reg';
  }

  lemma MergedBox(reg: Labelling, g: seq<Region>, m: seq<Region>, g': seq<Region>, capacity: nat,
                  c: Pixel, a: Pixel, b: Pixel)
    requires a in reg && b in reg && c !in reg && reg[a] != reg[b] && reg[a] < |g| && reg[b] < |g|
    requires IsMerger(g, m, capacity, reg[b], reg[a]) && IsFreed(m, g', reg[a])
    requires a == Pixel(c.x - 1, c.y) && b == Pixel(c.x, c.y - 1)
    requires BoxExact(reg, g, reg[a], reg[a], c.y) && BoxExact(reg, g, reg[b], reg[a], c.y)
    ensures BoxExact(Relabelled(reg, reg[b], reg[a])[c := reg[b]], g', reg[b], reg[b], c.y)
  {
    var r1, r2 := reg[b], reg[a];
    var reg' := Relabelled(reg, r1, r2)[c := r1];
    assert g'[r1] == MergedRegion(g, capacity, r1, r2);
    MergedBoxAttained(reg, reg', g, r1, r2, c, reg[a], c.y);
    forall p | p in reg' && reg'[p] == r1
      ensures && g'[r1].left <= p.x && g'[r1].top <= p.y <= g'[r1].bottom
              && (p.x <= g'[r1].right || p.y == c.y)
    {
      if p == c {
        assert g[r1].left <= b.x && g[r2].top <= a.y <= g[r2].bottom;
      }
    }
  }

  lemma MergedBoxAttained(reg: Labelling, reg': Labelling, g: seq<Region>, r1: nat, r2: nat, c: Pixel, open: int,
                          row: int)
    requires r1 < |g| && r2 < |g| && c !in reg && reg' == Relabelled(reg, r1, r2)[c := r1]
    requires BoxExact(reg, g, r1, open, row) && BoxExact(reg, g, r2, open, row)
    ensures exists p | p in reg' :: reg'[p] == r1 && p.x == Min(g[r1].left, g[r2].left)
    ensures exists p | p in reg' :: reg'[p] == r1 && p.x == Max(g[r1].right, g[r2].right)
    ensures exists p | p in reg' :: reg'[p] == r1 && p.y == Min(g[r1].top, g[r2].top)
    ensures exists p | p in reg' :: reg'[p] == r1 && p.y == Max(g[r1].bottom, g[r2].bottom)
  {
    var rl := if g[r2].left < g[r1].left then r2 else r1;
    var rr := if g[r2].right > g[r1].right then r2 else r1;
    var rt := if g[r2].top < g[r1].top then r2 else r1;
    var rb := if g[r2].bottom > g[r1].bottom then r2 else r1;
    var p0 :| p0 in reg && reg[p0] == rl && p0.x == g[rl].left;
    var p1 :| p1 in reg && reg[p1] == rr && p1.x == g[rr].right;
    var p2 :| p2 in reg && reg[p2] == rt && p2.y == g[rt].top;
    var p3 :| p3 in reg && reg[p3] == rb && p3.y == g[rb].bottom;
    assert p0 in reg' && p1 in reg' && p2 in reg' && p3 in reg';
  }
}
