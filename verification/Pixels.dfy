/** Pixels, 4-neighbourhood and paths of equal colour. */
module Pixels {
  datatype Pixel = Pixel(x: int, y: int)

  type Image = map<Pixel, nat>

  ghost predicate Touch(p: Pixel, q: Pixel) {
    || (p.x == q.x && (p.y == q.y + 1 || q.y == p.y + 1))
    || (p.y == q.y && (p.x == q.x + 1 || q.x == p.x + 1))
  }

  ghost predicate IsPath(img: Image, within: set<Pixel>, path: seq<Pixel>) {
    && path != []
    && (forall i | 0 <= i < |path| :: path[i] in within && path[i] in img)
    && (forall i | 0 <= i < |path| - 1 :: Touch(path[i], path[i + 1]) && img[path[i]] == img[path[i + 1]])
  }

  /** A path of touching equal-coloured pixels inside the given set joins p and q. */
  ghost predicate Joined(img: Image, within: set<Pixel>, p: Pixel, q: Pixel) {
    exists path :: IsPath(img, within, path) && path[0] == p && path[|path| - 1] == q
  }

  lemma JoinedStep(img: Image, within: set<Pixel>, p: Pixel, q: Pixel)
    requires p in within && q in within && p in img && q in img && img[p] == img[q]
    requires p == q || Touch(p, q)
    ensures Joined(img, within, p, q)
  {
    var path := if p == q then [p] else [p, q];
    assert IsPath(img, within, path) && path[0] == p && path[|path| - 1] == q;
  }

  lemma JoinedTransitive(img: Image, within: set<Pixel>, p: Pixel, q: Pixel, r: Pixel)
    requires Joined(img, within, p, q) && Joined(img, within, q, r)
    ensures Joined(img, within, p, r)
  {
    var s :| IsPath(img, within, s) && s[0] == p && s[|s| - 1] == q;
    var t :| IsPath(img, within, t) && t[0] == q && t[|t| - 1] == r;
    var path := s + t[1..];
    forall i | 0 <= i < |path| - 1
      ensures Touch(path[i], path[i + 1]) && img[path[i]] == img[path[i + 1]]
    {
      if i >= |s| - 1 {
        assert path[i] == t[i - (|s| - 1)] && path[i + 1] == t[i - (|s| - 1) + 1];
      }
    }
    assert IsPath(img, within, path) && path[0] == p && path[|path| - 1] == r;
  }

  lemma JoinedSymmetric(img: Image, within: set<Pixel>, p: Pixel, q: Pixel)
    requires Joined(img, within, p, q)
    ensures Joined(img, within, q, p)
  {
    var s :| IsPath(img, within, s) && s[0] == p && s[|s| - 1] == q;
    var path := seq(|s|, i requires 0 <= i < |s| => s[|s| - 1 - i]);
    forall i | 0 <= i < |path| - 1
      ensures Touch(path[i], path[i + 1]) && img[path[i]] == img[path[i + 1]]
    {
      var j := |s| - 2 - i;
      assert path[i] == s[j + 1] && path[i + 1] == s[j];
      assert Touch(s[j], s[j + 1]);
    }
    assert IsPath(img, within, path) && path[0] == q && path[|path| - 1] == p;
  }

  lemma JoinedGrows(img: Image, within: set<Pixel>, more: set<Pixel>, p: Pixel, q: Pixel)
    requires Joined(img, within, p, q) && within <= more
    ensures Joined(img, more, p, q)
  {
    var s :| IsPath(img, within, s) && s[0] == p && s[|s| - 1] == q;
    assert IsPath(img, more, s);
  }

  // ----- the image behind a row-major buffer

  ghost predicate InFrame(width: nat, height: nat, p: Pixel) {
    0 <= p.x < width && 0 <= p.y < height
  }

  /** The pixels that precede (x, y) in raster order. */
  ghost predicate Before(width: nat, x: int, y: int, p: Pixel) {
    0 <= p.x < width && 0 <= p.y && (p.y < y || (p.y == y && p.x < x))
  }

  lemma RowStart(width: nat, y: int)
    ensures (y - 1) * width + width == y * width
  {
  }

  lemma RowsBelow(width: nat, y0: int, y1: int)
    requires y0 < y1
    ensures y0 * width + width <= y1 * width
  {
    assert 0 <= (y1 - y0 - 1) * width;
    assert (y1 - y0 - 1) * width == y1 * width - y0 * width - width;
  }

  /** The image held by a row-major buffer, up to (x, y) in raster order. */
  ghost function Raster(source: seq<nat>, width: nat, x: nat, y: nat): Image
    requires x <= width && y * width + x <= |source|
    decreases y, x
  {
    if x > 0 then
      assert 0 <= y * width;
      Raster(source, width, x - 1, y)[Pixel(x - 1, y) := source[y * width + x - 1]]
    else if y > 0 then
      RowStart(width, y);
      Raster(source, width, width, y - 1)
    else map[]
  }

  lemma {:induction false} RasterKeys(source: seq<nat>, width: nat, x: nat, y: nat)
    requires x <= width && y * width + x <= |source|
    ensures forall p: Pixel :: p in Raster(source, width, x, y) <==> Before(width, x, y, p)
    ensures |Raster(source, width, x, y)| == y * width + x
    decreases y, x
  {
    if x > 0 {
      assert 0 <= y * width;
      RasterKeys(source, width, x - 1, y);
      assert Pixel(x - 1, y) !in Raster(source, width, x - 1, y);
    } else if y > 0 {
      RowStart(width, y);
      RasterKeys(source, width, width, y - 1);
    }
  }

  lemma PixelIndex(width: nat, x: nat, y: nat, p: Pixel)
    requires x <= width && Before(width, x, y, p)
    ensures 0 <= p.y * width && 0 <= p.y * width + p.x < y * width + x
  {
    if p.y < y {
      RowsBelow(width, p.y, y);
    }
  }

  lemma {:induction false} RasterAt(source: seq<nat>, width: nat, x: nat, y: nat, p: Pixel)
    requires x <= width && y * width + x <= |source| && Before(width, x, y, p)
    ensures p in Raster(source, width, x, y)
    ensures 0 <= p.y * width + p.x < y * width + x
    ensures Raster(source, width, x, y)[p] == source[p.y * width + p.x]
    decreases y, x
  {
    RasterKeys(source, width, x, y);
    PixelIndex(width, x, y, p);
    if x > 0 {
      if p != Pixel(x - 1, y) {
        RasterAt(source, width, x - 1, y, p);
      }
    } else if y > 0 {
      RowStart(width, y);
      RasterAt(source, width, width, y - 1, p);
    }
  }
}
