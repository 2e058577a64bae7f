/** Raster data model: 8-bit RGBA pixels, single-channel masks, and
    Pillow's `getbbox` on a single-channel image. Grids are stored row by
    row, so the cell at column `x` and row `y` is `cells[y][x]`. */
module Raster {
  import opened Results

  type Byte = x: int | 0 <= x < 256

  datatype Pixel = Pixel(r: Byte, g: Byte, b: Byte, a: Byte)

  /** The fill of `Image.new("RGBA", size, (0, 0, 0, 0))`. */
  const Clear: Pixel := Pixel(0, 0, 0, 0)

  /** The fill of `Image.new("RGBA", size, (0, 0, 0, 255))`. */
  const OpaqueBlack: Pixel := Pixel(0, 0, 0, 255)

  /** A `w` by `h` grid of cells. */
  datatype Plane<T> = Plane(w: nat, h: nat, cells: seq<seq<T>>) {
    predicate Valid() {
      |cells| == h && forall y :: 0 <= y < h ==> |cells[y]| == w
    }
  }

  /** An RGBA image. */
  type Image = p: Plane<Pixel> | p.Valid() witness Plane(0, 0, [])

  /** A single-channel ("L") image: coverage weights 0..255. */
  type Mask = p: Plane<Byte> | p.Valid() witness Plane(0, 0, [])

  predicate InBounds<T>(p: Plane<T>, x: int, y: int) {
    0 <= x < p.w && 0 <= y < p.h
  }

  predicate SameSize<S, T>(p: Plane<S>, q: Plane<T>) {
    p.w == q.w && p.h == q.h
  }

  /** A grid filled with one value: `Image.new(mode, (w, h), v)`. */
  function Filled<T>(w: nat, h: nat, v: T): (p: Plane<T>)
    ensures p.Valid() && p.w == w && p.h == h
    ensures forall y, x :: 0 <= y < h && 0 <= x < w ==> p.cells[y][x] == v
  {
    Plane(w, h, seq(h, _ => seq(w, _ => v)))
  }

  /** A grid of the same size whose every cell is `f` of the cell of `p`
      (Pillow's per-pixel `point` and `load()` loops). */
  function MapCells<S, T>(p: Plane<S>, f: S -> T): (q: Plane<T>)
    requires p.Valid()
    ensures q.Valid() && SameSize(q, p)
    ensures forall y, x :: 0 <= y < p.h && 0 <= x < p.w ==> q.cells[y][x] == f(p.cells[y][x])
  {
    Plane(p.w, p.h, seq(p.h, y requires 0 <= y < p.h =>
      seq(p.w, x requires 0 <= x < p.w => f(p.cells[y][x]))))
  }

  /** A half-open box `(x0, y0, x1, y1)`, Pillow's box convention. */
  datatype Box = Box(x0: int, y0: int, x1: int, y1: int)

  predicate RowHasInk(m: Mask, y: int)
    requires 0 <= y < m.h
  {
    exists x :: 0 <= x < m.w && m.cells[y][x] != 0
  }

  predicate ColHasInk(m: Mask, x: int)
    requires 0 <= x < m.w
  {
    exists y :: 0 <= y < m.h && m.cells[y][x] != 0
  }

  predicate IsBlank(m: Mask) {
    forall y, x :: 0 <= y < m.h && 0 <= x < m.w ==> m.cells[y][x] == 0
  }

  /** `b` is non-empty, lies inside `m` and contains every nonzero cell. */
  predicate Encloses(m: Mask, b: Box) {
    && 0 <= b.x0 < b.x1 <= m.w
    && 0 <= b.y0 < b.y1 <= m.h
    && forall y, x :: 0 <= y < m.h && 0 <= x < m.w && m.cells[y][x] != 0 ==>
         b.x0 <= x < b.x1 && b.y0 <= y < b.y1
  }

  /** `b` encloses the nonzero cells and each of its four edges touches one. */
  predicate IsTightBox(m: Mask, b: Box) {
    && Encloses(m, b)
    && RowHasInk(m, b.y0) && RowHasInk(m, b.y1 - 1)
    && ColHasInk(m, b.x0) && ColHasInk(m, b.x1 - 1)
  }

  /** The first row at or after `y` that has a nonzero cell, or `m.h`. */
  function FirstInkRow(m: Mask, y: nat): (r: nat)
    requires y <= m.h
    ensures y <= r <= m.h
    ensures r < m.h ==> RowHasInk(m, r)
    ensures forall k :: y <= k < r ==> !RowHasInk(m, k)
    decreases m.h - y
  {
    if y == m.h then m.h
    else if RowHasInk(m, y) then y
    else FirstInkRow(m, y + 1)
  }

  /** One past the last row before `y` that has a nonzero cell, or 0. */
  function LastInkRowEnd(m: Mask, y: nat): (r: nat)
    requires y <= m.h
    ensures r <= y
    ensures r > 0 ==> RowHasInk(m, r - 1)
    ensures forall k :: r <= k < y ==> !RowHasInk(m, k)
  {
    if y == 0 then 0
    else if RowHasInk(m, y - 1) then y
    else LastInkRowEnd(m, y - 1)
  }

  function FirstInkCol(m: Mask, x: nat): (r: nat)
    requires x <= m.w
    ensures x <= r <= m.w
    ensures r < m.w ==> ColHasInk(m, r)
    ensures forall k :: x <= k < r ==> !ColHasInk(m, k)
    decreases m.w - x
  {
    if x == m.w then m.w
    else if ColHasInk(m, x) then x
    else FirstInkCol(m, x + 1)
  }

  function LastInkColEnd(m: Mask, x: nat): (r: nat)
    requires x <= m.w
    ensures r <= x
    ensures r > 0 ==> ColHasInk(m, r - 1)
    ensures forall k :: r <= k < x ==> !ColHasInk(m, k)
  {
    if x == 0 then 0
    else if ColHasInk(m, x - 1) then x
    else LastInkColEnd(m, x - 1)
  }

  /** Pillow's `getbbox()` on a single-channel image: `None` for an
      all-zero image, otherwise the tight half-open box of its nonzero cells. */
  function BBox(m: Mask): (r: Option<Box>)
    ensures r.None? <==> IsBlank(m)
    ensures r.Some? ==> IsTightBox(m, r.value)
  {
    var y0 := FirstInkRow(m, 0);
    if y0 == m.h then
      assert IsBlank(m) by {
        forall y, x | 0 <= y < m.h && 0 <= x < m.w
          ensures m.cells[y][x] == 0
        {
          assert !RowHasInk(m, y);
        }
      }
      None
    else
      var y1 := LastInkRowEnd(m, m.h);
      var x0 := FirstInkCol(m, 0);
      var x1 := LastInkColEnd(m, m.w);
      var b := Box(x0, y0, x1, y1);
      assert RowHasInk(m, y0);
      var xi :| 0 <= xi < m.w && m.cells[y0][xi] != 0;
      assert ColHasInk(m, xi);
      assert Encloses(m, b) by {
        forall y, x | 0 <= y < m.h && 0 <= x < m.w && m.cells[y][x] != 0
          ensures b.x0 <= x < b.x1 && b.y0 <= y < b.y1
        {
          assert RowHasInk(m, y);
          assert ColHasInk(m, x);
        }
      }
      Some(b)
  }

  /** There is only one tight box, so "the" bounding box is well defined. */
  lemma TightBoxUnique(m: Mask, b: Box, c: Box)
    requires IsTightBox(m, b) && IsTightBox(m, c)
    ensures b == c
  {
    var x0 :| 0 <= x0 < m.h && m.cells[x0][b.x0] != 0;
    var x1 :| 0 <= x1 < m.h && m.cells[x1][b.x1 - 1] != 0;
    var y0 :| 0 <= y0 < m.w && m.cells[b.y0][y0] != 0;
    var y1 :| 0 <= y1 < m.w && m.cells[b.y1 - 1][y1] != 0;
    var u0 :| 0 <= u0 < m.h && m.cells[u0][c.x0] != 0;
    var u1 :| 0 <= u1 < m.h && m.cells[u1][c.x1 - 1] != 0;
    var v0 :| 0 <= v0 < m.w && m.cells[c.y0][v0] != 0;
    var v1 :| 0 <= v1 < m.w && m.cells[c.y1 - 1][v1] != 0;
  }

  /** `ImageChops.lighter` on two single-channel images: the pointwise max. */
  function Lighter(m: Mask, n: Mask): (u: Mask)
    requires SameSize(m, n)
    ensures SameSize(u, m)
    ensures forall y, x :: 0 <= y < m.h && 0 <= x < m.w ==>
      u.cells[y][x] >= m.cells[y][x] && u.cells[y][x] >= n.cells[y][x] &&
      (u.cells[y][x] == m.cells[y][x] || u.cells[y][x] == n.cells[y][x])
  {
    Plane(m.w, m.h, seq(m.h, y requires 0 <= y < m.h =>
      seq(m.w, x requires 0 <= x < m.w =>
        if m.cells[y][x] >= n.cells[y][x] then m.cells[y][x] else n.cells[y][x])))
  }

  /** The union of two masks is blank exactly when both masks are. */
  lemma LighterBlank(m: Mask, n: Mask)
    requires SameSize(m, n)
    ensures IsBlank(Lighter(m, n)) <==> IsBlank(m) && IsBlank(n)
  {
  }

  /** `max(1, n)`, the clamp the source applies to every scaled size and
      every side of a detected box. */
  function AtLeastOne(n: int): (r: nat)
    ensures r >= 1 && r >= n && (n >= 1 ==> r == n)
  {
    if n >= 1 then n else 1
  }
}
