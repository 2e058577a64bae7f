/** The region detector: finds where a template wants artwork pasted
    (`detect_template_mask_and_bbox`). A template marks its artwork region
    with near-black "dark-key" pixels; failing that its own alpha channel is
    used, and failing that the whole canvas. */
module RegionDetector {
  import opened Results
  import opened Raster

  /** The brightest channel value a dark-key pixel may have. */
  const DarkKeyMax: int := 40

  function Max3(a: int, b: int, c: int): int {
    if a >= b && a >= c then a else if b >= c then b else c
  }

  predicate IsDarkKey(p: Pixel) {
    p.a > 0 && Max3(p.r, p.g, p.b) <= DarkKeyMax
  }

  predicate HasDarkKey(t: Image) {
    exists y, x :: 0 <= y < t.h && 0 <= x < t.w && IsDarkKey(t.cells[y][x])
  }

  predicate HasCoverage(t: Image) {
    exists y, x :: 0 <= y < t.h && 0 <= x < t.w && t.cells[y][x].a > 0
  }

  function DarkKeyWeight(p: Pixel): Byte {
    if IsDarkKey(p) then 255 else 0
  }

  /** The alpha channel binarised by `point(lambda a: 255 if a > 0 else 0)`. */
  function CoverageWeight(p: Pixel): Byte {
    if p.a > 0 then 255 else 0
  }

  function KeyMask(t: Image): (m: Mask)
    ensures SameSize(m, t)
    ensures forall y, x :: 0 <= y < t.h && 0 <= x < t.w ==>
      m.cells[y][x] == (if IsDarkKey(t.cells[y][x]) then 255 else 0)
    ensures HasDarkKey(t) <==> !IsBlank(m)
  {
    var m: Mask := MapCells(t, DarkKeyWeight);
    assert HasDarkKey(t) ==> !IsBlank(m) by {
      if HasDarkKey(t) {
        var y, x :| 0 <= y < t.h && 0 <= x < t.w && IsDarkKey(t.cells[y][x]);
        assert m.cells[y][x] != 0;
      }
    }
    m
  }

  function CoverageMask(t: Image): (m: Mask)
    ensures SameSize(m, t)
    ensures forall y, x :: 0 <= y < t.h && 0 <= x < t.w ==>
      m.cells[y][x] == (if t.cells[y][x].a > 0 then 255 else 0)
    ensures HasCoverage(t) <==> !IsBlank(m)
  {
    var m: Mask := MapCells(t, CoverageWeight);
    assert HasCoverage(t) ==> !IsBlank(m) by {
      if HasCoverage(t) {
        var y, x :| 0 <= y < t.h && 0 <= x < t.w && t.cells[y][x].a > 0;
        assert m.cells[y][x] != 0;
      }
    }
    m
  }

  /** The inclusion mask and the half-open paste box of template `t`. */
  function Detect(t: Image): (r: (Mask, Box))
    ensures SameSize(r.0, t)
    ensures HasDarkKey(t) ==>
      forall y, x :: 0 <= y < t.h && 0 <= x < t.w ==>
        r.0.cells[y][x] == (if IsDarkKey(t.cells[y][x]) then 255 else 0)
    ensures !HasDarkKey(t) && HasCoverage(t) ==>
      forall y, x :: 0 <= y < t.h && 0 <= x < t.w ==>
        r.0.cells[y][x] == (if t.cells[y][x].a > 0 then 255 else 0)
    ensures !HasDarkKey(t) && !HasCoverage(t) ==>
      r.1 == Box(0, 0, t.w, t.h) &&
      forall y, x :: 0 <= y < t.h && 0 <= x < t.w ==> r.0.cells[y][x] == 255
  {
    var keyed := KeyMask(t);
    var kb := BBox(keyed);
    if kb.Some? then
      (keyed, kb.value)
    else
      var nonTransparent := CoverageMask(t);
      var b := BBox(nonTransparent);
      if b.Some? then
        (nonTransparent, b.value)
      else
        (Filled(t.w, t.h, 255), Box(0, 0, t.w, t.h))
  }

  /** On a non-empty canvas the paste box is always the tight box of the
      inclusion mask. */
  lemma DetectTight(t: Image)
    requires t.w > 0 && t.h > 0
    ensures IsTightBox(Detect(t).0, Detect(t).1)
  {
    var keyed := KeyMask(t);
    if BBox(keyed).None? {
      var nonTransparent := CoverageMask(t);
      if BBox(nonTransparent).None? {
        FullCanvasIsTight(Filled(t.w, t.h, 255));
      }
    }
  }

  /** The whole canvas is the tight box of an all-255 mask. */
  lemma FullCanvasIsTight(m: Mask)
    requires forall y, x :: 0 <= y < m.h && 0 <= x < m.w ==> m.cells[y][x] == 255
    ensures m.w > 0 && m.h > 0 ==> IsTightBox(m, Box(0, 0, m.w, m.h))
  {
    if m.w > 0 && m.h > 0 {
      assert m.cells[0][0] != 0;
      assert m.cells[m.h - 1][m.w - 1] != 0;
    }
  }
}
