/** Integer placement arithmetic of the geometric fitter: centring offsets,
    the cover-crop window, letterbox offsets, the per-column band of the
    trapezoid warp and the skewed-album paste offset. Python's `//` with a
    positive divisor rounds toward minus infinity, which is what Dafny's
    `/` does for a positive divisor too. */
module Geometry {
  import opened Raster

  /** `(outer - inner) // 2`: the offset that centres a span of length
      `inner` in a span of length `outer`. */
  function CenterOffset(outer: int, inner: int): (off: int)
    ensures 2 * off <= outer - inner <= 2 * off + 1
  {
    (outer - inner) / 2
  }

  /** A span that fits is placed inside, with the two margins differing by
      at most one pixel (the extra pixel on the far side). */
  lemma CenterOffsetFits(outer: int, inner: int)
    requires 0 <= inner <= outer
    ensures var off := CenterOffset(outer, inner);
      0 <= off && off + inner <= outer &&
      0 <= (outer - inner - off) - off <= 1
  {
  }

  /** The crop window `(left, top, left + out_w, top + out_h)` of
      `_cover_crop` and of the cover path of `compose_record_with_mask_overlay`,
      for a source already resized to `nw` by `nh`. */
  function CoverCropWindow(nw: int, nh: int, outW: nat, outH: nat): (b: Box)
    ensures b.x1 - b.x0 == outW && b.y1 - b.y0 == outH
    ensures b.x0 >= 0 && b.y0 >= 0
    ensures nw >= outW ==> b.x1 <= nw && 0 <= (nw - b.x1) - b.x0 <= 1
    ensures nh >= outH ==> b.y1 <= nh && 0 <= (nh - b.y1) - b.y0 <= 1
    ensures nw < outW ==> b.x0 == 0 && b.x1 > nw
    ensures nh < outH ==> b.y0 == 0 && b.y1 > nh
  {
    var left := if CenterOffset(nw, outW) > 0 then CenterOffset(nw, outW) else 0;
    var top := if CenterOffset(nh, outH) > 0 then CenterOffset(nh, outH) else 0;
    Box(left, top, left + outW, top + outH)
  }

  /** The unclamped window of `compose_with_template`: centred on the
      resized source, so when the source is narrower than the box (even by
      one pixel) the offset goes negative. */
  function TemplateCropWindow(nw: int, nh: int, boxW: nat, boxH: nat): (b: Box)
    ensures b.x1 - b.x0 == boxW && b.y1 - b.y0 == boxH
    ensures nw >= boxW && nh >= boxH ==> b == CoverCropWindow(nw, nh, boxW, boxH)
    ensures nw < boxW - 1 ==> b.x0 < 0
    ensures nw < boxW ==> b.x0 < 0
    ensures nh < boxH ==> b.y0 < 0
    ensures 2 * b.x0 <= nw - boxW <= 2 * b.x0 + 1
    ensures 2 * b.y0 <= nh - boxH <= 2 * b.y0 + 1
  {
    var left := CenterOffset(nw, boxW);
    var top := CenterOffset(nh, boxH);
    Box(left, top, left + boxW, top + boxH)
  }

  /** Where a `nw` by `nh` image is pasted on a `outW` by `outH` canvas by the
      letterbox helpers (`_cover_letterbox`, `_letterbox_square_image`,
      `_square_letterbox`). */
  function LetterboxOffset(outW: int, outH: int, nw: int, nh: int): (p: (int, int))
    ensures nw <= outW ==> 0 <= (outW - nw - p.0) - p.0 <= 1
    ensures nh <= outH ==> 0 <= (outH - nh - p.1) - p.1 <= 1
  {
    (CenterOffset(outW, nw), CenterOffset(outH, nh))
  }

  /** The side of the square canvas of `_letterbox_square_image`. */
  function SquareSide(w: nat, h: nat): (side: nat)
    ensures side >= w && side >= h && (side == w || side == h)
  {
    if w >= h then w else h
  }

  /** Where a `w` by `h` image sits on its square canvas. */
  function SquareOffset(w: nat, h: nat): (int, int) {
    LetterboxOffset(SquareSide(w, h), SquareSide(w, h), w, h)
  }

  /** A letterboxed image lies wholly inside its square canvas. */
  lemma SquareLetterboxInside(w: nat, h: nat)
    ensures var side := SquareSide(w, h);
      var p := SquareOffset(w, h);
      0 <= p.0 && p.0 + w <= side && 0 <= p.1 && p.1 + h <= side &&
      (w == side ==> p.0 == 0) && (h == side ==> p.1 == 0)
  {
    CenterOffsetFits(SquareSide(w, h), w);
    CenterOffsetFits(SquareSide(w, h), h);
  }

  /** The rows `[y0, y1]` (inclusive) that column `x` of
      `_column_warp_trapezoid` covers, for a `w` by `h` source whose
      bottom-left corner moves up by `bl` and top-right corner down by `tr`.
      With `t = x / (w - 1)` the top edge is at `tr * t` and the bottom edge at
      `(h - 1 - bl) * (1 - t) + (h - 1) * t`; the top is rounded down and the
      bottom up. Both edges are stated multiplied by `w - 1`. */
  function ColumnBand(w: int, h: int, bl: int, tr: int, x: int): (band: (int, int))
    requires w > 1 && 0 <= x < w
    ensures band.0 * (w - 1) <= tr * x < (band.0 + 1) * (w - 1)
    ensures (band.1 - 1) * (w - 1) < BottomEdgeScaled(w, h, bl, x) <= band.1 * (w - 1)
  {
    var den := w - 1;
    var y0 := (tr * x) / den;
    var y1 := -((-BottomEdgeScaled(w, h, bl, x)) / den);
    (y0, y1)
  }

  /** `(w - 1)` times the bottom edge `(h - 1 - bl) * (1 - t) + (h - 1) * t`. */
  function BottomEdgeScaled(w: int, h: int, bl: int, x: int): int {
    (h - 1 - bl) * (w - 1 - x) + (h - 1) * x
  }

  /** The four corners: the left column runs from row 0 to `h - 1 - bl`,
      the right column from row `tr` to `h - 1`. */
  lemma ColumnBandCorners(w: int, h: int, bl: int, tr: int)
    requires w > 1
    ensures ColumnBand(w, h, bl, tr, 0) == (0, h - 1 - bl)
    ensures ColumnBand(w, h, bl, tr, w - 1) == (tr, h - 1)
  {
    var left := ColumnBand(w, h, bl, tr, 0);
    var right := ColumnBand(w, h, bl, tr, w - 1);
    assert BottomEdgeScaled(w, h, bl, 0) == (h - 1 - bl) * (w - 1);
    assert BottomEdgeScaled(w, h, bl, w - 1) == (h - 1) * (w - 1);
    FloorOfMultiple(0, w - 1, left.0);
    FloorOfMultiple(h - 1 - bl, w - 1, left.1);
    FloorOfMultiple(tr, w - 1, right.0);
    FloorOfMultiple(h - 1, w - 1, right.1);
  }

  /** If `q * d <= k * d < (q + 1) * d` or `(q - 1) * d < k * d <= q * d`
      then `q == k`. */
  lemma FloorOfMultiple(k: int, d: int, q: int)
    requires d > 0
    ensures q * d <= k * d < (q + 1) * d ==> q == k
    ensures (q - 1) * d < k * d <= q * d ==> q == k
  {
    if q < k {
      assert (q + 1) * d <= k * d;
    } else if q > k {
      assert (q - 1) * d >= k * d;
    }
  }

  /** The warp pastes a column only when its band holds at least one row. */
  predicate BandNonEmpty(band: (int, int)) {
    band.1 - band.0 + 1 > 0
  }

  /** With no corner moved, every column spans the full height. */
  lemma ColumnBandIdentity(w: int, h: int, x: int)
    requires w > 1 && 0 <= x < w
    ensures ColumnBand(w, h, 0, 0, x) == (0, h - 1)
  {
    var band := ColumnBand(w, h, 0, 0, x);
    assert BottomEdgeScaled(w, h, 0, x) == (h - 1) * (w - 1);
    FloorOfMultiple(0, w - 1, band.0);
    FloorOfMultiple(h - 1, w - 1, band.1);
  }

  /** Where `compose_item_album_with_skew` pastes the warped `sw` by `sh`
      image: centred in the detected box, whose sides are clamped to 1, the
      odd pixel of slack going to the far side (also when the image is
      larger than the box and sticks out of it). */
  function SkewPasteOffset(region: Box, sw: int, sh: int): (p: (int, int))
    ensures sw <= AtLeastOne(region.x1 - region.x0) ==>
      region.x0 <= p.0 && p.0 + sw <= region.x0 + AtLeastOne(region.x1 - region.x0)
    ensures sh <= AtLeastOne(region.y1 - region.y0) ==>
      region.y0 <= p.1 && p.1 + sh <= region.y0 + AtLeastOne(region.y1 - region.y0)
    ensures 2 * (p.0 - region.x0) <= AtLeastOne(region.x1 - region.x0) - sw <= 2 * (p.0 - region.x0) + 1
    ensures 2 * (p.1 - region.y0) <= AtLeastOne(region.y1 - region.y0) - sh <= 2 * (p.1 - region.y0) + 1
  {
    var boxW := AtLeastOne(region.x1 - region.x0);
    var boxH := AtLeastOne(region.y1 - region.y0);
    (region.x0 + CenterOffset(boxW, sw), region.y0 + CenterOffset(boxH, sh))
  }
}
