/** The layer compositor: `compose_with_template`,
    `compose_item_album_with_skew`, `_apply_softlight_rgba` and
    `compose_record_with_mask_overlay`. */
module Compositor {
  import opened Results
  import opened Raster
  import opened RasterOps
  import opened Geometry
  import opened RegionDetector
  import opened KeyClassifier
  import opened Fitter

  /** Python 3's `round`: to the nearest integer, ties to the even one. */
  function RoundHalfEven(v: real): (n: int)
    ensures (n as real) - 0.5 <= v <= (n as real) + 0.5
    ensures (v == (n as real) - 0.5 || v == (n as real) + 0.5) ==> n % 2 == 0
  {
    var f := v.Floor;
    var d := v - f as real;
    if d < 0.5 then f
    else if d > 0.5 then f + 1
    else if f % 2 == 0 then f
    else f + 1
  }

  /** The grey level `max(0, min(255, int(round(255.0 * factor))))` the
      trim region is multiplied by. */
  function DarkenMultiplier(factor: real): (m: Byte)
    ensures 0.0 <= factor <= 1.0 ==>
      (m as real) - 0.5 <= 255.0 * factor <= (m as real) + 0.5
    ensures factor <= 0.0 ==> m == 0
    ensures factor >= 1.0 ==> m == 255
  {
    var n := RoundHalfEven(255.0 * factor);
    if n < 0 then 0 else if n > 255 then 255 else n
  }

  /** Half of 255 is 127.5, which rounds to the even 128; the default
      factor 214/255 gives 214. */
  lemma DarkenMultiplierExamples()
    ensures DarkenMultiplier(0.5) == 128
    ensures DarkenMultiplier(214.0 / 255.0) == 214
  {
    assert (127.5).Floor == 127;
    assert (214.0).Floor == 214;
  }

  function Gray(level: Byte): Pixel {
    Pixel(level, level, level, 255)
  }

  /** `Image.composite(fg, template, mask)` with the template's own detected
      inclusion mask: the final step shared by the template compositors. */
  function MaskedOntoTemplate(fg: Image, template: Image, ops: Ops): (out: Image)
    requires SameSize(fg, template)
    ensures SameSize(out, template)
    ensures Masked(out, fg, template, Detect(template).0)
  {
    Composite(fg, template, Detect(template).0, ops.blend)
  }

  /** The foreground of `compose_with_template`: the source cover-scaled,
      centre-cropped to the detected box and pasted at the box's corner. */
  function TemplateForeground(source: Image, template: Image, ops: Ops): (fg: Image)
    ensures SameSize(fg, template)
  {
    var b := Detect(template).1;
    var boxW := AtLeastOne(b.x1 - b.x0);
    var boxH := AtLeastOne(b.y1 - b.y0);
    var size := CoverResizedSize(source, boxW, boxH, ops);
    var resized := ops.resize(source, size.0, size.1, Lanczos);
    var crop := Crop(resized, TemplateCropWindow(size.0, size.1, boxW, boxH));
    Paste(Filled(template.w, template.h, Clear), crop, b.x0, b.y0, ops.blend)
  }

  /** `compose_with_template` (no rotation): outside the template's region
      the template shows through unchanged; inside, the fitted source. */
  function ComposeWithTemplate(source: Image, template: Image, ops: Ops): (out: Image)
    ensures SameSize(out, template)
    ensures Masked(out, TemplateForeground(source, template, ops), template, Detect(template).0)
  {
    MaskedOntoTemplate(TemplateForeground(source, template, ops), template, ops)
  }

  /** The fitted crop lands exactly on the detected box: inside the box each
      template-region pixel is a crop pixel blended onto transparency, and
      outside the box the foreground is transparent. */
  lemma TemplateForegroundPlacement(source: Image, template: Image, ops: Ops)
    requires template.w > 0 && template.h > 0
    ensures var b := Detect(template).1;
      var fg := TemplateForeground(source, template, ops);
      forall y, x :: 0 <= y < template.h && 0 <= x < template.w ==>
        (!(b.x0 <= x < b.x1 && b.y0 <= y < b.y1) ==> fg.cells[y][x] == Clear)
  {
    DetectTight(template);
  }

  /** `compose_item_album_with_skew`: the source square-stretched to
      `targetW` by `targetH`, warped, centred in the detected box and
      composited through the template's mask. */
  function ComposeItemAlbumWithSkew(source: Image, template: Image, targetW: nat, targetH: nat,
                                    bl: int, tr: int, ops: Ops): (out: Image)
    ensures SameSize(out, template)
    ensures Masked(out, SkewForeground(source, template, targetW, targetH, bl, tr, ops), template, Detect(template).0)
  {
    MaskedOntoTemplate(SkewForeground(source, template, targetW, targetH, bl, tr, ops), template, ops)
  }

  /** The foreground of `compose_item_album_with_skew`: the warped artwork
      pasted on a transparent canvas of the template's size, centred in the
      detected box. */
  function SkewForeground(source: Image, template: Image, targetW: nat, targetH: nat,
                          bl: int, tr: int, ops: Ops): (fg: Image)
    ensures SameSize(fg, template)
  {
    var b := Detect(template).1;
    var skewed := ColumnWarpTrapezoid(CoverSquareResize(source, targetW, targetH, ops), bl, tr, ops);
    var at := SkewPasteOffset(b, skewed.w, skewed.h);
    Paste(Filled(template.w, template.h, Clear), skewed, at.0, at.1, ops.blend)
  }

  /** The warped artwork is the only thing on the skewed foreground: every
      pixel outside its `targetW` by `targetH` rectangle at the centring
      offset is transparent. */
  lemma SkewForegroundPlacement(source: Image, template: Image, targetW: nat, targetH: nat,
                                bl: int, tr: int, ops: Ops)
    ensures var at := SkewPasteOffset(Detect(template).1, targetW, targetH);
      var fg := SkewForeground(source, template, targetW, targetH, bl, tr, ops);
      forall y, x ::
        && 0 <= y < template.h && 0 <= x < template.w
        && !(at.0 <= x < at.0 + targetW && at.1 <= y < at.1 + targetH)
        ==> fg.cells[y][x] == Clear
  {
  }

  /** `_apply_softlight_rgba`: the soft-light blend of the colour channels
      keeps the base's alpha; when the soft-light image has any coverage
      the blend is applied through its alpha, otherwise everywhere. */
  function ApplySoftLight(base: Image, soft: Image, ops: Ops): (out: Image)
    ensures SameSize(out, base)
  {
    var s := SoftLightLayer(base, soft, ops);
    var blended := SoftLightBlended(base, s, ops);
    var sa := AlphaBand(s);
    if BBox(sa).Some? then Composite(blended, base, sa, ops.blend) else blended
  }

  /** Where the soft-light image is opaque the blended colour shows, where
      it is transparent the base shows; with no coverage at all the blend
      applies everywhere. */
  lemma SoftLightCells(base: Image, soft: Image, ops: Ops)
    ensures var s := SoftLightLayer(base, soft, ops);
      var out := ApplySoftLight(base, soft, ops);
      forall y, x :: 0 <= y < base.h && 0 <= x < base.w ==>
        var blended := SoftLightPixel(base.cells[y][x], s.cells[y][x], ops);
        && (IsBlank(AlphaBand(s)) ==> out.cells[y][x] == blended)
        && (s.cells[y][x].a == 0 && !IsBlank(AlphaBand(s)) ==> out.cells[y][x] == base.cells[y][x])
        && (s.cells[y][x].a == 255 ==> out.cells[y][x] == blended)
  {
    var s := SoftLightLayer(base, soft, ops);
    var out := ApplySoftLight(base, soft, ops);
    var sa := AlphaBand(s);
    forall y, x | 0 <= y < base.h && 0 <= x < base.w
      ensures var blended := SoftLightPixel(base.cells[y][x], s.cells[y][x], ops);
        && (IsBlank(sa) ==> out.cells[y][x] == blended)
        && (s.cells[y][x].a == 0 && !IsBlank(sa) ==> out.cells[y][x] == base.cells[y][x])
        && (s.cells[y][x].a == 255 ==> out.cells[y][x] == blended)
    {
      assert sa.cells[y][x] == s.cells[y][x].a;
      if s.cells[y][x].a == 255 {
        assert !IsBlank(sa);
      }
    }
  }

  /** The soft-light image, resampled to the base's size when it differs. */
  function SoftLightLayer(base: Image, soft: Image, ops: Ops): (s: Image)
    ensures SameSize(s, base)
  {
    if SameSize(soft, base) then soft else ops.resize(soft, base.w, base.h, Lanczos)
  }

  /** The soft-light blend of every pixel. */
  function SoftLightBlended(base: Image, s: Image, ops: Ops): (out: Image)
    requires SameSize(s, base)
    ensures SameSize(out, base)
    ensures forall y, x :: 0 <= y < base.h && 0 <= x < base.w ==>
      out.cells[y][x] == SoftLightPixel(base.cells[y][x], s.cells[y][x], ops)
  {
    Plane(base.w, base.h, seq(base.h, y requires 0 <= y < base.h =>
      seq(base.w, x requires 0 <= x < base.w => SoftLightPixel(base.cells[y][x], s.cells[y][x], ops))))
  }

  /** Blended colour channels over the base pixel's alpha. */
  function SoftLightPixel(base: Pixel, soft: Pixel, ops: Ops): (p: Pixel)
    ensures p.a == base.a
  {
    var c := ops.softLight(base, soft);
    Pixel(c.r, c.g, c.b, base.a)
  }

  /** The fitted artwork for a `tw` by `th` region: a pixelated colour
      sample when `pixelateTo` is a positive size, otherwise a cover-crop.
      A non-positive size takes the cover-crop path. */
  function RecordCrop(source: Image, tw: nat, th: nat, pixelateTo: Option<int>, ops: Ops): (crop: Image)
    ensures crop.w == tw && crop.h == th
    ensures !(pixelateTo.Some? && pixelateTo.value > 0) ==> crop == CoverCrop(source, tw, th, ops)
  {
    if pixelateTo.Some? && pixelateTo.value > 0 then
      var n := pixelateTo.value;
      var sampled := ops.resize(LetterboxSquareImage(source, ops.blend), n, n, Lanczos);
      var vivid := ops.enhance(ops.enhance(sampled, Color, 1.2), Brightness, 1.08);
      ops.resize(vivid, tw, th, Nearest)
    else
      CoverCrop(source, tw, th, ops)
  }

  /** The artwork layer: the crop pasted at the region's corner on a
      transparent canvas of the overlay's size. */
  function RecordLayer(crop: Image, region: Box, w: nat, h: nat, ops: Ops): (layer: Image)
    ensures layer.w == w && layer.h == h
    ensures forall y, x :: 0 <= y < h && 0 <= x < w ==>
      layer.cells[y][x] ==
        if InBounds(crop, x - region.x0, y - region.y0)
        then ops.blend(crop.cells[y - region.y0][x - region.x0], Clear, crop.cells[y - region.y0][x - region.x0].a)
        else Clear
  {
    Paste(Filled(w, h, Clear), crop, region.x0, region.y0, ops.blend)
  }

  /** `ImageChops.multiply(layer, gray)`. */
  function Darkened(layer: Image, level: Byte, ops: Ops): (out: Image)
    ensures SameSize(out, layer)
    ensures forall y, x :: 0 <= y < layer.h && 0 <= x < layer.w ==>
      out.cells[y][x] == ops.multiply(layer.cells[y][x], Gray(level))
  {
    MapCells(layer, (p: Pixel) => ops.multiply(p, Gray(level)))
  }

  /** The canvas before the overlay: the layer through the main mask, then,
      only when the trim mask is non-empty, the darkened layer through the
      trim mask. */
  function RecordUnderlay(layer: Image, main: Mask, trim: Mask, level: Byte, ops: Ops): (base: Image)
    requires SameSize(main, layer) && SameSize(trim, layer)
    ensures SameSize(base, layer)
    ensures IsBlank(trim) ==> base == Composite(layer, Filled(layer.w, layer.h, Clear), main, ops.blend)
  {
    var base := Composite(layer, Filled(layer.w, layer.h, Clear), main, ops.blend);
    if BBox(trim).Some? then Composite(Darkened(layer, level, ops), base, trim, ops.blend) else base
  }

  /** What `base` holds at each pixel of `layer`, by the two mask weights
      there. */
  ghost predicate UnderlayCells(base: Image, layer: Image, main: Mask, trim: Mask, level: Byte, ops: Ops) {
    && SameSize(base, layer) && SameSize(main, layer) && SameSize(trim, layer)
    && forall y, x :: 0 <= y < layer.h && 0 <= x < layer.w ==>
      && (main.cells[y][x] == 0 && trim.cells[y][x] == 0 ==> base.cells[y][x] == Clear)
      && (main.cells[y][x] == 255 && trim.cells[y][x] == 0 ==> base.cells[y][x] == layer.cells[y][x])
      && (trim.cells[y][x] == 255 ==> base.cells[y][x] == ops.multiply(layer.cells[y][x], Gray(level)))
  }

  /** Per pixel: outside both masks the canvas is transparent, a fully
      weighted main pixel shows the layer, a fully weighted trim pixel shows
      the darkened layer. */
  lemma RecordUnderlayCells(layer: Image, main: Mask, trim: Mask, level: Byte, ops: Ops)
    requires SameSize(main, layer) && SameSize(trim, layer)
    ensures UnderlayCells(RecordUnderlay(layer, main, trim, level, ops), layer, main, trim, level, ops)
  {
    var plain := Composite(layer, Filled(layer.w, layer.h, Clear), main, ops.blend);
    var base := RecordUnderlay(layer, main, trim, level, ops);
    var dark := Darkened(layer, level, ops);
    forall y, x | 0 <= y < layer.h && 0 <= x < layer.w
      ensures && (main.cells[y][x] == 0 && trim.cells[y][x] == 0 ==> base.cells[y][x] == Clear)
              && (main.cells[y][x] == 255 && trim.cells[y][x] == 0 ==> base.cells[y][x] == layer.cells[y][x])
              && (trim.cells[y][x] == 255 ==> base.cells[y][x] == ops.multiply(layer.cells[y][x], Gray(level)))
    {
      assert plain.cells[y][x] == ops.blend(layer.cells[y][x], Clear, main.cells[y][x]);
      if BBox(trim).Some? {
        assert base.cells[y][x] == ops.blend(dark.cells[y][x], plain.cells[y][x], trim.cells[y][x]);
      } else {
        assert base == plain;
      }
    }
  }

  /** Alpha below this is stripped from the overlay before it is laid on top. */
  const OverlayAlphaFloor: int := 8

  /** `compose_record_with_mask_overlay`. The main and trim regions come from
      the key colours of `maskImg`; if their union is empty the call is
      `compose_with_template(source, overlay)` (the overlay doubles as the
      template). Otherwise the artwork is fitted to the union's box, the trim
      region is darkened, the cleaned overlay goes on top and the optional
      soft-light pass runs last. `Image.composite` raises when the mask image
      and the overlay differ in size. */
  function ComposeRecordWithMaskOverlay(source: Image, maskImg: Image, overlay: Image,
                                        pixelateTo: Option<int>, darken: real,
                                        softlight: Option<Image>, ops: Ops): (r: Result<Image>)
    ensures var masks := DualMasks(maskImg);
      IsBlank(Lighter(masks.0, masks.1)) ==> r == Ok(ComposeWithTemplate(source, overlay, ops))
    ensures var masks := DualMasks(maskImg);
      r.Err? <==> !IsBlank(Lighter(masks.0, masks.1)) && !SameSize(maskImg, overlay)
    ensures r.Ok? ==> SameSize(r.value, overlay)
  {
    var masks := DualMasks(maskImg);
    var region := BBox(Lighter(masks.0, masks.1));
    if region.None? then
      Ok(ComposeWithTemplate(source, overlay, ops))
    else if !SameSize(maskImg, overlay) then
      Err("images do not match")
    else
      var top := RecordTop(source, maskImg, overlay, region.value, pixelateTo, darken, ops);
      if softlight.Some? then Ok(ApplySoftLight(top, softlight.value, ops)) else Ok(top)
  }

  /** The canvas after the overlay pass, for a non-empty union box. */
  function RecordTop(source: Image, maskImg: Image, overlay: Image, region: Box,
                     pixelateTo: Option<int>, darken: real, ops: Ops): (top: Image)
    requires SameSize(maskImg, overlay)
    requires 0 <= region.x0 <= region.x1 && 0 <= region.y0 <= region.y1
    ensures SameSize(top, overlay)
    ensures TopCells(top, RecordLayer(RecordCrop(source, region.x1 - region.x0, region.y1 - region.y0, pixelateTo, ops), region, overlay.w, overlay.h, ops),
                     ClearLowAlphaNoise(overlay, OverlayAlphaFloor),
                     DualMasks(maskImg).0, DualMasks(maskImg).1, DarkenMultiplier(darken), ops)
  {
    var masks := DualMasks(maskImg);
    var crop := RecordCrop(source, region.x1 - region.x0, region.y1 - region.y0, pixelateTo, ops);
    var layer := RecordLayer(crop, region, overlay.w, overlay.h, ops);
    OverlayTop(layer, masks.0, masks.1, DarkenMultiplier(darken), overlay, ops)
  }

  /** The cleaned overlay laid over the underlay built from `layer`. */
  function OverlayTop(layer: Image, main: Mask, trim: Mask, level: Byte, overlay: Image, ops: Ops): (top: Image)
    requires SameSize(main, layer) && SameSize(trim, layer) && SameSize(overlay, layer)
    requires forall y, x :: 0 <= y < layer.h && 0 <= x < layer.w ==> main.cells[y][x] == 0 || trim.cells[y][x] == 0
    ensures TopCells(top, layer, ClearLowAlphaNoise(overlay, OverlayAlphaFloor), main, trim, level, ops)
  {
    var cleaned := ClearLowAlphaNoise(overlay, OverlayAlphaFloor);
    OverlayOnLayer(layer, main, trim, level, cleaned, ops);
    AlphaComposite(RecordUnderlay(layer, main, trim, level, ops), cleaned, ops.over)
  }

  /** Past the fallback and the size check, the result is the overlaid canvas. */
  lemma RecordIsTop(source: Image, maskImg: Image, overlay: Image,
                    pixelateTo: Option<int>, darken: real, ops: Ops)
    requires SameSize(maskImg, overlay)
    ensures var masks := DualMasks(maskImg);
      var region := BBox(Lighter(masks.0, masks.1));
      region.Some? ==>
        && 0 <= region.value.x0 <= region.value.x1 && 0 <= region.value.y0 <= region.value.y1
        && ComposeRecordWithMaskOverlay(source, maskImg, overlay, pixelateTo, darken, None, ops)
           == Ok(RecordTop(source, maskImg, overlay, region.value, pixelateTo, darken, ops))
  {
    var masks := DualMasks(maskImg);
    var u := Lighter(masks.0, masks.1);
    var region := BBox(u);
    if region.Some? {
      assert IsTightBox(u, region.value);
    }
  }

  /** What each pixel of `top` holds, by the key weights there: the cleaned
      overlay laid over nothing (transparent) outside both regions, over the
      artwork in a fully weighted main pixel, and over the darkened artwork
      in a fully weighted trim pixel. */
  ghost predicate TopCells(top: Image, layer: Image, cleaned: Image, main: Mask, trim: Mask, level: Byte, ops: Ops) {
    && SameSize(top, layer) && SameSize(cleaned, layer) && SameSize(main, layer) && SameSize(trim, layer)
    && forall y, x :: 0 <= y < layer.h && 0 <= x < layer.w ==>
      && (main.cells[y][x] == 0 && trim.cells[y][x] == 0 ==> top.cells[y][x] == ops.over(Clear, cleaned.cells[y][x]))
      && (main.cells[y][x] == 255 ==> top.cells[y][x] == ops.over(layer.cells[y][x], cleaned.cells[y][x]))
      && (trim.cells[y][x] == 255 ==>
            top.cells[y][x] == ops.over(ops.multiply(layer.cells[y][x], Gray(level)), cleaned.cells[y][x]))
  }

  /** The overlay laid on an underlay with the `UnderlayCells` shape gives
      the `TopCells` shape, when no pixel is in both regions. */
  lemma OverlayOnUnderlay(base: Image, layer: Image, cleaned: Image, main: Mask, trim: Mask, level: Byte, ops: Ops)
    requires SameSize(cleaned, layer)
    requires UnderlayCells(base, layer, main, trim, level, ops)
    requires forall y, x :: 0 <= y < layer.h && 0 <= x < layer.w ==> main.cells[y][x] == 0 || trim.cells[y][x] == 0
    ensures TopCells(AlphaComposite(base, cleaned, ops.over), layer, cleaned, main, trim, level, ops)
  {
  }

  /** `OverlayOnUnderlay` for the underlay built from `layer`. */
  lemma OverlayOnLayer(layer: Image, main: Mask, trim: Mask, level: Byte, cleaned: Image, ops: Ops)
    requires SameSize(main, layer) && SameSize(trim, layer) && SameSize(cleaned, layer)
    requires forall y, x :: 0 <= y < layer.h && 0 <= x < layer.w ==> main.cells[y][x] == 0 || trim.cells[y][x] == 0
    ensures TopCells(AlphaComposite(RecordUnderlay(layer, main, trim, level, ops), cleaned, ops.over), layer, cleaned, main, trim, level, ops)
  {
    RecordUnderlayCells(layer, main, trim, level, ops);
    OverlayOnUnderlay(RecordUnderlay(layer, main, trim, level, ops), layer, cleaned, main, trim, level, ops);
  }
}
