/** The geometric fitter: the fit policies that bring a source image to a
    target size (letterbox, cover-crop, square stretch) and the
    corner-pinned trapezoid warp, over the capability in `RasterOps`. */
module Fitter {
  import opened Raster
  import opened RasterOps
  import opened Geometry

  /** `_letterbox_square_image`: the source centred on an opaque black
      square whose side is the longer source side. */
  function LetterboxSquareImage(src: Image, blend: Blend): (out: Image)
    ensures out.w == SquareSide(src.w, src.h) && out.h == out.w
    ensures 0 <= SquareOffset(src.w, src.h).0 && SquareOffset(src.w, src.h).0 + src.w <= out.w
    ensures 0 <= SquareOffset(src.w, src.h).1 && SquareOffset(src.w, src.h).1 + src.h <= out.h
  {
    SquareLetterboxInside(src.w, src.h);
    var side := SquareSide(src.w, src.h);
    Paste(Filled(side, side, OpaqueBlack), src, SquareOffset(src.w, src.h).0, SquareOffset(src.w, src.h).1, blend)
  }

  predicate IsOpaque(img: Image) {
    forall y, x :: 0 <= y < img.h && 0 <= x < img.w ==> img.cells[y][x].a == 255
  }

  /** Everything of the square outside the source is an opaque black bar. */
  lemma LetterboxSquareBars(src: Image, blend: Blend)
    ensures forall y, x ::
      0 <= y < SquareSide(src.w, src.h) && 0 <= x < SquareSide(src.w, src.h) &&
      !InBounds(src, x - SquareOffset(src.w, src.h).0, y - SquareOffset(src.w, src.h).1) ==>
      LetterboxSquareImage(src, blend).cells[y][x] == OpaqueBlack
  {
  }

  /** `src` appears unchanged in `out` with its corner at `(ox, oy)`. */
  ghost predicate ShowsAt(out: Image, src: Image, ox: int, oy: int) {
    forall y, x :: 0 <= y < src.h && 0 <= x < src.w ==>
      && 0 <= oy + y < out.h && 0 <= ox + x < out.w
      && out.cells[oy + y][ox + x] == src.cells[y][x]
  }

  /** An opaque source appears unchanged inside its square. */
  lemma LetterboxSquareKeepsSource(src: Image, blend: Blend)
    requires IsOpaque(src)
    ensures ShowsAt(LetterboxSquareImage(src, blend), src, SquareOffset(src.w, src.h).0, SquareOffset(src.w, src.h).1)
  {
    var side := SquareSide(src.w, src.h);
    SquareLetterboxInside(src.w, src.h);
    PasteOpaque(Filled(side, side, OpaqueBlack), src, SquareOffset(src.w, src.h).0, SquareOffset(src.w, src.h).1, blend);
  }

  /** An opaque image pasted wholly inside the canvas replaces the pixels
      it covers. */
  lemma PasteOpaque(dst: Image, src: Image, ox: int, oy: int, blend: Blend)
    requires IsOpaque(src)
    requires 0 <= ox && ox + src.w <= dst.w && 0 <= oy && oy + src.h <= dst.h
    ensures ShowsAt(Paste(dst, src, ox, oy, blend), src, ox, oy)
  {
    var out := Paste(dst, src, ox, oy, blend);
    forall y, x | 0 <= y < src.h && 0 <= x < src.w
      ensures out.cells[oy + y][ox + x] == src.cells[y][x]
    {
      assert InBounds(src, (ox + x) - ox, (oy + y) - oy);
      assert src.cells[y][x].a == 255;
    }
  }

  /** `_square_letterbox`: the letterboxed square resampled to `outSize`. */
  function SquareLetterbox(src: Image, outSize: nat, ops: Ops): (out: Image)
    ensures out.w == outSize && out.h == outSize
  {
    ops.resize(LetterboxSquareImage(src, ops.blend), outSize, outSize, Lanczos)
  }

  /** `_cover_letterbox`: contain-scale, then centre on an opaque black
      `outW` by `outH` canvas. */
  function CoverLetterbox(src: Image, outW: nat, outH: nat, ops: Ops): (out: Image)
    ensures out.w == outW && out.h == outH
  {
    var size := ops.containSize(src.w, src.h, outW, outH);
    var nw := AtLeastOne(size.0);
    var nh := AtLeastOne(size.1);
    var resized := ops.resize(src, nw, nh, Lanczos);
    var off := LetterboxOffset(outW, outH, nw, nh);
    Paste(Filled(outW, outH, OpaqueBlack), resized, off.0, off.1, ops.blend)
  }

  /** Everything the resized image does not cover is an opaque black bar. */
  lemma CoverLetterboxBars(src: Image, outW: nat, outH: nat, ops: Ops)
    ensures var out := CoverLetterbox(src, outW, outH, ops);
      var size := ops.containSize(src.w, src.h, outW, outH);
      var nw := AtLeastOne(size.0);
      var nh := AtLeastOne(size.1);
      var off := LetterboxOffset(outW, outH, nw, nh);
      forall y, x :: 0 <= y < outH && 0 <= x < outW &&
        !(off.0 <= x < off.0 + nw && off.1 <= y < off.1 + nh)
        ==> out.cells[y][x] == OpaqueBlack
  {
  }

  /** The resized size used by the cover-crop paths. */
  function CoverResizedSize(src: Image, outW: nat, outH: nat, ops: Ops): (s: (nat, nat))
    ensures s.0 >= 1 && s.1 >= 1
  {
    var size := ops.coverSize(src.w, src.h, outW, outH);
    (AtLeastOne(size.0), AtLeastOne(size.1))
  }

  /** `_cover_crop`: cover-scale, then crop the centred `outW` by `outH`
      window. */
  function CoverCrop(src: Image, outW: nat, outH: nat, ops: Ops): (out: Image)
    ensures out.w == outW && out.h == outH
  {
    var size := CoverResizedSize(src, outW, outH, ops);
    var resized := ops.resize(src, size.0, size.1, Lanczos);
    Crop(resized, CoverCropWindow(size.0, size.1, outW, outH))
  }

  /** When the resized source covers the target, every output pixel is a
      pixel of the resized source (no transparent fill); when it falls
      short in width, the right-most column is transparent fill. */
  lemma CoverCropFills(src: Image, outW: nat, outH: nat, ops: Ops)
    ensures var size := CoverResizedSize(src, outW, outH, ops);
      var resized := ops.resize(src, size.0, size.1, Lanczos);
      var win := CoverCropWindow(size.0, size.1, outW, outH);
      var out := CoverCrop(src, outW, outH, ops);
      && (size.0 >= outW && size.1 >= outH ==>
            forall y, x :: 0 <= y < outH && 0 <= x < outW ==>
              out.cells[y][x] == resized.cells[win.y0 + y][win.x0 + x])
      && (size.0 < outW && outH > 0 ==> out.cells[0][outW - 1] == Clear)
  {
  }

  /** `_cover_square_resize`: stretch to a square of the longer side, then
      to the target size (no letterbox). */
  function CoverSquareResize(src: Image, outW: nat, outH: nat, ops: Ops): (out: Image)
    ensures out.w == outW && out.h == outH
  {
    var side := AtLeastOne(SquareSide(src.w, src.h));
    ops.resize(ops.resize(src, side, side, Lanczos), outW, outH, Lanczos)
  }

  /** One output pixel of `_column_warp_trapezoid` for `w, h > 1`: column `x`
      of the source is resampled to its band's height and pasted at the
      band's top; rows outside the band stay transparent. */
  function WarpCell(src: Image, bl: int, tr: int, ops: Ops, x: nat, y: nat): Pixel
    requires src.w > 1 && x < src.w
  {
    var band := ColumnBand(src.w, src.h, bl, tr, x);
    if !BandNonEmpty(band) || !(band.0 <= y <= band.1) then Clear
    else
      var col := ops.resize(Crop(src, Box(x, 0, x + 1, src.h)), 1, band.1 - band.0 + 1, Bicubic);
      var p := col.cells[y - band.0][0];
      ops.blend(p, Clear, p.a)
  }

  /** `_column_warp_trapezoid`: a source with a side of at most one pixel
      is returned as it is; otherwise each column is squeezed into its band
      on a transparent canvas of the same size. */
  function ColumnWarpTrapezoid(src: Image, bl: int, tr: int, ops: Ops): (out: Image)
    ensures src.w <= 1 || src.h <= 1 ==> out == src
    ensures SameSize(out, src)
    ensures src.w > 1 && src.h > 1 ==>
      forall y, x :: 0 <= y < src.h && 0 <= x < src.w ==>
        var band := ColumnBand(src.w, src.h, bl, tr, x);
        !(band.0 <= y <= band.1) ==> out.cells[y][x] == Clear
  {
    if src.w <= 1 || src.h <= 1 then src
    else
      Plane(src.w, src.h, seq(src.h, y requires 0 <= y < src.h =>
        seq(src.w, x requires 0 <= x < src.w => WarpCell(src, bl, tr, ops, x, y))))
  }

  /** A column whose band is empty stays fully transparent; the two edge
      columns keep the corners pinned as described on `ColumnBand`. */
  lemma WarpEmptyColumnTransparent(src: Image, bl: int, tr: int, ops: Ops, x: nat)
    requires src.w > 1 && src.h > 1 && x < src.w
    requires !BandNonEmpty(ColumnBand(src.w, src.h, bl, tr, x))
    ensures forall y :: 0 <= y < src.h ==> ColumnWarpTrapezoid(src, bl, tr, ops).cells[y][x] == Clear
  {
  }
}
