/** The imaging-library capability the compositor is written against.
    Resampling filters, alpha compositing, colour blends and enhancement are
    library numerics; they are parameters here, constrained only by the laws
    the compositor relies on. Masked pasting, cropping and compositing with a
    mask are modelled exactly on top of a per-pixel `Blend`. */
module RasterOps {
  import opened Raster

  /** Pillow's resampling filters. */
  datatype Filter = Lanczos | Bicubic | Nearest

  /** A resampler: always returns exactly the requested size. */
  type Resampler = f: (Image, nat, nat, Filter) -> Image
    | forall img, w, h, k :: f(img, w, h, k).w == w && f(img, w, h, k).h == h
    witness (img: Image, w: nat, h: nat, k: Filter) => var c: Image := Filled(w, h, Clear); c

  /** The per-pixel rule of a masked paste, `blend(fg, bg, m)`: weight 0
      keeps the background and weight 255 takes the foreground. Pillow's
      8-bit blend is exact at both ends. */
  type Blend = f: (Pixel, Pixel, Byte) -> Pixel
    | forall fg, bg :: f(fg, bg, 0) == bg && f(fg, bg, 255) == fg
    witness (fg: Pixel, bg: Pixel, m: Byte) => if m == 0 then bg else fg

  /** `ImageEnhance` enhancers. */
  datatype Enhancer = Color | Brightness

  datatype Ops = Ops(
    resize: Resampler,
    blend: Blend,
    /** `alpha_composite`: `over(dst, src)` puts `src` on top of `dst`. */
    over: (Pixel, Pixel) -> Pixel,
    /** `ImageChops.multiply`, per pixel. */
    multiply: (Pixel, Pixel) -> Pixel,
    /** `ImageChops.soft_light(base, layer)` on the colour channels. */
    softLight: (Pixel, Pixel) -> Pixel,
    /** `ImageEnhance.<kind>(img).enhance(factor)`. */
    enhance: (Image, Enhancer, real) -> Image,
    /** `(int(w * s), int(h * s))` for the cover scale
        `s = max(tw / max(1, w), th / max(1, h))`, given `(w, h, tw, th)`. */
    coverSize: (nat, nat, nat, nat) -> (nat, nat),
    /** The same with the contain scale `min(..)`. */
    containSize: (nat, nat, nat, nat) -> (nat, nat)
  )

  /** `dst.paste(src, (ox, oy), src)`: `src` blended onto `dst` with its own
      alpha as the mask; the part of `src` outside `dst` is clipped. */
  function Paste(dst: Image, src: Image, ox: int, oy: int, blend: Blend): (out: Image)
    ensures SameSize(out, dst)
    ensures forall y, x :: 0 <= y < dst.h && 0 <= x < dst.w ==>
      out.cells[y][x] ==
        if InBounds(src, x - ox, y - oy)
        then blend(src.cells[y - oy][x - ox], dst.cells[y][x], src.cells[y - oy][x - ox].a)
        else dst.cells[y][x]
  {
    Plane(dst.w, dst.h, seq(dst.h, y requires 0 <= y < dst.h =>
      seq(dst.w, x requires 0 <= x < dst.w =>
        if InBounds(src, x - ox, y - oy)
        then blend(src.cells[y - oy][x - ox], dst.cells[y][x], src.cells[y - oy][x - ox].a)
        else dst.cells[y][x])))
  }

  /** `Image.composite(fg, bg, mask)`. */
  /** `out` shows `bg` where `mask` is 0 and `fg` where it is 255. */
  ghost predicate Masked(out: Image, fg: Image, bg: Image, mask: Mask) {
    && SameSize(out, bg) && SameSize(fg, bg) && SameSize(mask, bg)
    && forall y, x :: 0 <= y < bg.h && 0 <= x < bg.w ==>
      && (mask.cells[y][x] == 0 ==> out.cells[y][x] == bg.cells[y][x])
      && (mask.cells[y][x] == 255 ==> out.cells[y][x] == fg.cells[y][x])
  }

  function Composite(fg: Image, bg: Image, mask: Mask, blend: Blend): (out: Image)
    requires SameSize(fg, bg) && SameSize(mask, bg)
    ensures SameSize(out, bg)
    ensures forall y, x :: 0 <= y < bg.h && 0 <= x < bg.w ==>
      out.cells[y][x] == blend(fg.cells[y][x], bg.cells[y][x], mask.cells[y][x])
    ensures Masked(out, fg, bg, mask)
  {
    Plane(bg.w, bg.h, seq(bg.h, y requires 0 <= y < bg.h =>
      seq(bg.w, x requires 0 <= x < bg.w =>
        blend(fg.cells[y][x], bg.cells[y][x], mask.cells[y][x]))))
  }

  /** `img.crop(box)`: the part of the box outside the image reads as
      transparent black. */
  function Crop(img: Image, b: Box): (out: Image)
    requires b.x0 <= b.x1 && b.y0 <= b.y1
    ensures out.w == b.x1 - b.x0 && out.h == b.y1 - b.y0
    ensures forall y, x :: 0 <= y < out.h && 0 <= x < out.w ==>
      out.cells[y][x] ==
        if InBounds(img, b.x0 + x, b.y0 + y) then img.cells[b.y0 + y][b.x0 + x] else Clear
  {
    var w: nat := b.x1 - b.x0;
    var h: nat := b.y1 - b.y0;
    var cells := seq(h, y requires 0 <= y < h =>
      seq(w, x requires 0 <= x < w =>
        if InBounds(img, b.x0 + x, b.y0 + y) then img.cells[b.y0 + y][b.x0 + x] else Clear));
    assert forall y :: 0 <= y < h ==> |cells[y]| == w;
    Plane(w, h, cells)
  }

  /** `base.alpha_composite(top)` for images of one size. */
  function AlphaComposite(base: Image, top: Image, over: (Pixel, Pixel) -> Pixel): (out: Image)
    requires SameSize(base, top)
    ensures SameSize(out, base)
    ensures forall y, x :: 0 <= y < base.h && 0 <= x < base.w ==>
      out.cells[y][x] == over(base.cells[y][x], top.cells[y][x])
  {
    Plane(base.w, base.h, seq(base.h, y requires 0 <= y < base.h =>
      seq(base.w, x requires 0 <= x < base.w => over(base.cells[y][x], top.cells[y][x]))))
  }

  /** The alpha band, `img.split()[-1]`. */
  function AlphaBand(img: Image): (m: Mask)
    ensures SameSize(m, img)
    ensures forall y, x :: 0 <= y < img.h && 0 <= x < img.w ==> m.cells[y][x] == img.cells[y][x].a
  {
    MapCells(img, (p: Pixel) => p.a)
  }
}
