/** The key classifier (`_red_key_dual_masks`) and the overlay clean-up
    (`_clear_low_alpha_noise`). A dual-purpose mask image paints the main
    label region magenta and the darker trim region cyan. */
module KeyClassifier {
  import opened Raster

  datatype Rgb = Rgb(r: int, g: int, b: int)

  /** Strict key colours and their L1 tolerance. */
  const MainKey: Rgb := Rgb(255, 0, 255)
  const TrimKey: Rgb := Rgb(0, 255, 255)
  const KeyTolerance: int := 24

  /** Pixels with alpha below this are antialiasing fringe and never keyed. */
  const KeyAlphaFloor: int := 8

  function Abs(v: int): nat {
    if v < 0 then -v else v
  }

  /** Manhattan distance between a pixel's colour and a key colour. */
  function L1(p: Pixel, k: Rgb): nat {
    Abs(p.r - k.r) + Abs(p.g - k.g) + Abs(p.b - k.b)
  }

  datatype KeyClass = Trim | Main | Unkeyed

  /** First match wins: trim is checked before main. */
  function Classify(p: Pixel): (c: KeyClass)
    ensures p.a < KeyAlphaFloor ==> c == Unkeyed
    ensures p.a >= KeyAlphaFloor ==> (c == Trim <==> L1(p, TrimKey) <= KeyTolerance)
    ensures p.a >= KeyAlphaFloor ==> (c == Main <==> L1(p, MainKey) <= KeyTolerance)
  {
    KeyBallsDisjoint(p);
    if p.a < KeyAlphaFloor then Unkeyed
    else if L1(p, TrimKey) <= KeyTolerance then Trim
    else if L1(p, MainKey) <= KeyTolerance then Main
    else Unkeyed
  }

  /** The weight a pixel contributes to the mask of class `c`: its alpha,
      max-ed into the mask's initial 0. */
  function Weight(p: Pixel, c: KeyClass): Byte {
    if Classify(p) == c then (if 0 >= p.a then 0 else p.a) else 0
  }

  /** `(main_mask, trim_mask)` of a mask image. */
  function DualMasks(img: Image): (r: (Mask, Mask))
    ensures SameSize(r.0, img) && SameSize(r.1, img)
    ensures forall y, x :: 0 <= y < img.h && 0 <= x < img.w ==>
      var p := img.cells[y][x];
      && (p.a < KeyAlphaFloor ==> r.0.cells[y][x] == 0 && r.1.cells[y][x] == 0)
      && (p.a >= KeyAlphaFloor && L1(p, TrimKey) <= KeyTolerance ==>
            r.1.cells[y][x] == p.a && r.0.cells[y][x] == 0)
      && (p.a >= KeyAlphaFloor && L1(p, TrimKey) > KeyTolerance && L1(p, MainKey) <= KeyTolerance ==>
            r.0.cells[y][x] == p.a && r.1.cells[y][x] == 0)
      && (L1(p, TrimKey) > KeyTolerance && L1(p, MainKey) > KeyTolerance ==>
            r.0.cells[y][x] == 0 && r.1.cells[y][x] == 0)
    ensures forall y, x :: 0 <= y < img.h && 0 <= x < img.w ==>
      r.0.cells[y][x] == 0 || r.1.cells[y][x] == 0
  {
    (MapCells(img, p => Weight(p, Main)), MapCells(img, p => Weight(p, Trim)))
  }

  /** The two key colours are 510 apart, so no colour is within tolerance
      of both: the trim-first order never has to break a real tie. */
  lemma KeyBallsDisjoint(p: Pixel)
    ensures !(L1(p, TrimKey) <= KeyTolerance && L1(p, MainKey) <= KeyTolerance)
  {
    assert L1(p, TrimKey) + L1(p, MainKey) >= 510;
  }

  /** The reference colours themselves, fully opaque, land in their own mask
      at full weight. */
  lemma ExactKeysClassify()
    ensures Classify(Pixel(0, 255, 255, 255)) == Trim
    ensures Classify(Pixel(255, 0, 255, 255)) == Main
    ensures Classify(Pixel(128, 128, 255, 255)) == Unkeyed
  {
  }

  /** `_clear_low_alpha_noise`: every pixel with alpha below `threshold`
      becomes fully transparent black; the rest are kept as they are. */
  function ClearLowAlphaNoise(img: Image, threshold: int): (out: Image)
    ensures SameSize(out, img)
    ensures forall y, x :: 0 <= y < img.h && 0 <= x < img.w ==>
      out.cells[y][x] == (if img.cells[y][x].a < threshold then Clear else img.cells[y][x])
  {
    MapCells(img, (p: Pixel) => if p.a < threshold then Clear else p)
  }

  /** Cleaning is idempotent. */
  lemma ClearLowAlphaNoiseIdempotent(img: Image, threshold: int)
    ensures ClearLowAlphaNoise(ClearLowAlphaNoise(img, threshold), threshold)
         == ClearLowAlphaNoise(img, threshold)
  {
    var once := ClearLowAlphaNoise(img, threshold);
    var twice := ClearLowAlphaNoise(once, threshold);
    assert forall y :: 0 <= y < img.h ==> twice.cells[y] == once.cells[y];
  }
}
