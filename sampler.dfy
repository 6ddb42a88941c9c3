/**
 * Sampling of one radial pixel: the integer part of `setRadialPixel`.
 *
 * The converter places LED `r` of slice `th` at a polar position, turns that
 * position into a bitmap pixel and lights the LED iff the pixel is black.  The
 * floating-point step (radius in pixels, angle in radians, `cos`/`sin` and the
 * truncating `(int)` casts) is the parameter `polar`: it maps a radius index
 * and the integer slice multiplier of the angle to a pixel offset from the
 * centre of the bitmap, y pointing up.
 */
module Sampler {
  /** The part of a bitmap the converter reads: its size, its bit depth and the red channel of each pixel. */
  datatype Image = Image(width: nat, height: nat, depth: int, red: (int, int) -> bv8)

  /** An offset from the centre of the bitmap, y pointing up. */
  datatype Offset = Offset(dx: int, dy: int)

  /** A bitmap pixel, counted from the top left corner, y pointing down. */
  datatype Pixel = Pixel(x: int, y: int)

  /** The converter's settings: LEDs per blade, slices per turn, slices to rotate clockwise, and mirroring. */
  datatype Config = Config(numLEDs: nat, numSlices: nat, rotation: int, mirror: bool)

  /** One LED at one slice: its radius index, its slice index and whether it is lit. */
  datatype RadialPixel = RadialPixel(r: int, th: int, lit: bool)

  /** `isBlack`: the C test `!(red)` holds exactly for a zero red channel. */
  predicate IsBlack(img: Image, x: int, y: int) {
    img.red(x, y) == 0
  }

  /**
   * The integer multiplier of `thetaSpacing` in the angle of slice `th`: the top
   * blade sweeps clockwise from a quarter turn back, the mirrored bottom blade
   * counter-clockwise.
   */
  function SliceMultiplier(cfg: Config, th: int): int {
    if !cfg.mirror then -(th + cfg.numSlices / 4 + cfg.rotation)
    else th - cfg.numSlices / 4 - cfg.rotation
  }

  /** Moves an offset from the centre of the bitmap to the top left corner, flipping y. */
  function ShiftToCorner(img: Image, off: Offset): (p: Pixel)
    ensures CenterOffset(img, p) == off
  {
    Pixel(off.dx + img.width / 2, img.height / 2 - off.dy)
  }

  /** The offset from the centre of the pixel at `p`: the reference definition `ShiftToCorner` inverts. */
  function CenterOffset(img: Image, p: Pixel): Offset {
    Offset(p.x - img.width / 2, img.height / 2 - p.y)
  }

  /** The pixel sampled for LED `r` at slice `th`. */
  function SamplePixel(cfg: Config, polar: (int, int) -> Offset, img: Image, r: int, th: int): Pixel {
    ShiftToCorner(img, polar(r, SliceMultiplier(cfg, th)))
  }

  /** Whether LED `r` is lit at slice `th`: the sampled pixel is black. */
  predicate SampleLit(cfg: Config, polar: (int, int) -> Offset, img: Image, r: int, th: int) {
    var p := SamplePixel(cfg, polar, img, r, th);
    IsBlack(img, p.x, p.y)
  }

  /** Sets `lit` of the radial pixel at `k` from its own `r` and `th`, and changes nothing else. */
  method SetRadialPixel(cfg: Config, polar: (int, int) -> Offset, img: Image, radpix: array<RadialPixel>, k: nat)
    requires k < radpix.Length
    modifies radpix
    ensures radpix[..] == old(radpix[..])[k := old(radpix[k]).(lit := SampleLit(cfg, polar, img, old(radpix[k]).r, old(radpix[k]).th))]
    ensures var p := SamplePixel(cfg, polar, img, radpix[k].r, radpix[k].th); radpix[k].lit <==> img.red(p.x, p.y) == 0
  {
    var rp := radpix[k];
    var p := SamplePixel(cfg, polar, img, rp.r, rp.th);
    if IsBlack(img, p.x, p.y) {
      radpix[k] := rp.(lit := true);
    } else {
      radpix[k] := rp.(lit := false);
    }
  }

  /** Without mirroring each next slice is one step clockwise; with mirroring one step counter-clockwise. */
  lemma SliceStep(cfg: Config, th: int)
    ensures SliceMultiplier(cfg, th + 1) == SliceMultiplier(cfg, th) + (if cfg.mirror then 1 else -1)
  {
  }

  /** Mirroring reflects the sweep: slice `th` mirrored is at the angle of slice `-th` unmirrored. */
  lemma MirrorReflects(cfg: Config, th: int)
    ensures SliceMultiplier(cfg.(mirror := true), th) == SliceMultiplier(cfg.(mirror := false), -th)
  {
  }

  /** The two sweeps are symmetric about the starting angle `-(numSlices/4 + rotation)`. */
  lemma SweepsSymmetric(cfg: Config, th: int)
    ensures SliceMultiplier(cfg.(mirror := true), th) + SliceMultiplier(cfg.(mirror := false), th)
         == -2 * (cfg.numSlices / 4 + cfg.rotation)
  {
  }

  /** Rotating by `k` more slices shows, at slice `th`, what slice `th + k` showed (`th - k` when mirrored). */
  lemma RotationShifts(cfg: Config, th: int, k: int)
    ensures SliceMultiplier(cfg.(rotation := cfg.rotation + k), th)
         == SliceMultiplier(cfg, if cfg.mirror then th - k else th + k)
  {
  }

  /** Slice 0 of an unrotated blade is a quarter turn back from angle 0, whichever the direction. */
  lemma FirstSliceQuarterTurn(cfg: Config)
    requires cfg.rotation == 0
    ensures SliceMultiplier(cfg, 0) == -(cfg.numSlices / 4)
  {
  }

  /** Different slices get different angles. */
  lemma SlicesDistinct(cfg: Config, th: int, th': int)
    ensures SliceMultiplier(cfg, th) == SliceMultiplier(cfg, th') <==> th == th'
  {
  }

  /** Shifting to the corner and back gives the offset again. */
  lemma CornerRoundTrip(img: Image, off: Offset)
    ensures CenterOffset(img, ShiftToCorner(img, off)) == off
  {
  }

  /** Every pixel is the corner shift of exactly its own centre offset. */
  lemma CenterRoundTrip(img: Image, p: Pixel)
    ensures ShiftToCorner(img, CenterOffset(img, p)) == p
  {
  }

  /** The zero offset is the pixel `(width/2, height/2)`; a larger `dy` is a pixel higher up. */
  lemma ShiftOrientation(img: Image, off: Offset)
    ensures ShiftToCorner(img, Offset(0, 0)) == Pixel(img.width / 2, img.height / 2)
    ensures ShiftToCorner(img, off.(dy := off.dy + 1)).y == ShiftToCorner(img, off).y - 1
    ensures ShiftToCorner(img, off.(dx := off.dx + 1)).x == ShiftToCorner(img, off).x + 1
  {
  }

  /** The shifted pixel lies inside a `width` by `height` bitmap iff the offset lies in the matching centred box. */
  lemma ShiftInBounds(img: Image, off: Offset)
    ensures (0 <= ShiftToCorner(img, off).x < img.width && 0 <= ShiftToCorner(img, off).y < img.height)
        <==> (-(img.width / 2) <= off.dx < img.width - img.width / 2
              && img.height / 2 - img.height < off.dy <= img.height / 2)
  {
  }
}
