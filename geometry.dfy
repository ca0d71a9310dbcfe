/** Canvas dimensions in the target-size tool: the one-time downscale to the
    max width, the ×0.9 shrink step of the fallback, and the automatic max
    width chosen when an image is selected. */
module Geometry {
  import opened Wrappers
  import opened JsNumber

  datatype Dims = Dims(width: nat, height: nat)

  /** A loaded image: `naturalWidth`/`naturalHeight` and the layout `width`/`height`. */
  datatype Image = Image(naturalWidth: nat, naturalHeight: nat, width: nat, height: nat)

  /** `img.naturalWidth || img.width` and the same for the height: a zero
      natural dimension falls back to the layout one. */
  function SourceDims(img: Image): (d: Dims)
    ensures img.naturalWidth != 0 ==> d.width == img.naturalWidth
    ensures img.naturalHeight != 0 ==> d.height == img.naturalHeight
    ensures d.width == img.naturalWidth || d.width == img.width
    ensures d.height == img.naturalHeight || d.height == img.height
    ensures d.width == 0 <==> img.naturalWidth == 0 && img.width == 0
    ensures d.height == 0 <==> img.naturalHeight == 0 && img.height == 0
  {
    Dims(if img.naturalWidth != 0 then img.naturalWidth else img.width,
         if img.naturalHeight != 0 then img.naturalHeight else img.height)
  }

  /** `newHeight` is `h * (maxW / w)` to within half a pixel: the height
      scaled by the same ratio as the width. */
  predicate KeepsAspect(newHeight: nat, h: nat, w: nat, maxW: real)
    requires w > 0
  {
    var scaled := h as real * (maxW / w as real);
    scaled - 0.5 < newHeight as real <= scaled + 0.5
  }

  /** The one-time downscale: when a max width is set and the image is wider,
      both dimensions are multiplied by `maxW / w` and rounded, so the width
      becomes `maxW` rounded and the height keeps the aspect ratio to within
      half a pixel; otherwise nothing changes. Neither dimension ever grows. */
  function Downscale(w: nat, h: nat, maxW: Option<real>): (d: Dims)
    requires maxW.Some? ==> maxW.value > 0.0
    ensures !(maxW.Some? && w as real > maxW.value) ==> d == Dims(w, h)
    ensures maxW.Some? && w as real > maxW.value ==>
      d.width == Round(maxW.value) && KeepsAspect(d.height, h, w, maxW.value)
    ensures d.width <= w && d.height <= h
  {
    if maxW.Some? && w as real > maxW.value then
      var r := maxW.value / w as real;
      ScaleByRatio(w, h, maxW.value);
      Dims(Round(w as real * r), ScaledHeight(h, w, maxW.value))
    else
      Dims(w, h)
  }

  /** `Math.round(h * r)` for the downscale ratio `r = maxW / w`. */
  function ScaledHeight(h: nat, w: nat, maxW: real): (nh: nat)
    requires 0.0 < maxW < w as real
    ensures KeepsAspect(nh, h, w, maxW)
    ensures nh <= h
  {
    var r := maxW / w as real;
    ScaleByRatio(w, h, maxW);
    Round(h as real * r)
  }

  /** The ratio `maxW / w` of a downscale: it takes the width to `maxW`
      exactly and the height to somewhere in [0, h]. */
  lemma ScaleByRatio(w: nat, h: nat, maxW: real)
    requires 0.0 < maxW < w as real
    ensures w as real * (maxW / w as real) == maxW
    ensures 0.0 <= h as real * (maxW / w as real) <= h as real
  {
    var r := maxW / w as real;
    assert r < w as real / w as real == 1.0;
    assert h as real * r <= h as real * 1.0;
  }

  /** With a whole-number max width, a wider image ends up exactly that wide. */
  lemma DownscaleToWholeWidth(w: nat, h: nat, maxW: nat)
    requires 0 < maxW < w
    ensures Downscale(w, h, Some(maxW as real)).width == maxW
  {
  }

  /** With a whole-number max width, downscaling twice is downscaling once. */
  lemma DownscaleIdempotent(w: nat, h: nat, maxW: nat)
    requires maxW > 0
    ensures var d := Downscale(w, h, Some(maxW as real));
      Downscale(d.width, d.height, Some(maxW as real)) == d
  {
    if w > maxW {
      DownscaleToWholeWidth(w, h, maxW);
    }
  }

  /** The shrink step on one canvas dimension, `Math.round(x * 0.9)`, in
      integer arithmetic (see `ShrinkDimIsRound`). It never grows and keeps
      a positive dimension positive. */
  function ShrinkDim(x: nat): (y: nat)
    ensures y <= x
    ensures x >= 1 ==> y >= 1
  {
    (9 * x + 5) / 10
  }

  /** The shrink step strictly shrinks every dimension of 6 or more and
      leaves 1 to 5 fixed, so a canvas that small never gets smaller. */
  lemma ShrinkDimFixedPoints(x: nat)
    ensures x >= 6 ==> ShrinkDim(x) < x
    ensures x <= 5 ==> ShrinkDim(x) == x
  {
  }

  /** The integer shrink step is exactly `Math.round(x * 0.9)`. */
  lemma ShrinkDimIsRound(x: nat)
    ensures ShrinkDim(x) == Round(x as real * 0.9)
  {
    var n := (9 * x + 5) / 10;
    assert 10 * n <= 9 * x + 5 < 10 * n + 10;
    assert x as real * 0.9 + 0.5 == (9 * x + 5) as real / 10.0;
    assert n as real <= x as real * 0.9 + 0.5 < n as real + 1.0;
  }

  /** The max width proposed when an image is selected: 1280, 1080 or 720 for
      originals wider than 3000, 2000 or 1000 pixels, else the original width.
      It is never wider than the original, and never wider than 1280 unless
      the original is at most 1000 wide. */
  function AutoWidth(originalWidth: nat): (aw: nat)
    ensures aw <= originalWidth
    ensures aw <= 1280 || aw == originalWidth <= 1000
    ensures originalWidth > 3000 ==> aw == 1280
    ensures 2000 < originalWidth <= 3000 ==> aw == 1080
    ensures 1000 < originalWidth <= 2000 ==> aw == 720
    ensures originalWidth <= 1000 ==> aw == originalWidth
  {
    if originalWidth > 3000 then 1280
    else if originalWidth > 2000 then 1080
    else if originalWidth > 1000 then 720
    else originalWidth
  }

  /** Used as the max width of the downscale, the automatic width is exactly
      the width the image ends up with. */
  lemma AutoWidthIsDownscaledWidth(w: nat, h: nat)
    requires w > 0
    ensures Downscale(w, h, Some(AutoWidth(w) as real)).width == AutoWidth(w)
  {
  }
}
