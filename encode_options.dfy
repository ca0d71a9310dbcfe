/** The per-tool encoding choices of app.js: the quality of the plain
    compressor and the file extension each tool gives its download. */
module EncodeOptions {
  import opened JsNumber

  /** `Math.min`/`Math.max` on the quality, where an infinity may occur. */
  function MinMaxClamp(x: Num): real
    requires !x.NaN?
  {
    match x
    case Finite(v) => if v < 0.01 then 0.01 else if v > 0.95 then 0.95 else v
    case Infinity(negative) => if negative then 0.01 else 0.95
  }

  /** The quality of the plain compressor: the percentage field divided by
      100, or 0.75 when that is falsy (`NaN` or zero), then clamped into
      [0.01, 0.95]. */
  function ClampQuality(percent: Num): (q: real)
    ensures 0.01 <= q <= 0.95
    ensures percent.NaN? || percent == Finite(0.0) ==> q == 0.75
    ensures percent.Finite? && 1.0 <= percent.v <= 95.0 ==> q * 100.0 == percent.v
    ensures percent.Finite? && percent.v != 0.0 && percent.v < 1.0 ==> q == 0.01
    ensures percent.Finite? && percent.v > 95.0 ==> q == 0.95
    ensures percent.Infinity? ==> q == (if percent.negative then 0.01 else 0.95)
  {
    match percent
    case NaN => 0.75
    case Finite(v) => if v / 100.0 == 0.0 then 0.75 else MinMaxClamp(Finite(v / 100.0))
    case Infinity(negative) => MinMaxClamp(percent)
  }

  /** A quality the clamp produced, entered again as a percentage, is kept as is. */
  lemma ClampQualityIdempotent(percent: Num)
    ensures ClampQuality(Finite(ClampQuality(percent) * 100.0)) == ClampQuality(percent)
  {
  }

  /** The extension of the compressor and the target-size tool: "webp" for
      WebP output, "jpg" for every other MIME type. */
  function LossyExtension(mime: string): (ext: string)
    ensures ext == "webp" <==> mime == "image/webp"
    ensures ext != "webp" ==> ext == "jpg"
  {
    if mime == "image/webp" then "webp" else "jpg"
  }

  /** The extension of the converter and the resizer: "png", "webp", or "jpg"
      for every other MIME type. */
  function FormatExtension(mime: string): (ext: string)
    ensures ext == "png" <==> mime == "image/png"
    ensures ext == "webp" <==> mime == "image/webp"
    ensures ext != "png" && ext != "webp" ==> ext == "jpg"
  {
    if mime == "image/png" then "png" else if mime == "image/webp" then "webp" else "jpg"
  }

  /** The two extension choices agree on every MIME type but PNG, which the
      compressor and the target-size tool name ".jpg". */
  lemma ExtensionsDifferOnlyOnPng(mime: string)
    ensures LossyExtension(mime) == FormatExtension(mime) <==> mime != "image/png"
  {
  }
}
