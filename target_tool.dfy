/** The target-size tool: the file picker's change handler, which keeps the
    selected file, and the start button's click handler, which checks the
    form, downscales once, probes at quality 0.95, bisects the quality and
    falls back to shrinking the canvas. */
module TargetTool {
  import opened Wrappers
  import opened JsNumber
  import opened Limits
  import opened Geometry
  import opened TargetSearch

  const PROBE_QUALITY: real := 0.95

  /** The outcome of a click on the start button, one per message it shows. */
  datatype Outcome =
    | NoFile             // "Please choose an image (Max 20MB)"
    | InvalidTarget      // "Enter valid Target KB"
    | BelowMinimum       // "Minimum target size is 20KB"
    | LoadError          // "Error": the file could not be read or decoded
    | CompressionFailed  // the probe produced no blob
    | TargetTooLow       // nothing fit within the search budget
    | Done(result: Trial)

  /** The check of the target field. */
  datatype TargetCheck = ValidTarget(bytes: real) | NotPositive | UnderMinimum

  /** A target that is not a finite positive number is rejected first, one
      under 20 KB next; otherwise the ceiling is the target times 1024 bytes. */
  function CheckTarget(targetKb: Num): (c: TargetCheck)
    ensures c.NotPositive? <==> !targetKb.Finite? || targetKb.v <= 0.0
    ensures c.UnderMinimum? <==> targetKb.Finite? && 0.0 < targetKb.v < 20.0
    ensures c.ValidTarget? <==> targetKb.Finite? && targetKb.v >= 20.0
    ensures c.ValidTarget? ==> c.bytes == targetKb.v * 1024.0 && c.bytes >= 20480.0
  {
    if !targetKb.Finite? || targetKb.v <= 0.0 then NotPositive
    else if targetKb.v < MIN_TARGET_KB as real then UnderMinimum
    else ValidTarget(targetKb.v * 1024.0)
  }

  /** The max width field: a finite positive number, or no max width at all. */
  function MaxWidthOf(mw: Num): (m: Option<real>)
    ensures m.Some? <==> mw.Finite? && mw.v > 0.0
    ensures m.Some? ==> m.value == mw.v
  {
    if mw.Finite? && mw.v > 0.0 then Some(mw.v) else None
  }

  /** `formatEl.value || "image/jpeg"`: an empty choice means JPEG. */
  function ChosenMime(format: string): (mime: string)
    ensures format == "" ==> mime == "image/jpeg"
    ensures format != "" ==> mime == format
    ensures mime != ""
  {
    if format == "" then "image/jpeg" else format
  }

  /** The canvas the image is first drawn on: its size downscaled to the max width. */
  function InitialCanvas(img: Image, maxW: Option<real>): (c: Canvas)
    requires maxW.Some? ==> maxW.value > 0.0
    ensures c.passes == 0
    ensures c.width <= SourceDims(img).width && c.height <= SourceDims(img).height
    ensures !(maxW.Some? && SourceDims(img).width as real > maxW.value) ==>
      c.width == SourceDims(img).width && c.height == SourceDims(img).height
    ensures maxW.Some? && SourceDims(img).width as real > maxW.value ==>
      c.width == Round(maxW.value) &&
      KeepsAspect(c.height, SourceDims(img).height, SourceDims(img).width, maxW.value)
  {
    var d := SourceDims(img);
    var s := Downscale(d.width, d.height, maxW);
    Canvas(s.width, s.height, 0)
  }

  /** A 4000×3000 photo with a max width of 1280 is first drawn at 1280×960. */
  lemma InitialCanvasLandscapeExample()
    ensures InitialCanvas(Image(4000, 3000, 4000, 3000), Some(1280.0)) == Canvas(1280, 960, 0)
  {
  }

  /** The target-size tool; `selectedFile` is the closure variable its two
      handlers share. */
  class TargetKbTool {
    var selectedFile: Option<FileInfo>

    /** The tool never holds a file over the 20 MB limit. */
    ghost predicate Valid()
      reads this
    {
      !IsOverLimit(selectedFile)
    }

    constructor ()
      ensures Valid() && selectedFile == None
    {
      selectedFile := None;
    }

    /** The change handler of the file picker: a file over the limit is
        dropped, any other choice (including none) becomes the selection. */
    method SelectFile(chosen: Option<FileInfo>)
      modifies this
      ensures Valid()
      ensures selectedFile == if IsOverLimit(chosen) then None else chosen
    {
      selectedFile := chosen;
      if IsOverLimit(selectedFile) {
        selectedFile := None;
      }
    }

    /** The click handler of the start button. `image` is the decoded file
        (`None` when reading or decoding it fails) and `encoderFor` gives the
        codec for a MIME type. The encodes made are returned in three parts:
        the probe, the quality bisection and the shrink fallback. */
    method Start(targetKb: Num, format: string, maxWidth: Num, image: Option<Image>,
                 encoderFor: string -> Codec)
      returns (outcome: Outcome, probe: seq<Trial>, search: seq<Trial>, shrink: seq<Trial>)
      // Never more than 1 + 12 + 6 encodes.
      ensures |probe| <= 1 && |probe| + |search| + |shrink| <= 19
      // A result is only ever a blob within the target, from one of the encodes.
      ensures outcome.Done? ==>
        CheckTarget(targetKb).ValidTarget? &&
        Fits(outcome.result, CheckTarget(targetKb).bytes) &&
        outcome.result in probe + search + shrink
      // The guards, in the order the handler applies them, before any encode.
      ensures outcome.NoFile? <==> selectedFile.None?
      ensures outcome.InvalidTarget? <==> selectedFile.Some? && CheckTarget(targetKb).NotPositive?
      ensures outcome.BelowMinimum? <==> selectedFile.Some? && CheckTarget(targetKb).UnderMinimum?
      ensures outcome.LoadError? <==> selectedFile.Some? && CheckTarget(targetKb).ValidTarget? && image.None?
      ensures probe == [] <==> outcome.NoFile? || outcome.InvalidTarget? || outcome.BelowMinimum? || outcome.LoadError?
      ensures probe == [] ==> search == [] && shrink == []
      ensures probe != [] ==>
        CheckTarget(targetKb).ValidTarget? && image.Some? &&
        var targetBytes := CheckTarget(targetKb).bytes;
        var codec := encoderFor(ChosenMime(format));
        var canvas := InitialCanvas(image.value, MaxWidthOf(maxWidth));
        // The probe: one encode of the downscaled canvas at quality 0.95.
        probe == [Trial(canvas, PROBE_QUALITY, codec(canvas, PROBE_QUALITY))] &&
        // A failed probe ends the run.
        (probe[0].size.None? ==> outcome == CompressionFailed && search == [] && shrink == []) &&
        // A probe that fits is the result, with no search and no shrinking.
        (Fits(probe[0], targetBytes) ==> outcome == Done(probe[0]) && search == [] && shrink == []) &&
        // Otherwise a full bisection on the same canvas ...
        (Oversized(probe[0], targetBytes) ==>
          IsCompleteBisection(search, canvas, targetBytes) && Recorded(codec, search) &&
          // ... whose best blob is the result, without shrinking,
          (BestOf(search, targetBytes).Some? ==>
            outcome == Done(BestOf(search, targetBytes).value) && shrink == []) &&
          // ... or, when nothing fit, the fallback, whose first fit is the result.
          (BestOf(search, targetBytes).None? ==>
            IsShrinkRun(shrink, canvas, targetBytes) && Recorded(codec, shrink) &&
            outcome == (if Fits(shrink[|shrink| - 1], targetBytes) then Done(shrink[|shrink| - 1])
                        else TargetTooLow)))
    {
      probe, search, shrink := [], [], [];
      if selectedFile.None? {
        return NoFile, probe, search, shrink;
      }
      var check := CheckTarget(targetKb);
      if check.NotPositive? {
        return InvalidTarget, probe, search, shrink;
      }
      if check.UnderMinimum? {
        return BelowMinimum, probe, search, shrink;
      }
      var mime := ChosenMime(format);
      var maxW := MaxWidthOf(maxWidth);
      if image.None? {
        return LoadError, probe, search, shrink;
      }
      var codec := encoderFor(mime);
      var canvas := InitialCanvas(image.value, maxW);
      var targetBytes := check.bytes;

      var best: Option<Trial> := None;
      var first := codec(canvas, PROBE_QUALITY);
      probe := [Trial(canvas, PROBE_QUALITY, first)];
      if first.None? {
        return CompressionFailed, probe, search, shrink;
      }
      if first.value as real <= targetBytes {
        best := Some(probe[0]);
      } else {
        best, search := QualitySearch(codec, canvas, targetBytes);
        if best.None? {
          var fallback;
          fallback, shrink := ShrinkFallback(codec, canvas, targetBytes);
          if fallback.Some? {
            best := fallback;
            canvas := fallback.value.canvas;
          }
        }
      }
      if best.None? {
        return TargetTooLow, probe, search, shrink;
      }
      outcome := Done(best.value);
    }
  }
}
