# Target-size image encoder: a Dafny model

This project models the browser image tool in `app.js`. Its core is the
target-KB tool. The user picks an image and a target size in kilobytes, and
optionally a max width and an output MIME type. The tool looks for an
encoding no larger than the target:

- it downscales the image once to the max width;
- it probes at quality 0.95;
- it bisects the quality over [0.05, 0.95] for 12 steps;
- if nothing fit, it shrinks the canvas by ×0.9 up to six times and encodes each canvas at quality 0.7.

The model also covers the small pure helpers of the same file: the 20 MB file
limit, the byte-to-KB conversion, the quality clamp of the plain compressor,
the download extensions, and the automatic max width.

The codec is not modelled. `canvasToBlob` becomes an injected oracle,
`Codec = (Canvas, real) -> Option<nat>`. It returns the byte size of the
blob, or `None` when `toBlob` gives no blob. `encoderFor: string -> Codec`
picks the oracle for the chosen MIME type. Qualities are exact `real`s, so
the midpoint arithmetic is exact. A form field read with `Number(...)` is a
`Num`: a finite real, `NaN` or an infinity.

Modules, one per part of `app.js`:

- `Wrappers`: `Option`.
- `JsNumber`: `Num`, and `Math.round` as `Round`.
- `Limits`: the global limits, `isOverLimit`, `bytesToKB`.
- `EncodeOptions`: the quality clamp of the compressor and the extension ternaries.
- `Geometry`: the source dimensions, the one-time downscale, the ×0.9 shrink step and the auto width.
- `TargetSearch`: the quality bisection and the shrink fallback. Each is a method with loop invariants. Each method is proved against a predicate on the trials it makes (`IsCompleteBisection`, `IsShrinkRun`). Lemmas about those predicates state what the search guarantees.
- `TargetTool`: the guards of the click handler, and the class `TargetKbTool`. That class holds the closure variable `selectedFile` and models both handlers.

Every method returns the encodes it made as a sequence of `Trial`s. `Recorded`
states that each trial holds what the codec answered. This sequence gives
the trial bound (at most 1 + 12 + 6 = 19).

A `Canvas` records its dimensions and how many times it was redrawn from the
previous canvas. Each fallback canvas is drawn from the last one, not from
the image, so two canvases of the same size need not hold the same pixels.

Behaviour of `app.js` that the model keeps as written:

- PNG is not special-cased. The probe and the bisection run for PNG too, and the codec may ignore the quality.
- Only a failed probe reports "Compression failed". A failed encode in the bisection only ends the loop. In the fallback, a failed encode counts as a miss.
- On failure, no best-effort candidate is reported.
- Successive values of `best` rise in quality. They rise in size only when the codec is monotone in quality, which `app.js` never checks (see `BestIsLargestFitWhenMonotone`).

Observations the lemmas make precise:

- The compressor and the target tool name every non-WebP output ".jpg", PNG included (`ExtensionsDifferOnlyOnPng`).
- Dimensions of 1 to 5 pixels are fixed points of the ×0.9 shrink (`ShrinkDimFixedPoints`). The fallback then re-encodes the same size.
- The auto-width handler writes its choice into the element `maxWidth`. The target tool reads `tkMaxWidth`. `AutoWidthIsDownscaledWidth` states what would happen if the auto width were used as the max width.

## Model

| member | source | states |
|---|---|---|
| `JsNumber.Round` | app.js:220-221 | `Math.round` gives the integer within half of its argument, halves rounded up |
| `Limits.IsOverLimit` | app.js:6-8 | a missing file is never over the limit; a present file is over it exactly when it is larger than 20 MiB |
| `Limits.BytesToKB` | app.js:11 | the KB value times 1024 is the byte count again |
| `EncodeOptions.ClampQuality` | app.js:72 | the compressor's quality always lies in [0.01, 0.95]; `NaN` or 0 gives 0.75; a percentage in [1, 95] is kept as that fraction; smaller or larger inputs, and the infinities, go to the nearer bound |
| `EncodeOptions.ClampQualityIdempotent` | app.js:72 | entering a clamped quality again as a percentage gives the same quality |
| `EncodeOptions.LossyExtension` | app.js:270 | the compressor and target-tool extension is "webp" exactly for WebP output, otherwise "jpg" |
| `EncodeOptions.FormatExtension` | app.js:114 | the converter and resizer extension is "png" exactly for PNG, "webp" exactly for WebP, otherwise "jpg" |
| `EncodeOptions.ExtensionsDifferOnlyOnPng` | app.js:86 | the two extension choices agree on every MIME type except PNG |
| `Geometry.SourceDims` | app.js:216-217 | the natural width and height are used whenever they are non-zero, else the layout ones; a dimension is zero exactly when both sources of it are zero |
| `Geometry.Downscale` | app.js:218-222 | when a max width is set and the image is wider, the width becomes the rounded max width and the height keeps the ratio to within half a pixel; otherwise both stay; neither ever grows |
| `Geometry.ScaledHeight` | app.js:221 | the rounded height `h * maxW / w` is within half a pixel of the height scaled by the width's ratio, and no larger than `h` |
| `Geometry.DownscaleToWholeWidth` | app.js:218-222 | with a whole-number max width, a wider image ends up exactly that wide |
| `Geometry.DownscaleIdempotent` | app.js:218-222 | with a whole-number max width, downscaling a second time changes nothing |
| `Geometry.ShrinkDim` | app.js:252-253 | the shrink step never makes a dimension larger, and a dimension of 1 or more stays 1 or more |
| `Geometry.ShrinkDimIsRound` | app.js:252-253 | the integer step `(9x+5) div 10` is exactly `Math.round(x * 0.9)` |
| `Geometry.ShrinkDimFixedPoints` | app.js:252-253 | the step strictly shrinks every dimension of 6 or more and leaves 1 to 5 unchanged |
| `Geometry.AutoWidth` | app.js:299-310 | the auto width is 1280, 1080 or 720 above 3000, 2000 or 1000 pixels, else the original width; it is never above the original |
| `Geometry.AutoWidthIsDownscaledWidth` | app.js:299-310 | used as the max width, the auto width is exactly the width the downscale produces |
| `TargetSearch.LastFit` | app.js:242 | the index of the last trial that fit, with no fitting trial after it, or -1 |
| `TargetSearch.QualitySearch` | app.js:237-244 | the 12-step loop makes a finished bisection on one canvas, records each codec answer, and returns as `best` the last trial that fit |
| `TargetSearch.AppendBisection` | app.js:238-243 | an encode at the next midpoint keeps the bisection; `low` moves to it when it fits, `high` when it is too large, and `best` becomes it when it fits |
| `TargetSearch.WindowInvariant` | app.js:228-243 | after any number of steps, 0.05 ≤ `low` < `high` ≤ 0.95 |
| `TargetSearch.QualityInsideWindow` | app.js:238 | each `mid` lies strictly between the current `low` and `high`, so strictly inside (0.05, 0.95) |
| `TargetSearch.WindowNarrows` | app.js:242-243 | `low` never falls and `high` never rises |
| `TargetSearch.BisectionOrder` | app.js:237-244 | every encode after a fitting one uses a strictly higher quality, and every encode after an oversized one a strictly lower quality; so each accepted quality exceeds the previous one |
| `TargetSearch.BestIsHighestFit` | app.js:242 | `best` exists exactly when some trial fit, is one of the trials, fits, and has the highest quality among the fitting trials |
| `TargetSearch.BestIsLargestFitWhenMonotone` | app.js:237-244 | if the codec is monotone in quality, `best` is also the largest fitting blob of the search |
| `TargetSearch.BisectionDeterministic` | app.js:237-244 | with a deterministic codec, two finished bisections on the same canvas and target are identical |
| `TargetSearch.Step` | app.js:252-257 | a shrink step never enlarges the canvas and counts one more redraw |
| `TargetSearch.ShrunkNarrows` | app.js:251-257 | more shrink steps never give a larger canvas, and a canvas at least 1×1 stays so |
| `TargetSearch.ShrinkFallback` | app.js:247-262 | the fallback makes 1 to 6 encodes, the k-th on the canvas shrunk k+1 times at quality 0.7; it stops early only at a fit; `best` is that first fit or nothing |
| `TargetSearch.ShrinkRunStopsAtFirstFit` | app.js:251-261 | in the fallback the canvases never grow, stay at least 1×1, and only the last trial can fit |
| `TargetSearch.ShrinkDeterministic` | app.js:251-261 | with a deterministic codec, the fallback always makes the same trials |
| `TargetTool.CheckTarget` | app.js:202-204 | a non-finite or non-positive target is rejected first, a target under 20 KB next; otherwise the ceiling is target × 1024 bytes (line 225), at least 20480 |
| `TargetTool.MaxWidthOf` | app.js:207-208 | the max width is set exactly when the field is a finite positive number, and then equals it |
| `TargetTool.ChosenMime` | app.js:206 | an empty format choice gives "image/jpeg"; any other choice is kept; the result is never empty |
| `TargetTool.InitialCanvas` | app.js:216-223 | the first canvas, drawn from the image, has the source size when no max width applies; when the source is wider than the max width, its width is the rounded max width and its height the scaled height to within half a pixel; it is never larger than the source |
| `TargetTool.InitialCanvasLandscapeExample` | app.js:216-223 | a 4000×3000 image with max width 1280 is first drawn at 1280×960 |
| `TargetTool.TargetKbTool.constructor` | app.js:166 | the tool starts with no file selected |
| `TargetTool.TargetKbTool.SelectFile` | app.js:177-196 | a chosen file over 20 MB is dropped, any other choice becomes the selection; the tool never holds an oversized file |
| `TargetTool.TargetKbTool.Start` | app.js:198-283 | the guards reject before any encode, in the handler's order; the probe is one encode at 0.95 of the downscaled canvas; a failed probe stops; a fitting probe is the result with no further encodes; otherwise a full bisection, then the fallback only if nothing fit; at most 19 encodes; a result is always one of the encodes and never exceeds the target |

## Left out

- All DOM access and status text: `setText`, `setResult`, `hideOutput`, the info line, the preview and the download link (app.js:13-16, 168-175, 267-279). The model returns an `Outcome` per message instead.
- Browser I/O: `FileReader`, `Image` loading, object URLs and `downloadBlob`. Reading and decoding become the `image` parameter of `Start`, which is `None` when they fail.
- Pixel rendering and `toBlob` compression (app.js:47-60, 254-256). They become the `Codec` oracle. Nothing about the codec is assumed, except in `BestIsLargestFitWhenMonotone`, which takes monotonicity as a premise.
- IEEE-754 arithmetic. Qualities and ratios are exact reals, and `Number(...)` parsing is the given `Num`. `Math.round(x*0.9)` is exact rounding, which is `(9x+5) div 10` for a whole dimension.
- The `async`/`await` sequencing. The encodes are strictly sequential, so they are ordinary calls.
- The bodies of `compressImage`, `convertImage` and `resizeImage` (app.js:63-150). They are glue; only their quality clamp and extension choices are modelled. Their other guards and the fixed 0.92 quality of the converter are not modelled.
- The `catch` of the click handler. Only a failed read or decode is modelled, as `LoadError`.
- The auto-width handler's image loading and its write to the page (app.js:287-318). Only the width tiering is modelled.
- The MIME type reaches the codec only through `encoderFor`. The extension of the download (app.js:270) is not part of the outcome.
