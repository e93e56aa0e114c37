# depth-flow core, modelled in Dafny

depth-flow turns a still image and its depth map into a small parallax
animation. In the multilayer mode it cuts the depth map into layers. It
builds a 256-bucket histogram of the depth values. It picks division
points at the valleys of the smoothed histogram, or at equal-mass
percentiles when there are no valleys. Each percentile point is snapped to
the nearest valley, and points that hold too little pixel mass are
dropped. The points become `(lower, upper)` bounds, one pair per layer,
listed from the nearest layer to the farthest. For each layer the depth map
is clipped at the layer's upper bound. It is also masked at the layer's
lower bound, and the results are packed into the colour channels of one
buffer. A flow, whether simple or multilayer, is saved as a zip archive
with a `depth-flow.json` manifest and loaded back from one.

The project models:

- the hand-written pixel loops of the image helpers:
  - clone, invert and channel copy;
  - the size check of alpha blending;
  - the separable max/min dilation;
- the division pipeline;
- the clipping, masking and merging of a layer;
- the save and load of a flow archive;
- the depth model's input-size rule;
- the renderer's zoom scale and frame-time counter;
- the model-cache bookkeeping;
- the `lazy` memoiser.

Modelling conventions:

- **Pixel buffers.** An RGBA buffer is an `Image` whose pixels are four
  bytes each. `ImageData` guarantees there are `width * height` of them.
  `Sample(img, p, c)` is `data[4 * p + c]`.
- **Errors.** A thrown `Error` becomes `Err(message)`, with the source's
  message.
- **Numbers.** JavaScript numbers are exact integers or reals.
  `Math.round` is `floor(x + 0.5)`. A `NaN` result is `None`.
- **Sorting.** `Array.prototype.sort` with a numeric comparator is a
  stable insertion sort, since ES2019 requires stability.
  `slice(0, end)` counts a negative `end` from the back.
- **In-place writes.** `writeImageDataChannel` writes into its target
  buffer in place. The model returns the written buffer instead, and the
  caller uses that buffer where the source goes on using the target. The
  source and target channels always differ there, so this is the same
  result.
- **Inputs from outside.** `Math.random()`, the canvas blur, the JSON
  text of the manifest, the cache listing and the download failures are
  parameters of the operations that use them.
- **State.** Module-level and closure state (`anyDownloading`, the
  `lazy` closure, the frame counter) is modelled as a pure state machine:
  each call maps the old state to the new one. `downloadAllModels` is
  modelled twice. `ModelCache.DownloadAllModels` is one whole call, from
  its flag check to its `finally`. `ModelCache.Replay` runs calls that
  interleave at their awaits: each call becomes a `Start` event (the flag
  check and set) and, when accepted, a later `Settle` event (the
  `finally`), and other calls' events can fall between the two.

Modules: `Wrappers`, `JsNumber`, `Arith`, `Sorting`, `ImageUtils`,
`Dilation`, `Division`, `Clip`, `FlowFile`, `DepthModel`,
`RendererCommon`, `ModelCache` and `Lazy`. There is one file per module.

Three details of the division code that the model keeps exactly:

- **Mass filter range.** The mass filter sums the buckets from the
  previously kept point through the candidate point, both included.
- **Percentile threshold.** The percentile threshold is
  `(total / numLayers) * (k + 1)` in real arithmetic, with no rounding up.
  The model multiplies it out as `cumulative * numLayers >= total * (k + 1)`.
- **Jitter.** The jitter added to each bucket is `Math.random() / 100`,
  a separate random value for every bucket.

## Model

| member | source | states |
|---|---|---|
| ImageUtils.CloneImageData | src/depth-flow/image/utils.ts:66-71 | the copy has the original's width and height and the same value in every channel of every pixel |
| ImageUtils.InvertImageData | src/depth-flow/image/utils.ts:194-206 | every R, G and B sample becomes 255 minus the original, alpha is copied, the size is kept |
| ImageUtils.InvertInvolution | src/depth-flow/image/utils.ts:194-206 | inverting twice gives back the original buffer exactly |
| ImageUtils.IndexOf | src/depth-flow/image/utils.ts:175-176 | `indexOf` returns the first position where the needle occurs, or -1 exactly when it occurs nowhere |
| ImageUtils.ChannelNames | src/depth-flow/image/utils.ts:175-176 | the names "r", "g", "b", "a" select channels 0, 1, 2, 3 of `"rgba"` |
| ImageUtils.WriteImageDataChannel | src/depth-flow/image/utils.ts:167-191 | fails with the size message when the sizes differ, else with the channel message when a name is not a channel, and succeeds exactly otherwise; on success the target channel of every pixel holds the source channel of the same pixel and every other sample is unchanged |
| ImageUtils.WriteChannelOntoItself | src/depth-flow/image/utils.ts:167-191 | copying a channel of a buffer onto the same channel of that buffer changes nothing |
| ImageUtils.AlphaBlendSizeCheck | src/depth-flow/image/utils.ts:209-214 | blending proceeds exactly when every front has the back's width and height, and otherwise fails with the dimensions message |
| Dilation.ApplyIsExtreme | src/depth-flow/image/utils.ts:100-101 | `maxFilter`/`minFilter` return one of their arguments, the one at least as large (small) as the other |
| Dilation.LineFoldExtreme | src/depth-flow/image/utils.ts:115-126 | the inner loop's result dominates its start value and every in-range neighbour, and is one of them |
| Dilation.FoldSample | src/depth-flow/image/utils.ts:115-126 | the loop over offsets `-r..r` computes the fold of the sample with its in-range neighbours along one axis |
| Dilation.RunPass | src/depth-flow/image/utils.ts:111-147 | the nested pixel/channel loops of one pass compute the horizontal (vertical) pass at every sample |
| Dilation.DilateWindow | src/depth-flow/image/utils.ts:103-151 | each output sample is the maximum (minimum) of the same channel over the `(2r+1)`-square window around its pixel, clipped to the image: it dominates every sample in the window and equals one of them |
| Dilation.DilateExtensive | src/depth-flow/image/utils.ts:103-151 | dilation with `maxFilter` never lowers a sample, with `minFilter` never raises one |
| Dilation.DilateIdentity | src/depth-flow/image/utils.ts:103-151 | a radius of zero or less leaves the buffer unchanged |
| Dilation.DilateImageData | src/depth-flow/image/utils.ts:103-151 | the two-pass loops with `Math.round(radius)` compute the window dilation, keep the size, and are the identity when the rounded radius is not positive |
| Division.DepthMapHistogram | src/depth-flow/multilayer/division.ts:3-12 | bucket `v` counts the pixels whose R sample is `v`, and the buckets add up to the number of pixels |
| Division.PercentileBasedDivision | src/depth-flow/multilayer/division.ts:14-31 | the points are strictly increasing buckets, at most `numLayers - 1` of them (none for one layer or fewer); the `k`-th point is the first bucket after the previous point whose cumulative mass reaches `k + 1` shares of `total / numLayers`, and when fewer points than wanted are emitted no later bucket reaches the next share |
| Division.PercentileCompletes | src/depth-flow/multilayer/division.ts:14-31 | with two or more layers at least one point is emitted, and either all `numLayers - 1` are emitted or the last one is bucket 255 |
| Division.WindowSum | src/depth-flow/multilayer/division.ts:41-48 | the inner smoothing loop returns the total of the buckets `left..right` and their number |
| Division.SmoothHistogram | src/depth-flow/multilayer/division.ts:36-50 | bucket `i` of the smoothed histogram is the mean over the window `max(0, i-8)..min(255, i+8)` plus its jitter divided by 100 |
| Division.ValleyScan | src/depth-flow/multilayer/division.ts:56-61 | the collected valleys are exactly the inner buckets below the average and strictly below both neighbours, each once, in increasing order, each with its smoothed value |
| Division.PickValleys | src/depth-flow/multilayer/division.ts:63-68 | the picked points are strictly increasing valleys, at most `numLayers - 1`; every valley left out is at least as deep as every one picked; when fewer than `numLayers - 1` are picked all valleys are; with two or more layers none are picked exactly when there is no valley |
| Division.ValleyBasedDivision | src/depth-flow/multilayer/division.ts:36-71 | the result is strictly increasing buckets, at most `numLayers - 1`, never empty for two or more layers; with no valley it is the percentile division, otherwise it is exactly `PickValleys` of the smoothed histogram: the deepest inner valleys, at most `numLayers - 1`, all of them when there are fewer, in ascending bucket order |
| Division.Dedupe | src/depth-flow/multilayer/division.ts:79 | `[...new Set(points)]` holds each input value exactly once |
| Division.FilterFrom | src/depth-flow/multilayer/division.ts:81-97 | the kept points are a strictly increasing subset of the candidates, and a candidate is kept exactly when the mass from the last kept point below it (or the start value) through it is at least a tenth of the total |
| Division.FilterDivisionPoints | src/depth-flow/multilayer/division.ts:75-98 | the result is strictly increasing, contains only input points, and an input point is in it exactly when the mass from the previous kept point (or 0) through it is at least a tenth of all pixels |
| Division.NearestIndex | src/depth-flow/multilayer/division.ts:113-117 | the index found is at minimal absolute distance from the point, and every earlier index is strictly farther (first on ties) |
| Division.SnapToValleys | src/depth-flow/multilayer/division.ts:113-118 | each point is replaced by a valley point no farther from it than any other valley point, and among equally near valley points by the first one |
| Division.SnapAndFilter | src/depth-flow/multilayer/division.ts:113-122 | the final points are strictly increasing buckets drawn from the percentile points snapped to their nearest valley; a snapped point is kept exactly when the buckets from the previously kept point (or 0) through it hold at least a tenth of all pixels; the result is inner when the valley points are |
| Division.MultilayerDepthMapDivisions | src/depth-flow/multilayer/division.ts:102-124 | returns the depth histogram and the five-layer percentile points snapped to the twelve-layer valley division and then mass-filtered; the points are strictly increasing, all valley points, and inner whenever that division is |
| Clip.GetBoundsForDivisions | src/depth-flow/multilayer/clip.ts:4-19 | fails with the "at least one" message on no points, else with the range message when a point is outside 1..254, and succeeds exactly otherwise; on success there is one layer more than points, the first layer ends at 255 and the last starts at 0, each layer starts where the next one ends, every layer has lower at most upper, and the upper ends are exactly the points plus 255 while the lower ends are exactly 0 plus the points |
| Clip.ReverseMultiset | src/depth-flow/multilayer/clip.ts:18 | reversing keeps the same elements with the same multiplicities |
| Clip.ClipDepthMapWithUpperBound | src/depth-flow/multilayer/clip.ts:22-51 | every clipped pixel is grey at the depth capped at the bound, opaque; every mask pixel is opaque and white exactly where the depth exceeds the bound, black elsewhere |
| Clip.GetDepthMapMaskByLowerBound | src/depth-flow/multilayer/clip.ts:72-94 | every mask pixel is opaque and white exactly where the depth is at least the bound, black elsewhere |
| Clip.UpperMaskIsLowerMaskAbove | src/depth-flow/multilayer/clip.ts:22-94 | the inpainting mask above bound `b` is the same buffer as the display mask at lower bound `b + 1` |
| Clip.SharedBoundOverlap | src/depth-flow/multilayer/clip.ts:22-94 | two layers sharing bound `b` both claim exactly the pixels at depth `b`, and every pixel is claimed by at least one of them: shown at lower bound `b`, or not masked above `b` |
| Clip.ClipIdempotent | src/depth-flow/multilayer/clip.ts:22-51 | clipping an already clipped map at the same bound returns it unchanged and masks no pixel |
| Clip.PostprocessAndMerge | src/depth-flow/multilayer/clip.ts:97-107 | fails with the size message when the blurred lower mask or the unblurred upper mask differs in size from the blurred dilated depth map; otherwise R and A come from the max-dilated, blurred depth map, G from the blurred lower mask's R and B from the upper mask's R |
| FlowFile.GetBlobName | src/depth-flow/flow-file.ts:117-122 | a `File` keeps its own name, any other blob gets the fallback |
| FlowFile.LayerKeysDistinct | src/depth-flow/flow-file.ts:70-73 | the `layer-N.png` and `layer-N-depth-map.png` names of a saved flow are all different |
| FlowFile.LayerKeysNotFixed | src/depth-flow/flow-file.ts:63-73 | no layer name equals `depth-map.png`, `depth-flow.json` or `image.png` |
| FlowFile.ManifestFor | src/depth-flow/flow-file.ts:58-88 | the manifest names the original image by its file name or `image.png` and the depth map `depth-map.png`, copies width, height, `processedBy` and `processArgs`, and is multilayer exactly when the flow is; a multilayer manifest copies `inpaintLayers`, carries the division points as `inpaintBreakpoints`, and names layer `k` `layer-(k+1).png` and `layer-(k+1)-depth-map.png`, one entry per layer |
| FlowFile.AddLayersContents | src/depth-flow/flow-file.ts:98-103 | with distinct names every layer image and depth map is stored under its own name |
| FlowFile.SaveFlowZip | src/depth-flow/flow-file.ts:56-106 | the archive holds exactly the manifest entry and the entries the manifest names |
| FlowFile.SaveFixedEntries | src/depth-flow/flow-file.ts:92-105 | the manifest and the depth map are always stored as written, since no later entry can take their names |
| FlowFile.ImageNamedLikeDepthMap | src/depth-flow/flow-file.ts:92-96 | an original image whose file name is `depth-map.png` is overwritten by the depth map in the archive |
| FlowFile.EnsureBlob | src/depth-flow/flow-file.ts:111-115 | succeeds exactly when the key is an entry, with that entry's bytes as a plain blob, and otherwise fails naming the key |
| FlowFile.LoadLayers | src/depth-flow/flow-file.ts:28-31 | fails naming the first missing layer entry (image before depth map, layer by layer); otherwise yields one layer per manifest layer, each read from the entries it names |
| FlowFile.LoadFlowZip | src/depth-flow/flow-file.ts:8-53 | fails on a missing manifest, then on an unreadable one, then naming the first missing entry the manifest refers to; otherwise the flow is what the manifest describes, every blob read from the entry it names |
| FlowFile.SaveLoadRoundTrip | src/depth-flow/flow-file.ts:8-106 | loading a saved flow gives back the same flow, blobs without file names, provided the JSON text written for this flow's manifest reads back as that manifest and the image's file name collides with no other entry |
| JsNumber.Round | src/depth-flow/image/utils.ts:104 | `Math.round(x)` is the integer at most half a unit above `x` and strictly less than half a unit below it, so halves round up |
| JsNumber.ParseDecimalRoundTrip | src/depth-flow/flow-file.ts:71-72 | the decimal text of a number is all digits and reads back as the number |
| JsNumber.DecimalInjective | src/depth-flow/flow-file.ts:71-72 | different layer numbers have different decimal texts |
| Sorting.SortBy | src/depth-flow/multilayer/division.ts:63 | the sort returns a permutation of its input ordered by the key |
| Sorting.SortDistinct | src/depth-flow/multilayer/division.ts:79 | sorting numbers without repeats gives a strictly increasing sequence of the same values |
| DepthModel.EnsureMultipleOf | src/depth-flow/models/depth.ts:35-37 | the result is a multiple of `n` within `n/2` of `x` (at most `n/2` above, strictly less below) |
| DepthModel.EnsureMultipleOfIsNearest | src/depth-flow/models/depth.ts:35-37 | no multiple of `n` is nearer to `x` than the result |
| DepthModel.TargetSize | src/depth-flow/models/depth.ts:40-58 | a portrait image is scaled to width 518 and a height that is a multiple of 14, at least 518 and within 7 of the proportional height; any other image to height 518 and a width with the same properties |
| DepthModel.SquareTarget | src/depth-flow/models/depth.ts:40-58 | a square image is scaled to 518 by 518 |
| RendererCommon.CalculateZoomScale | src/depth-flow/renderer/common.ts:104-118 | when the camera is relatively wider the horizontal scale is the boundary, else the vertical one; the horizontal scale is the vertical one times the ratio of aspect ratios; with a positive boundary both lie in `(0, boundary]` |
| RendererCommon.ZoomScaleInvariant | src/depth-flow/renderer/common.ts:104-118 | the zoom scale depends only on the two aspect ratios: scaling the camera or the image size changes nothing |
| RendererCommon.DefaultBoundaryFits | src/depth-flow/renderer/common.ts:104 | with the default boundary 0.8 neither scale exceeds 0.8 and one of them equals it |
| RendererCommon.Render | src/depth-flow/renderer/common.ts:89-92 | a render adds its time to the total and one to the count |
| RendererCommon.Reset | src/depth-flow/renderer/common.ts:93-96 | a reset returns the counter to its initial state |
| RendererCommon.AverageTime | src/depth-flow/renderer/common.ts:99 | the average is undefined (`NaN`) exactly when nothing was rendered, and otherwise times the count gives the total |
| RendererCommon.RunCounts | src/depth-flow/renderer/common.ts:84-101 | after any sequence of calls the counter holds the number and total time of the frames rendered since the last reset, and the average is their mean |
| ModelCache.CheckAllModelsCached | src/depth-flow/models/cache.ts:16-19 | true exactly when both the depth and the inpainting model URL are cache keys |
| ModelCache.MissingModels | src/depth-flow/models/cache.ts:39-40 | a URL is to be downloaded exactly when it is a model URL that is not a cache key |
| ModelCache.MissingInOrder | src/depth-flow/models/cache.ts:10-40 | the missing models keep the order of the model list: depth model before inpainting model |
| ModelCache.CachedIffNothingMissing | src/depth-flow/models/cache.ts:16-40 | all models are cached exactly when no model is missing |
| ModelCache.GetModelFileName | src/depth-flow/models/cache.ts:22-27 | the file name is the last `/`-separated segment of the URL up to its first `?`: a suffix of that text preceded by `/` (or the whole text), containing neither `/` nor `?` |
| ModelCache.ModelFileName | src/depth-flow/models/cache.ts:5-27 | for a URL `<dir>/<name>?download=true` the file name is `name` |
| ModelCache.DownloadFrom | src/depth-flow/models/cache.ts:42-56 | the loop passes exactly when no download fails; a failure ends the run with its message after saving the models before it; a pass saves every missing model in order; the flag ends cleared |
| ModelCache.DownloadAllModels | src/depth-flow/models/cache.ts:30-61 | a call while a download runs fails at once with the "already in progress" message and leaves the flag set; any other call clears the flag however it ends, fails with the listing error if the listing fails, saves only models that were not cached, and on success saves exactly the missing ones |
| ModelCache.Step | src/depth-flow/models/cache.ts:32-60 | a call that starts while the flag is set is rejected and changes nothing but the count of rejections; any other start sets the flag and puts a run in flight; settling ends a run in flight and clears the flag, and there is nothing to settle with no run in flight |
| ModelCache.Replay | src/depth-flow/models/cache.ts:30-60 | over any interleaving of starts and settlings, every start is counted as accepted or rejected |
| ModelCache.ReplayInvariant | src/depth-flow/models/cache.ts:30-60 | whatever the interleaving, at most one run is in flight and the flag is set exactly when one is |
| ModelCache.OverlapRejected | src/depth-flow/models/cache.ts:33-35 | a call that starts while another accepted call has not settled is rejected and leaves the state otherwise unchanged |
| ModelCache.IdleAccepted | src/depth-flow/models/cache.ts:33-36 | a call that starts when every accepted call has settled is accepted and puts the only run in flight |
| ModelCache.DownloadMessages | src/depth-flow/models/cache.ts:42-56 | a run without failure reports, for each missing model in turn, its position out of the number missing and then its save, and ends with the completion message |
| Lazy.Invoke | src/depth-flow/utils.ts:2-11 | `fn` is evaluated exactly when no value is stored yet; its value is stored and returned, or its error is passed on and nothing is stored; a stored value is returned unchanged |
| Lazy.StateAfter | src/depth-flow/utils.ts:2-11 | from a fresh memoiser, calls up to the first successful one leave it empty; after that it holds the first successful value |
| Lazy.Trace | src/depth-flow/utils.ts:2-11 | every call up to the first success evaluates `fn` and returns what it returns or throws; every later call returns the first success's value without evaluating `fn` |
| Lazy.CreatedStays | src/depth-flow/utils.ts:2-11 | a stored value is never replaced or dropped |

## Left out

- Canvas work is out of scope: scaling, Gaussian blur, encoding to and from PNG, and the compositing loop of `alphaBlend` after its size check. These are browser calls. The blur appears only as a function parameter of `Clip.PostprocessAndMerge`.
- `postprocessClippedDepthMap` (clip.ts:54-68) is not modelled. It is a loop of canvas blurs and blends with no computation of its own.
- The ONNX models are out of scope: tensor conversion, running the depth and inpainting models, and the ONNX runtime set-up.
- Storage and network I/O are parameters, not models: the IndexedDB file cache, `fetch` with progress, `saveCachedFile`, and fflate's zip and unzip. The archive is a map from entry name to bytes.
- Orchestration, rendering and the UI are out of scope: `create-flow.ts`, the WebGL renderers, the controls and settings, the console histogram drawing, and the build configuration.
- Floating point is modelled as exact arithmetic.
  - Reals stand for doubles. The filter threshold 0.10 is exact one tenth.
  - The percentile threshold and the zoom ratio are computed without rounding.
  - `Math.random()` is a given per-bucket value.
- `Uint8ClampedArray` rounding of non-integer writes is not modelled. Every value written in the modelled loops is already an integer in 0..255. The one exception is a clip bound outside that range, which is clamped explicitly.
- A manifest key such as `constructor` or `__proto__` is not modelled. In the source, `blobs[key]` finds such a key on the object prototype.
- Malformed manifests are one fixed error, and `processArgs` is a JSON value carried through unchanged.
  - Bad manifests include one with `inpaintLayers` but no `layers` array, and one whose JSON does not parse.
  - The parse failure carries a fixed message instead of `JSON.parse`'s own.
- The percentage progress callbacks of a download are not modelled; the model has only the textual progress messages. A failing `saveCachedFile` is not modelled; the failure parameter covers a failing download.
- The MIME type of a blob is not modelled. The source gives the manifest the type `application/json` and loads every entry as an untyped blob, but it never reads a blob's type.
- `dilateImageData` accepts any combiner `(a, b) => number`. The model has only the two exported ones, `maxFilter` and `minFilter`, and the maximum is the only one used. The statements about "maximum (minimum)" windows cover just these two.
- The URL parser is not modelled beyond what the two model URLs need: the path ends at the first `?`, the URLs have no fragment and no percent-encoding.
- `TargetSize` and `CalculateZoomScale` require positive sizes. A zero size makes the source compute with `Infinity` or `NaN`.
- `EnsureMultipleOf` requires `n > 0`. The only caller passes 14.
- Division.FilterDivisionPoints: requires the points to be buckets 0..255. Its only caller passes snapped valley points, which are; the source would read outside the histogram otherwise.
- Clip.ClipIdempotent: requires a non-negative bound. A negative bound is clamped to 0 in the clipped map, so clipping again would mask every pixel.
- Division.MultilayerDepthMapDivisions: states that the final points are inner buckets only when the twelve-layer valley division is inner. The percentile fallback of that division can emit bucket 0 or 255, which `getBoundsForDivisions` then rejects.
- Division.SmoothHistogram: states the smoothed values per bucket. Their use as floating-point doubles, where rounding can create or remove a valley, is not modelled.
- Sorting.SortBy: the insertion sort is stable by construction. Its contract states ordering and permutation but not stability.
- ModelCache.DownloadAllModels: models one call from start to end, so the flag it takes in is never that of a run still between its awaits. Overlapping calls are stated by `ModelCache.Replay` and its lemmas instead.
- ModelCache.DownloadAllModels: the progress messages are a datatype rendered by `Text`, not strings. The contract states their order and content, not the rendered text of the concrete URLs.
