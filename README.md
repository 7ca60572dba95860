# go-ddddocr core, modelled and verified in Dafny

go-ddddocr is a Go port of the ddddocr captcha toolkit. This project models the
deterministic algorithms in `ddddocr/ddddocr.go` that sit around the ONNX model runs:

- **Greedy CTC decoding** of the recognition model's output, with an optional
  restriction to a set of allowed character indices.
- **The range selector** (`SetRanges`, `ClearRanges`). It builds the allowed
  indices from a preset or a custom string. Next to it is the charset
  projection that the classification result reports.
- **Detection post-processing.** This covers the anchor grid of
  `demoPostprocess` (strides 8, 16, 32), the score filter and corner clamp of
  `multiclassNMS`, the ranking by score, the greedy class-agnostic suppression,
  and `computeIoU`.
- **Canny edge detection on integer grids:**
  - Sobel gradients on the interior pixels;
  - non-maximum suppression along a gradient sector;
  - a double threshold;
  - the hysteresis fixpoint that promotes weak pixels next to strong ones.

  `grayToRGB` is modelled alongside it.
- **The search loop of `templateMatchRGB`.** This covers the origin sentinel,
  the row-major scan, the skip of flat windows and the strict comparison that
  keeps the first best placement.
- **The differential slide matcher.** This covers `absDiff`,
  `imageDifferenceRGB`, `binarizeRGB`, the column scan `findGapPython`, and
  `SlideComparison` composing them.
- **The alpha bounding-box crop `getTarget`** and its error condition.
- **The HSV range test of `filterByColors`**, including the extra "red2" band
  for "red".

Layout, one module per component:

| file | module | component |
|---|---|---|
| common.dfy | Common | bytes, RGBA pixels, `Option`, min/max/abs |
| ctc_decoder.dfy | CtcDecoder | `decodeOutputFloatFast` |
| char_ranges.dfy | CharRanges | `SetRanges`, `ClearRanges`, the charset projection (class `Recognizer`) |
| detection_grid.dfy | DetectionGrid | anchor grid and row layout of `demoPostprocess` |
| detection_nms.dfy | DetectionNms | `multiclassNMS`, `computeIoU` |
| canny.dfy | Canny | `cannyEdgeDetect`, `grayToRGB` |
| template_match.dfy | TemplateMatch | `templateMatchRGB` |
| slide_compare.dfy | SlideCompare | `absDiff`, `imageDifferenceRGB`, `binarizeRGB`, `findGapPython`, `SlideComparison` |
| alpha_crop.dfy | AlphaCrop | `getTarget` |
| color_filter.dfy | ColorFilter | `filterByColors` |

Conventions:

- **Rasters.** A raster is an `array2` indexed `[y, x]`. It holds `Rgba` pixels
  with byte channels, or `int` samples for the Canny stages.
- **Scores.** Scores are `real`. Every score decision in the source is a
  comparison, so the float32 values are not modelled.
- **Floating-point computations become parameters of the model:**
  - the `atan2` gradient sector (`dir`);
  - the ratio division and truncation of box corners (`toPixel`);
  - `exp` in box decoding (`exp`);
  - the window and template standard deviations and the normalised
    cross-correlation (`winStd`, `tplStd`, `ncc`);
  - the RGB-to-HSV conversion (`hsv`).
- **Integer square root.** The Canny magnitude `int(sqrt(gx*gx + gy*gy))` is
  modelled as the exact integer square root `ISqrt`.
- **nil indices.** A Go `nil` index list is the empty sequence. Every consumer
  of `allowedIndices` only tests its length.

Two behaviours of the code are worth knowing:

- **Box corners.** The code clamps `x1`/`y1` only from below and `x2`/`y2` only
  from above, so a clipped box can have `x1 > x2`
  (`DetectionNms.ClippedBoxMayBeInverted`).
- **Anchor count.** The class count is a truncating division, and the tensor
  length is not checked against the anchor count: only the first
  `numAnchors * (5 + numClasses)` values are read
  (`DetectionGrid.NumClassesTruncates`).

## Model

| member | source | states |
|---|---|---|
| CtcDecoder.DecodeOutputFast | ddddocr/ddddocr.go:1470-1522 | A shape of neither 2 nor 3 dimensions gives ""; otherwise the text is the collapse of the per-timestep arg-max path |
| CtcDecoder.DecodeSteps | ddddocr/ddddocr.go:1487-1521 | The timestep loop with lastIdx writes the CTC collapse of the arg-max path, for a shape whose reads stay inside the tensor |
| CtcDecoder.CollapseAppend | ddddocr/ddddocr.go:1516-1519 | One more timestep appends charsets[x] exactly when x differs from the previous index, is not the blank and is below charsetLen |
| CtcDecoder.ArgMaxAt | ddddocr/ddddocr.go:1492-1514 | The loop computes the reference choice of one timestep (restricted or unrestricted arg-max) |
| CtcDecoder.ScanAllIsFirstMax | ddddocr/ddddocr.go:1506-1513 | Unrestricted scan: the chosen value is the maximum, and every lower index holds a strictly smaller value (the first maximum wins) |
| CtcDecoder.ScanAllowedIsFirstMax | ddddocr/ddddocr.go:1492-1505 | Restricted scan: allowed indices at or above numClasses are skipped; when no allowed value beats -1e9 the choice stays 0; otherwise it is the earliest allowed index holding the maximum |
| CtcDecoder.ChooseRange | ddddocr/ddddocr.go:1492-1514 | Unrestricted, the chosen index is below max(numClasses, 1); restricted, it is 0 or an allowed index below numClasses |
| CtcDecoder.Keep | ddddocr/ddddocr.go:1516 | The kept indices are never the blank 0 and are below charsetLen |
| CtcDecoder.CollapseIsCtc | ddddocr/ddddocr.go:1487-1520 | The lastIdx loop equals the CTC reference: drop consecutive repeats, then drop blanks and indices >= charsetLen, then spell |
| CtcDecoder.CollapseLaw | ddddocr/ddddocr.go:1516-1519 | The path [a,a,0,a] emits charsets[a] twice, and [a,a,a] emits it once |
| CharRanges.Recognizer.constructor | ddddocr/ddddocr.go:414-420 | The charset list is stored, the reverse map sends each charset string to its last position, and no range is set |
| CharRanges.Recognizer.ResolveRange | ddddocr/ddddocr.go:572-608 | A string is used as is; the seven presets give their fixed alphabets; the non-alphanumeric preset concatenates the charset entries that are non-empty and not in the alphanumeric alphabet; anything else gives None |
| CharRanges.NonAlphaNumSound | ddddocr/ddddocr.go:593-600 | Every character the non-alphanumeric preset allows lies in a charset entry that is non-empty and not a substring of the alphanumeric alphabet |
| CharRanges.NonAlphaNumComplete | ddddocr/ddddocr.go:593-600 | Every character of every such entry is allowed by the preset |
| CharRanges.MultiCharEntryAdmitsAlphaNum | ddddocr/ddddocr.go:595-599 | The substring test works on whole entries: the entry "ba" passes and lets the letters b and a through, while the entry "a" is dropped |
| CharRanges.NonAlphaNumPresetSymbols | ddddocr/ddddocr.go:593-619 | After selecting the non-alphanumeric preset, every allowed index after the blank names a single-character entry taken from an accepted entry |
| CharRanges.Recognizer.IndicesFor | ddddocr/ddddocr.go:610-618 | The list is 0 followed by the map's index of each character found in the map, in string order |
| CharRanges.Recognizer.SetRanges | ddddocr/ddddocr.go:571-620 | allowedIndices becomes the reference RangeIndices of the value; nothing else changes |
| CharRanges.Recognizer.ClearRanges | ddddocr/ddddocr.go:623-625 | allowedIndices becomes empty; nothing else changes |
| CharRanges.Recognizer.ReportedCharsets | ddddocr/ddddocr.go:803-813 | With no range the full charset list is reported; otherwise one entry per allowed index: charsets[idx], or "" when idx is out of range |
| CharRanges.LookupConcat | ddddocr/ddddocr.go:614-618 | The lookup of a concatenation is the concatenation of the lookups |
| CharRanges.LookupSound | ddddocr/ddddocr.go:614-618 | Every looked-up index points at a charset entry that is a character of the range string |
| CharRanges.LookupComplete | ddddocr/ddddocr.go:614-618 | Every character of the range string that is a charset entry contributes its index; the list is no longer than the string |
| CharRanges.RangeIndicesShape | ddddocr/ddddocr.go:601-619 | The indices are empty exactly for an unknown preset or a value that is neither string nor int; otherwise they start with 0 and are at most one longer than the range string |
| CharRanges.ProjectedSymbolsComeFromRange | ddddocr/ddddocr.go:803-813 | After a custom string range, every projected symbol after the blank is a single character of that string |
| DetectionGrid.AnchorGrid | ddddocr/ddddocr.go:1594-1609 | The nested loops build the reference grid: per stride 8, 16, 32, rows y outer, columns x inner |
| DetectionGrid.LevelRowsLength | ddddocr/ddddocr.go:1603-1608 | A level has hsize * wsize anchors |
| DetectionGrid.LevelRowsAt | ddddocr/ddddocr.go:1603-1608 | Anchor y*wsize + x of a level is (x, y) with that level's stride |
| DetectionGrid.LevelRowsStride | ddddocr/ddddocr.go:1599-1608 | Every anchor of a level carries the level's stride and a row below hsize |
| DetectionGrid.LevelRowsIncreasing | ddddocr/ddddocr.go:1603-1608 | A level is in strictly increasing row-major order |
| DetectionGrid.LevelsIncreasing | ddddocr/ddddocr.go:1594-1609 | The whole grid is ordered by stride, then row-major, with strides from the list 8, 16, 32 |
| DetectionGrid.GridSize416 | ddddocr/ddddocr.go:1594-1611 | A 416x416 input gives 52*52 + 26*26 + 13*13 = 3549 anchors |
| DetectionGrid.NumClassesTruncates | ddddocr/ddddocr.go:1611-1612 | The truncating division leaves at most numAnchors unread trailing values |
| DetectionGrid.NumClassesExact | ddddocr/ddddocr.go:1611-1612 | A tensor of exactly numAnchors * (5 + k) values gives k classes |
| DetectionGrid.Prediction | ddddocr/ddddocr.go:1616-1626 | Each decoded row has 5 + numClasses entries |
| DetectionGrid.PredictionRow | ddddocr/ddddocr.go:1616-1628 | The row loop computes the reference decoded row of anchor i |
| DetectionGrid.DemoPostprocess | ddddocr/ddddocr.go:1593-1632 | One row per anchor, each the reference decoding of its anchor, all reads inside the tensor; requires a non-empty grid and rows at least 4 wide, where Go would panic |
| DetectionNms.IoU | ddddocr/ddddocr.go:1708-1723 | IoU always lies in [0, 1]; overlapping boxes give intersection over union, others 0 |
| DetectionNms.IoUZeroIffDisjoint | ddddocr/ddddocr.go:1714-1716 | IoU is 0 exactly when the intersection is empty |
| DetectionNms.IoUSymmetric | ddddocr/ddddocr.go:1708-1723 | IoU(a, b) == IoU(b, a) |
| DetectionNms.IoUSelf | ddddocr/ddddocr.go:1718-1722 | A box of positive area has IoU 1 with itself |
| DetectionNms.MaxClassScore | ddddocr/ddddocr.go:1644-1649 | The running maximum is at least 0, bounds every class score, and is 0 or one of them |
| DetectionNms.RowScore | ddddocr/ddddocr.go:1643-1650 | The loop computes objectness times the reference class maximum |
| DetectionNms.DetectionsSound | ddddocr/ddddocr.go:1642-1679 | A detection is produced exactly for each row scoring at least scoreThr, and each box has x1, y1 >= 0, x2 <= origW and y2 <= origH |
| DetectionNms.ClippedBoxMayBeInverted | ddddocr/ddddocr.go:1656-1673 | A concrete row whose clamped box has x1 > x2 |
| DetectionNms.BuildDetections | ddddocr/ddddocr.go:1642-1679 | The filter loop computes the reference detection list |
| DetectionNms.Insert | ddddocr/ddddocr.go:1681-1683 | Insertion into a list sorted by non-increasing score keeps it sorted and adds exactly one element |
| DetectionNms.SortByScore | ddddocr/ddddocr.go:1681-1683 | The ranking is a permutation sorted by non-increasing score |
| DetectionNms.KeptBoxesFrom | ddddocr/ddddocr.go:1685-1703 | Every reported box is the box of a kept detection |
| DetectionNms.GreedyUnique | ddddocr/ddddocr.go:1685-1703 | The greedy conditions determine the kept flags uniquely for a given ranking |
| DetectionNms.SuppressBy | ddddocr/ddddocr.go:1694-1702 | Afterwards a detection is used iff it was used before, or it comes after i and overlaps i by more than nmsThr |
| DetectionNms.GreedySuppress | ddddocr/ddddocr.go:1685-1705 | The top-ranked detection is kept; kept detections do not suppress each other; every discarded one is suppressed by an earlier kept one; the result lists the kept boxes in rank order |
| DetectionNms.MulticlassNms | ddddocr/ddddocr.go:1634-1706 | The ranking is a score-sorted permutation of the filtered detections; the suppression is greedy over it; every returned box comes from a detection scoring at least scoreThr and is clamped |
| Canny.ISqrt | ddddocr/ddddocr.go:962 | r*r <= n < (r+1)*(r+1) |
| Canny.ISqrtOfSquare | ddddocr/ddddocr.go:962 | The square root of a perfect square is exact |
| Canny.SobelFlat | ddddocr/ddddocr.go:955-962 | A flat 3x3 neighbourhood has zero gradients and zero magnitude |
| Canny.SobelRow | ddddocr/ddddocr.go:953-963 | One row y gets the Sobel gradients and magnitude on its interior columns; every other cell is unchanged |
| Canny.Sobel | ddddocr/ddddocr.go:943-964 | Fresh gradient and magnitude grids of the input's size, holding the Sobel kernels on interior pixels and 0 on the outer ring |
| Canny.KeepLocalMaximum | ddddocr/ddddocr.go:1001-1003 | The suppressed value is the magnitude or 0, and non-zero exactly for a non-zero magnitude at least both neighbours |
| Canny.NonMaxSuppress | ddddocr/ddddocr.go:966-1005 | Each interior pixel keeps its magnitude iff it is at least both neighbours along its sector; the ring is 0 |
| Canny.DoubleThreshold | ddddocr/ddddocr.go:1007-1023 | Interior labels are 2 at or above high, 1 at or above low, else 0; the ring is 0; the map is 255 exactly on label 2 |
| Canny.ConnectedStep | ddddocr/ddddocr.go:1031-1037 | A weak pixel adjacent to a connected pixel is connected |
| Canny.ConnectedBasics | ddddocr/ddddocr.go:1014-1048 | The outer ring is never connected, and strong pixels are |
| Canny.ClosedReachIsStrong | ddddocr/ddddocr.go:1026-1048 | At the fixpoint every pixel reachable from a strong one through weak ones is strong |
| Canny.StrongNeighbour | ddddocr/ddddocr.go:1032-1044 | The dy/dx loops with their breaks find a strong pixel in the 3x3 neighbourhood exactly when there is one |
| Canny.HysteresisPass | ddddocr/ddddocr.go:1028-1047 | A pass preserves the invariant (strong implies connected, the map mirrors the labels); a changing pass shrinks the weak set; a quiet pass leaves no weak pixel next to a strong one |
| Canny.Hysteresis | ddddocr/ddddocr.go:1025-1048 | The changed loop terminates; a pixel ends strong and white exactly when it is connected to a strong pixel through weak ones |
| Canny.CannyEdgeDetect | ddddocr/ddddocr.go:928-1051 | A strictly binary map of the input's size, 255 exactly at pixels whose threshold labels connect them to a strong pixel; the ring is 0 |
| Canny.GrayToRgb | ddddocr/ddddocr.go:1054-1066 | Each gray sample becomes an opaque pixel with three equal channels |
| TemplateMatch.FirstBestUnique | ddddocr/ddddocr.go:1122-1167 | At most one placement is the first best in scan order |
| TemplateMatch.ScanRow | ddddocr/ddddocr.go:1126-1166 | One row of the scan raises the running best only with a strictly better scored placement of that row, and the first one |
| TemplateMatch.TemplateMatchRgb | ddddocr/ddddocr.go:1069-1170 | The origin for an oversize or flat template, or when no scored placement beats -2; otherwise the first placement in row-major order with the maximum score among the non-flat windows |
| SlideCompare.AbsDiff | ddddocr/ddddocr.go:1251-1256 | The unsigned difference equals abs(a - b) and never wraps |
| SlideCompare.AbsDiffLaws | ddddocr/ddddocr.go:1251-1256 | The difference is symmetric and zero exactly on equal values |
| SlideCompare.DiffPixelLaws | ddddocr/ddddocr.go:1237-1244 | A pixel difference is symmetric and black exactly when the colours agree |
| SlideCompare.ImageDifferenceRgb | ddddocr/ddddocr.go:1220-1249 | The output has the smaller width and the smaller height of the two inputs, and each pixel is the opaque channel-wise difference |
| SlideCompare.BinLaws | ddddocr/ddddocr.go:1268-1282 | A channel becomes 255 iff it is above the threshold, else 0; re-binarising below 255 is idempotent |
| SlideCompare.BinarizeRgb | ddddocr/ddddocr.go:1259-1289 | Each pixel becomes the opaque per-channel binarisation |
| SlideCompare.ColumnCount | ddddocr/ddddocr.go:1300-1311 | The count is at most the rows scanned, and 0 exactly when they are all black |
| SlideCompare.FirstInk | ddddocr/ddddocr.go:1305-1309 | The first non-black row of a column, present exactly when the count is non-zero |
| SlideCompare.FirstGap | ddddocr/ddddocr.go:1299-1317 | The first column with at least minCount non-black pixels, all earlier columns having fewer |
| SlideCompare.LatchY | ddddocr/ddddocr.go:1307-1309 | The latched startY is 0 or a row of the image |
| SlideCompare.LatchYSticky | ddddocr/ddddocr.go:1307-1309 | Once a non-zero startY is latched, later columns do not change it |
| SlideCompare.CountColumn | ddddocr/ddddocr.go:1300-1311 | One column's count and the startY latch |
| SlideCompare.FindGapPython | ddddocr/ddddocr.go:1292-1321 | startX is the first qualifying column plus 2, or 0 when there is none; startY is the latch over the columns scanned up to the gap |
| SlideCompare.SlideComparison | ddddocr/ddddocr.go:1184-1209 | The gap point of the background-minus-target difference binarised at 80 and scanned with minCount 5 |
| AlphaCrop.ExtentUnique | ddddocr/ddddocr.go:1739-1776 | The bounds are determined by the image |
| AlphaCrop.SinglePixelFails | ddddocr/ddddocr.go:1778-1780 | A piece with a single opaque pixel cannot be cropped |
| AlphaCrop.ScanColumn | ddddocr/ddddocr.go:1747-1775 | One column updates the running bounds with its opaque rows |
| AlphaCrop.Extent | ddddocr/ddddocr.go:1739-1776 | The bounds are the extreme opaque columns and rows, or (w, h) and (0, 0) with no opaque pixel |
| AlphaCrop.GetTarget | ddddocr/ddddocr.go:1729-1790 | Fails with (0, 0) exactly when the extent is degenerate; otherwise it gives offset (startX, startY) and a copy of columns [startX, endX) and rows [startY, endY), which excludes the last opaque column and row |
| ColorFilter.MatchesAny | ddddocr/ddddocr.go:1353-1385 | A pixel matches iff some listed colour hits it, with custom ranges taking precedence over defaults and unknown names skipped |
| ColorFilter.DefaultRedBands | ddddocr/ddddocr.go:1368-1384 | Default "red" hits exactly hue 0-10 or 160-180 with saturation and value at least 100 |
| ColorFilter.CustomRedKeepsSecondBand | ddddocr/ddddocr.go:1375-1384 | With a custom "red", the default red2 band still matches |
| ColorFilter.HitOtherNames | ddddocr/ddddocr.go:1355-1373 | An unknown name never matches; a custom range overrides the default of the same name |
| ColorFilter.FilterByColors | ddddocr/ddddocr.go:1338-1394 | Matching pixels keep their colour, made opaque; every other pixel is white |

## Left out

- ONNX runtime initialisation, session runs and tensor creation: foreign library calls. The decoder and the detection stages take the output tensor as a sequence.
- Model download and file checks: network and filesystem I/O.
- Image decoding, `draw.Draw` and `toRGB`: image codecs. Every raster is given as an already decoded `array2` of pixels.
- `resize.Resize`: a third-party bilinear scaler.
- SlideCompare.SlideComparison: requires the two rasters to have equal size. It does not model the resize of a background whose size differs from the target's.
- The luma conversion of `cannyEdgeDetect` is floating point; `Canny.CannyEdgeDetect` takes the gray grid as input.
- The `atan2` sector is floating point; it is the parameter `dir`.
- Canny.ISqrt: models `int(math.Sqrt(...))` as the exact integer square root. It does not model float64 rounding, which is exact for Sobel magnitudes of 8-bit images.
- The rest of the floating-point code is not modelled:
  - `softmax`;
  - `rgbToHSV` (a parameter of `ColorFilter.FilterByColors`);
  - the NCC arithmetic of `templateMatchRGB` (the parameters `winStd`, `tplStd`, `ncc`);
  - `exp` in box decoding;
  - the ratio division and truncation in `multiclassNMS` (the parameter `toPixel`);
  - letterbox `preproc`;
  - float normalisation;
  - the resize-width computation.
- DetectionNms.IoU: computed over exact reals, without float32 rounding of the quotient. Scores are exact reals as well.
- DetectionNms.MulticlassNms: `sort.Slice` is not stable, so the ranking is stated only as some permutation sorted by non-increasing score. The ranking is a ghost output, and the suppression is proved over it.
- `SlideMatch`: the composition of getTarget, Canny with thresholds 100 and 200, grayToRGB and templateMatchRGB. Its recursive fallback to simple mode when `getTarget` fails is not modelled either. Each stage is modelled on its own.
- AlphaCrop.GetTarget: reads alpha directly from `Rgba` pixels. It does not model the `a >> 8` read of non-RGBA images, or the colour-model conversion of `cropped.Set`. The crop copies pixels unchanged.
- CtcDecoder.DecodeOutputFast, DetectionGrid.DemoPostprocess and DetectionNms.MulticlassNms: their preconditions exclude the index-out-of-range and divide-by-zero panics of the Go code, so the panic paths are not modelled. For MulticlassNms the excluded input is a prediction row shorter than 5, which DemoPostprocess yields when the truncated class count is -1 and on which `pred[4]` panics. The tensor shapes the ONNX models produce meet these preconditions.
- Strings are sequences of Unicode characters. The Go code splits the range string with `strings.Split(chars, "")` and tests `strings.Contains` on UTF-8 bytes. The two agree on valid UTF-8 and differ only on invalid byte sequences, which are not modelled.
- Image bounds with a non-zero origin: rasters start at (0, 0).
- example/main.go and example/benchmark.go: demo programs, and the benchmark's goroutines, mutexes and channel pool.
- Some loops are split into helper methods that the source writes inline (`ScanRow`, `SuppressBy`, `RowScore`, `CountColumn`, `ScanColumn`, `StrongNeighbour`, `Promote`, `ArgMaxAt`, `PredictionRow`, `DecodeSteps`, `SobelRow`). The loop bodies and their order are unchanged.
