# Contour filtering and overlap deduplication of the digit/symbol recogniser

This project models the integer and geometric decision logic of `ImageProcessor`,
the per-frame pipeline of the contour-analysis symbol recogniser. Two stages are
modelled, plus one piece of arithmetic:

- **The contour filter.** `FilterContours` walks the sibling chain of traced
  contours. It drops a contour that fails either of two tests, each run only
  when its switch is on:
  - a size/shape test, when `filterContoursBySize` is set (the default): enough
    points, an area between a minimum and `maxArea`, and a form factor (area
    per point) above a minimum;
  - an edge-corroboration test, when `noiseFilter` is set (off by default): the
    dilated Canny edge map is non-zero at the contour's first point or at its
    middle point.

  `ConvertContours` flattens the chain without filtering. `maxArea` is half or a
  fifth of the frame area.
- **The overlap deduplicator.** `GetTemplatesToDel` sorts the found templates by
  bounding-rectangle area, largest first. Each detection that has not itself
  been marked then marks for deletion every later detection whose rectangle
  lies inside its own rectangle inflated by 4 pixels. When the two are nearly
  equal in size (ratio above 0.9), it marks the earlier one instead, unless the
  earlier one's rate is strictly higher. A detection inside the inflated
  rectangle of an already marked one is therefore not deleted on that
  detection's account (`SkippedContainerScenario`); it can still be deleted
  through its own comparisons. `FilterByIntersection` rebuilds the list
  without the marked entries. `FilterByIntersectionWithNull` puts null in their
  place.
- **The adaptive-threshold block size** `n + n % 2 + 1`.

Modules, one file each:

- `CSharpInt`: C# `int` arithmetic. Unchecked wrap-around modulo 2^32, and
  truncating `/` and `%`.
- `Geometry`: the `Point` and `Rectangle` values of System.Drawing, with
  `Inflate`, `Contains` and the `Area()` extension.
- `Sequences`: "is a subsequence of".
- `Binarization`: the block size.
- `ContourFilter`: `FilterContours` and `ConvertContours` as loops over a
  sequence. They are proved against the specification function `Filter`, and
  the filter's properties are lemmas about `Filter`.
- `Deduplication`: the in-place sort, `GetTemplatesToDel` as nested loops over
  an array, and the two rebuild methods. They are proved against
  `TemplatesToDelete` and `Deduplicated`, and the deduplication properties are
  lemmas about those functions.

Representation choices:

- The contour chain linked through `HNext` is a `seq<Contour>`. A contour is its
  point sequence (`Total` is its length) and its area.
- The dilated edge map is an `array2<Byte>` indexed `[y, x]`, as Emgu's
  `Image[Point]` is.
- The `ImageProcessor` fields the filter reads form an immutable `Settings`
  value.
- A found template is reduced to its bounding rectangle and its rate.
- The exceptions the noise test can throw escape `FilterContours`. The model
  makes them an explicit outcome, `Raised(at)`. They happen when:
  - a contour has no points (`c[0]`, or `% 0`);
  - a sampled point lies outside the edge map.

  The second sample is read only when the first one is zero, because `&&`
  short-circuits.
- Double arithmetic is modelled on exact reals, with IEEE division by zero
  spelled out:
  - `Area / Total` with no points is +Infinity, NaN or -Infinity, so the
    form-factor test rejects an empty contour only when its area is negative.
  - `a / bigArea > 0.9` with `bigArea == 0` holds exactly when `a > 0`.

Three details of the code that the model keeps:

- On a tie in rate between two nearly equal detections, the code deletes the
  earlier (larger) one, `i` (ImageProcessor.cs:191-194). `TieScenario` exhibits
  this.
- The inner loop does not skip detections that are already marked
  (ImageProcessor.cs:183-199). A detection `i` that has just been marked still
  goes on marking the later detections it contains. Only the outer loop skips
  marked entries (ImageProcessor.cs:178).
- For negative odd `n` the block size `n + n % 2 + 1` is `n` itself, not a
  number above `n`.

## Model

| member | source | states |
|---|---|---|
| `Binarization.BlockSize` | DigitSymbolRecogniser/CAProcessing/ImageProcessor.cs:67-68 | the block size passed to adaptive thresholding is odd for every `int`. For `0 <= n < int.MaxValue` it is `n + 1` (n even) or `n + 2` (n odd), so it is greater than n. For negative n it is `n + 1` or `n`, and at `int.MaxValue` it wraps to `int.MinValue + 1` |
| `ContourFilter.MaxArea` | DigitSymbolRecogniser/CAProcessing/ImageProcessor.cs:229 | the result is an `int`; when the frame area is a non-negative `int` it is `W*H/2` with big contours enabled and `W*H/5` otherwise |
| `ContourFilter.SecondSampleIndex` | DigitSymbolRecogniser/CAProcessing/ImageProcessor.cs:245 | for a contour with at least one point, `(Total/2) % Total` is a valid index and equals `Total/2` |
| `ContourFilter.Decide` | DigitSymbolRecogniser/CAProcessing/ImageProcessor.cs:235-248 | the decision for one contour: with both switches off it keeps the contour; with the noise filter off it keeps the contour if and only if size filtering is off or the contour passes the size test; a contour that is kept or raises passes the size test when size filtering is on; a contour the noise test keeps has points; an exception comes only from the noise test, on an empty contour or a sample off the edge map |
| `ContourFilter.FilterContours` | DigitSymbolRecogniser/CAProcessing/ImageProcessor.cs:226-256 | the walk over the chain yields exactly `Filter` of the chain under the `maxArea` of the frame: the kept contours in order, or the position whose noise test throws |
| `ContourFilter.FilterOneMore` | DigitSymbolRecogniser/CAProcessing/ImageProcessor.cs:233-253 | one iteration of the walk: after contour i the outcome is the earlier kept list extended by contour i when its verdict is keep, unchanged when it is drop, and an exception at position i when it raises |
| `ContourFilter.RaisedIsFinal` | DigitSymbolRecogniser/CAProcessing/ImageProcessor.cs:242-248 | an exception in the noise test ends the walk: once a prefix of the chain raises, the whole chain raises at the same position |
| `ContourFilter.ConvertContours` | DigitSymbolRecogniser/CAProcessing/ImageProcessor.cs:214-224 | the list holds exactly the contours of the chain, in chain order |
| `ContourFilter.FilterKeepsChainOrder` | DigitSymbolRecogniser/CAProcessing/ImageProcessor.cs:230-255 | the kept contours form an order-preserving subsequence of the chain |
| `ContourFilter.FilterVerdicts` | DigitSymbolRecogniser/CAProcessing/ImageProcessor.cs:233-253 | a contour is kept if and only if it is in the chain and its own test says keep. The filter raises if and only if some contour's test raises, and then it raises at the first such contour |
| `ContourFilter.KeptContoursPassSizeTest` | DigitSymbolRecogniser/CAProcessing/ImageProcessor.cs:235-240 | with size filtering on, every kept contour has `Total >= minContourLength`, `minContourArea <= Area <= maxArea` and, for a contour with points, `Area/Total > minFormFactor` (an empty contour of area 0 can be kept, since `0.0/0` is NaN and fails the `<=` test) |
| `ContourFilter.KeptContoursHaveEdgeSupport` | DigitSymbolRecogniser/CAProcessing/ImageProcessor.cs:242-248 | with the noise filter on, every kept contour has points, and the edge map is non-zero at its first point or at its point `Total/2` |
| `ContourFilter.NoiseTestDropsUnsupported` | DigitSymbolRecogniser/CAProcessing/ImageProcessor.cs:242-248 | for a contour past the size test whose two samples lie on the edge map, the noise test does not throw, and it drops the contour if and only if the map is zero at both samples |
| `ContourFilter.UnfilteredKeepsWholeChain` | DigitSymbolRecogniser/CAProcessing/ImageProcessor.cs:233-253 | with both `filterContoursBySize` and `noiseFilter` off, the whole chain is kept, the same list `ConvertContours` returns |
| `ContourFilter.StricterVerdict` | DigitSymbolRecogniser/CAProcessing/ImageProcessor.cs:235-240 | raising the minimum length, area or form factor, or lowering `maxArea`, can only change a contour's verdict to drop |
| `ContourFilter.FilterMonotone` | DigitSymbolRecogniser/CAProcessing/ImageProcessor.cs:235-240 | under stricter thresholds the filter still completes, and it keeps a subsequence of what the looser thresholds keep |
| `ContourFilter.SquareScenario` | DigitSymbolRecogniser/CAProcessing/ImageProcessor.cs:229-240 | in a 100x100 frame, an 80-point contour of area 400 is kept with the default thresholds and dropped when `minContourArea` is 500 |
| `Deduplication.NearSameSizeAsIntegers` | DigitSymbolRecogniser/CAProcessing/ImageProcessor.cs:187-188 | for non-negative areas, `a / bigArea > 0.9` holds exactly when `10*a > 9*bigArea`, including `bigArea == 0` |
| `Deduplication.LargestAreaFrom` | DigitSymbolRecogniser/CAProcessing/ImageProcessor.cs:172-173 | the returned position holds a largest area among the positions from `lo` on |
| `Deduplication.SortByAreaDescending` | DigitSymbolRecogniser/CAProcessing/ImageProcessor.cs:172-173 | after the sort, the list is a permutation of its old contents and is non-increasing in bounding-rectangle area |
| `Deduplication.GetTemplatesToDel` | DigitSymbolRecogniser/CAProcessing/ImageProcessor.cs:169-202 | the list is left sorted by descending area and is a permutation of the input. The returned set is `TemplatesToDelete` of the sorted list |
| `Deduplication.FilterByIntersection` | DigitSymbolRecogniser/CAProcessing/ImageProcessor.cs:204-212 | the new list is the sorted list without the positions in `toDel`, in order (`Deduplicated`) |
| `Deduplication.FilterByIntersectionWithNull` | DigitSymbolRecogniser/CAProcessing/ImageProcessor.cs:151-167 | the new list has the length of the input. It holds null exactly at the positions in `toDel` and the sorted entry everywhere else |
| `Deduplication.MarkedGrows` | DigitSymbolRecogniser/CAProcessing/ImageProcessor.cs:175-199 | marks are only ever added: the set after visiting the first m positions is included in the set after visiting the first n, for m <= n |
| `Deduplication.Step` | DigitSymbolRecogniser/CAProcessing/ImageProcessor.cs:185-197 | the decision for one pair i < j: it only adds i or j to the marks; nothing is added when i's inflated rectangle does not contain j; otherwise i is marked when j is nearly as large and i's rate is not higher, and j is marked in every other case. A newly added i or j is added only for that reason, so one pair never marks both |
| `Deduplication.InnerDecides` | DigitSymbolRecogniser/CAProcessing/ImageProcessor.cs:183-199 | once the inner loop of i has looked at a contained k, it has marked i (k is nearly as large and i's rate is not higher) or k (in every other case) |
| `Deduplication.TemplatesToDeleteInRange` | DigitSymbolRecogniser/CAProcessing/ImageProcessor.cs:176-199 | every index in `toDel` is less than `Count` |
| `Deduplication.LowerRateLoses` | DigitSymbolRecogniser/CAProcessing/ImageProcessor.cs:185-195 | for a contained, nearly equal pair i < j with `rate(i) <= rate(j)`, i is deleted, so on a tie i goes |
| `Deduplication.VisitedDeletesContained` | DigitSymbolRecogniser/CAProcessing/ImageProcessor.cs:176-199 | if the outer loop does not skip i, every later j inside i's inflated rectangle is deleted: when the area ratio is at most 0.9, and when it is above 0.9 but i's rate is higher; `SkippedContainerScenario` shows that without the condition on i the conclusion fails |
| `Deduplication.SurvivorPairNotContained` | DigitSymbolRecogniser/CAProcessing/ImageProcessor.cs:176-199 | for two surviving positions i < j, the rectangle of i inflated by 4 does not contain the rectangle of j |
| `Deduplication.DeletionsJustified` | DigitSymbolRecogniser/CAProcessing/ImageProcessor.cs:183-199 | every deleted position k has a reason. Either an earlier detection contains k and does not lose to it, or k contains a later, nearly equal detection whose rate is at least k's |
| `Deduplication.KeptIndicesExact` | DigitSymbolRecogniser/CAProcessing/ImageProcessor.cs:208-210 | the positions the rebuild loop copies are exactly the positions not in `toDel`, in strictly increasing order |
| `Deduplication.KeptIndicesCount` | DigitSymbolRecogniser/CAProcessing/ImageProcessor.cs:208-210 | the number of copied positions plus the number of deleted positions below n is n |
| `Deduplication.SurvivorsAtKeptIndices` | DigitSymbolRecogniser/CAProcessing/ImageProcessor.cs:204-211 | the p-th entry of the rebuilt list is the entry at the p-th kept position |
| `Deduplication.SurvivorsKeepOrder` | DigitSymbolRecogniser/CAProcessing/ImageProcessor.cs:204-211 | the rebuilt list is an order-preserving subsequence of the sorted list |
| `Deduplication.DeduplicatedLength` | DigitSymbolRecogniser/CAProcessing/ImageProcessor.cs:204-211 | the rebuilt list has `Count - |toDel|` entries, no more than the input, and is a subsequence of the sorted list |
| `Deduplication.DeduplicatedNotContained` | DigitSymbolRecogniser/CAProcessing/ImageProcessor.cs:176-211 | in the rebuilt list, no entry lies inside the inflated rectangle of an earlier entry. The entries stay in descending order of area |
| `Deduplication.NearDuplicateScenario` | DigitSymbolRecogniser/CAProcessing/ImageProcessor.cs:185-192 | of the detections `[0,0,50,50]` (rate 0.8) and `[2,2,48,48]` (rate 0.6), only the first remains |
| `Deduplication.NestedScenario` | DigitSymbolRecogniser/CAProcessing/ImageProcessor.cs:185-197 | `[5,5,10,10]` inside `[0,0,50,50]` is deleted even though its rate is higher |
| `Deduplication.ConverseContainmentScenario` | DigitSymbolRecogniser/CAProcessing/ImageProcessor.cs:183-185 | the code tests only whether an earlier detection's inflated rectangle contains a later one: for the sorted pair `[0,0,19,19]`, `[0,0,15,24]` both survive although the second's inflated rectangle contains the first |
| `Deduplication.SkippedContainerScenario` | DigitSymbolRecogniser/CAProcessing/ImageProcessor.cs:176-199 | the outer loop skips a marked detection: in the sorted list `[0,0,20,20]` (rate 0.9), `[4,4,20,20]`, `[20,20,8,8]` the first deletes the second, and the third, inside the second's inflated rectangle and not nearly as large, survives |
| `Deduplication.TieScenario` | DigitSymbolRecogniser/CAProcessing/ImageProcessor.cs:188-194 | of two equal detections with equal rates, the first is deleted and the second remains |

## Left out

- The raster stages of `ProcessImage` (`_EqualizeHist`, `PyrDown`/`PyrUp`,
  `Canny`, `cvAdaptiveThreshold`, `_Not`, `_Or`, `Dilate`, `FindContours`) are
  calls into the Emgu CV library, whose semantics are not part of this model.
  The model also omits the assignments of `ProcessImage` to the `contours`,
  `binarizedFrame` and `foundTemplates` fields. Only the block-size arithmetic
  is modelled.
- `FindTemplates` is left out. Its substance is the `Parallel.ForEach` fan-out
  with lock-guarded appends, and it calls `Template`'s constructor and
  `TemplateFinder.FindTemplate`. The `Template` and `TemplateFinder` classes
  are not part of this model. The deduplication it ends with is modelled.
- `FindTemplatesNonParalel` is left out for the same reason. It is a loop around
  the matcher calls `FindTemplate` and `FindTemplateByNorma`, which are not part
  of this model.
- TemplatesViewer/MainForm.cs is left out. It holds the WinForms viewer, the file
  dialogs and `BinaryFormatter` persistence.
- `Deduplication.SortByAreaDescending` is a selection sort. It stands in for
  `List.Sort`, whose introsort is not stable, so the model promises only a
  permutation in descending order of area. Which of several equal-area
  detections comes first, and therefore which one plays `i`, is not modelled.
- `ContourFilter.FilterContours` always takes an edge map. In the source the map
  is null when `noiseFilter` is off, and it is then never read.
- `ContourFilter.FilterContours` does not distinguish between the kinds of
  exception the noise test can throw. It records only that one escapes, and at
  which contour.
- Rectangle coordinates, `Inflate` and the `Area()` extension are unbounded
  integers: 32-bit wrap-around of rectangle arithmetic is not modelled. The
  `Area()` extension is not part of this model and is taken to be
  `Width * Height`.
- `rate`, `Contour.Area` and `minFormFactor` are doubles in the source and exact
  reals here. Rounding, infinities and NaN inputs are not modelled. Division by
  zero, as described above, is modelled.
- Deduplication.DeduplicatedNotContained: covers only a later survivor inside
  the inflated rectangle of an earlier one. The other direction does not hold
  of the code, which never tests it; `ConverseContainmentScenario` shows two
  survivors where the later one's inflated rectangle contains the earlier one.
- A found template is modelled as a value, not a reference, so two equal
  detections are indistinguishable.
