# Acne analysis by face region — a Dafny model

This project models the analysis core of the acne-CV back end,
`app_db/model/model.py`. One face photo is processed like this:

1. The landmark detector either finds no face, which gives the error
   "얼굴 인식 실패" ("face recognition failed"), or it finds the 478 landmarks
   of the refined face mesh.
2. Each of the five face regions has a fixed landmark-index list: forehead
   (이마), nose (코), left cheek (왼쪽볼), right cheek (오른쪽볼) and chin (턱).
   The region's bounding box is the min/max box of its landmarks' pixel
   positions. Those positions are truncated to integers.
3. The region is cropped and stretched to 640x640, then given to the acne
   detector.
4. The detections are filtered: class 0 only, with confidence at least 0.4.
5. The kept boxes are mapped back to original-image coordinates.
6. Each region's boxes are counted. The counts are summed.
7. The dominant region is the one with the most boxes. Ties go to the region
   that comes first in the order forehead, chin, left cheek, right cheek,
   nose. When nothing was detected, the dominant region is none.

The modules follow these steps:

- `Regions`: the region table, the two fixed orders, and the region names.
- `Faces`: landmarks, pixel truncation, the bounding box and the crop size.
- `Detections`: the detector output and the class/confidence filter.
- `Remap`: the crop-to-image coordinate map.
- `Aggregation`: the counts, the total and the tie-broken maximum.
- `Pipeline`: the per-region loop, the counting loop and the whole analysis.

Some outside pieces become parameters:

- The landmark detector's answer is the `face` parameter of
  `Pipeline.AnalyzeAcneByParts`.
- The acne detector is a function parameter. It maps a region box of the one
  fixed image to that crop's raw detections.
- Pixel extraction and resizing happen inside the detector parameter.
- The loops `Pipeline.DetectByPart` and `Pipeline.Summarize` take the
  per-region step as a function. `Pipeline.AnalyzeAcneByParts` passes
  `Pipeline.RegionAcneBoxes` for the detected face.

Scores and coordinates are reals. Python's `int()` is modelled as truncation
toward zero. Python dictionary iteration follows the table's key order:
forehead, nose, left cheek, right cheek, chin.

## Model

| member | source | states |
|---|---|---|
| Regions.Indices | app_db/model/model.py:27-42 | each region's list is the table's list, repeats included, with the forehead's `range(65, 69)` and the right cheek's `range(380, 390)` appended; every region lists at least one landmark, and every listed index is below the 478 landmarks of the refined mesh |
| Regions.PriorityIndex | app_db/model/model.py:148 | every region has a position in the tie-break list, and that position holds the region |
| Regions.PriorityIsInjective | app_db/model/model.py:148-153 | distinct regions have distinct priorities, so the `min` by priority index can never tie |
| Regions.OrdersAreComplete | app_db/model/model.py:117-118 | both the table's key order and the priority list contain every region |
| Regions.TableKeysAreDistinct | app_db/model/model.py:27-42 | no table key occurs twice: the key at each position does not occur before it, so each loop over the table visits every region once |
| Regions.NamesAreDistinct | app_db/model/model.py:27-42 | the five table keys are pairwise distinct, so a reported name identifies one region |
| Regions.Name | app_db/model/model.py:27-42 | the Korean table key of each region, which is also the reported `max_acne_part` (line 154); it has no contract of its own, and `Regions.NamesAreDistinct` states that the keys identify the regions |
| Faces.Trunc | app_db/model/model.py:47-48 | `int()` truncates toward zero: for a non-negative value the result is the largest integer not above it, and for a negative value the smallest integer not below it |
| Faces.PixelOf | app_db/model/model.py:47-48 | the pixel point `(int(x * width), int(y * height))` of a landmark; it has no contract of its own: `Faces.Trunc` states the truncation and `Faces.PixelInImage` states where the point lands |
| Faces.PixelInImage | app_db/model/model.py:46-50 | a landmark normalised to [0, 1] lands on a pixel in [0, width] x [0, height] |
| Faces.Enclose | app_db/model/model.py:51-52 | the column-wise min/max of a non-empty point list is a well-formed box that contains every point, and each of its four bounds is attained by some point |
| Faces.PartBoundingBox | app_db/model/model.py:45-53 | the region box contains the pixel point of every listed landmark, x_min <= x_max and y_min <= y_max, and each bound is attained by a listed landmark |
| Faces.BoxDependsOnlyOnListedSet | app_db/model/model.py:45-53 | two index lists with the same members give the same box: list order and repeats do not matter |
| Faces.DropRepeatKeepsBox | app_db/model/model.py:45-53 | deleting an index that already occurs earlier in the list leaves the box unchanged |
| Faces.NoseRepeatsDoNotMatter | app_db/model/model.py:32-33 | the nose list names 2 and 218 twice; the nose region's box equals the box of the list without the repeats |
| Faces.BoxInImage | app_db/model/model.py:45-53 | for landmarks inside the image, the box of any valid index list lies inside [0, width] x [0, height] |
| Faces.RegionBox | app_db/model/model.py:121-122 | the box of each table region of a valid face lies inside the image |
| Faces.CroppedSize | app_db/model/model.py:56-60 | for a box inside the image, the slice `image[y_min:y_max, x_min:x_max]` has shape (y_max - y_min, x_max - x_min), which is no larger than the image |
| Detections.FilterDetections | app_db/model/model.py:74-86 | the kept boxes are never more than the raw detections; which boxes are kept, and in what order, is stated by `Detections.FilterMembership`, `Detections.FilterAppend` and `Detections.SingleDetection` |
| Detections.Kept | app_db/model/model.py:83 | the filter condition `cls == 0 and score >= threshold`; it has no contract of its own, and `Detections.SingleDetection` and `Detections.FilterMembership` state what it does to the result |
| Detections.FilterMembership | app_db/model/model.py:82-84 | a box is kept exactly when some detection of class 0 with score >= threshold carries it |
| Detections.FilterAppend | app_db/model/model.py:82-84 | filtering a concatenation concatenates the filtered parts, so detector order is kept |
| Detections.FilterIsSubsequence | app_db/model/model.py:82-84 | the result is an order-preserving subsequence of the detector's boxes |
| Detections.LowerThresholdKeepsMore | app_db/model/model.py:74-84 | for a lower threshold, the result at the higher threshold is a subsequence of the result at the lower one, and is no longer |
| Detections.SingleDetection | app_db/model/model.py:82-84 | a single detection is kept exactly when its class is 0 and its score reaches the threshold |
| Remap.AxisEndpoints | app_db/model/model.py:90-101 | crop-local 0 maps to the box origin, and crop-local 640 maps to the origin plus the pre-resize crop extent |
| Remap.AxisMonotone | app_db/model/model.py:92-101 | for a non-negative crop extent the map is monotone |
| Remap.AxisStaysInCrop | app_db/model/model.py:92-101 | a crop-local value in [0, 640] lands in [origin, origin + extent] |
| Remap.AxisRoundTrip | app_db/model/model.py:92-101 | for a positive extent the per-axis map has an inverse, in both directions |
| Remap.RemapBox | app_db/model/model.py:96-101 | one box remapped corner by corner; for a non-negative crop size a box with x1 <= x2 and y1 <= y2 keeps that order after the map |
| Remap.ResizeBoxesToOriginal | app_db/model/model.py:89-102 | one output box per input box, in input order; box k is box k with x scaled by crop_w/640 and shifted by x_min, and y scaled by crop_h/640 and shifted by y_min |
| Remap.IgnoresBoxFarCorner | app_db/model/model.py:91 | the result does not depend on the original box's x_max and y_max |
| Remap.FullCropMapsToCroppedRect | app_db/model/model.py:90-101 | the whole crop (0, 0, 640, 640) maps to (x_min, y_min, x_min + crop_w, y_min + crop_h) |
| Remap.CropCornersMapToBox | app_db/model/model.py:56-60 | for a box inside the image, the crop's far corner (640, 640) maps exactly onto the box's far corner (x_max, y_max) |
| Remap.CropBoxLandsInBox | app_db/model/model.py:89-102 | for a box inside the image, a box inside the 640x640 crop maps into that box |
| Remap.RemapRoundTrip | app_db/model/model.py:89-102 | for a crop of positive size no information is lost: unmapping every remapped box gives the crop-local box back |
| Remap.WorkedExample | app_db/model/model.py:89-102 | origin (50, 30) with crop height 200 and width 100 maps the full crop to (50, 30, 150, 230) |
| Aggregation.SumOver | app_db/model/model.py:136-139 | the running total is zero exactly when every visited count is zero, and no visited count exceeds it |
| Aggregation.SumOverAppend | app_db/model/model.py:136-139 | visiting one more region adds that region's count to the running total |
| Aggregation.SumOverAgree | app_db/model/model.py:136-139 | the total reads only the counts of the visited regions |
| Aggregation.SumOverRecord | app_db/model/model.py:137-139 | recording the count of a region not yet visited and adding it to the running total keeps the total equal to the sum over the visited regions |
| Aggregation.Total | app_db/model/model.py:133-139 | the running total over the table's keys equals the sum of the five region counts, and it is zero exactly when every region's count is zero |
| Aggregation.MaxOver | app_db/model/model.py:149 | `max(counts)` is attained by some region and no count exceeds it |
| Aggregation.WithCount | app_db/model/model.py:151 | the generator yields exactly the regions whose count equals the given value |
| Aggregation.MinByPriority | app_db/model/model.py:150-153 | `min` by priority index returns a candidate whose priority is not beaten by any other candidate |
| Aggregation.MaxAcnePart | app_db/model/model.py:149-153 | the pick as written (maximum count, then `min` by priority index over the regions that have it) is one of the visited regions, and for any visiting order that lists every region it has the largest count, with no region of equal count earlier in the priority order |
| Aggregation.DominantIsUnique | app_db/model/model.py:146-154 | at most one region satisfies that description, so the decision is deterministic |
| Aggregation.OrderDoesNotMatter | app_db/model/model.py:146-154 | the pick is the same whatever order the counts are visited in |
| Aggregation.Decide | app_db/model/model.py:146-158 | the reported part is None exactly when every count is zero; otherwise it is the dominant region |
| Aggregation.ForeheadChinTie | app_db/model/model.py:146-157 | with forehead and chin tied at n > 0 and no other detections, the total is 2n and the forehead wins |
| Aggregation.NothingDetected | app_db/model/model.py:156-157 | with no detections the total is 0 and the part is None |
| Pipeline.RegionAcneBoxes | app_db/model/model.py:121-126 | a region yields one remapped box per detection that passes the filter |
| Pipeline.CropCornersMapToRegionBox | app_db/model/model.py:121-126 | the crop's far corner (640, 640) maps exactly onto the region box's far corner (x_max, y_max) |
| Pipeline.DetectionsLandInRegionBox | app_db/model/model.py:121-126 | a kept detection whose corners lie in the 640x640 crop is reported inside the region's bounding box |
| Pipeline.DetectByPart | app_db/model/model.py:117-130 | after the loop over the table, every region has an entry, and each entry is the boxes the per-region step gives for it; a region without boxes keeps its initial empty list, which is the same thing |
| Pipeline.CountByPart | app_db/model/model.py:133-139 | every region's count is the length of its box list, and the running total equals the sum of the counts |
| Pipeline.Summarize | app_db/model/model.py:117-158 | the counts are complete and equal the box-list lengths; the total is their sum; the part is None exactly when the total is 0, and otherwise the dominant region |
| Pipeline.AnalyzeAcneByParts | app_db/model/model.py:106-160 | no face gives exactly the error "얼굴 인식 실패"; with a face, the result holds every region's count of filtered, remapped detections, their sum, and the dominant region, or None exactly when the sum is 0 |

## Left out

Line numbers below are those of `app_db/model/model.py`.

- Model loading (lines 9-24) and the landmark detector's internals are not modelled. The landmark detector's answer is the `face` parameter.
- The detector network is a function parameter. It is called once per region with the region box.
- Pixel extraction and `cv2.resize` (lines 56-60) are inside the detector parameter. Only the crop's pre-resize shape is modelled, by `Faces.CroppedSize`.
- A zero-width or zero-height region box makes `cv2.resize` (line 59) raise on the empty slice. The model has no exception path for that.
- Image decoding (`load_test_image`, lines 63-71) is not modelled. This includes its odd return of the `FileNotFoundError` class on a decode failure.
- The returned image `img` is not modelled. Only the result dictionary is.
- Floating point is not modelled: coordinates, scores and scale factors are exact reals, so the exactness lemmas of `Remap` hold without rounding.
- Faces.ValidFace requires exactly 478 landmarks, each normalised to [0, 1]. Landmarks outside the image would give negative or out-of-range slice bounds, and numpy clamps or wraps those. That clamping is not modelled.
- Pipeline.AnalyzeAcneByParts: `part_acne_map` is not modelled as a separate map. The source uses it only for its keys, which are the table's keys in the table's order, and it is never returned.
- Pipeline.AnalyzeAcneByParts reports the dominant region as a `Region` value rather than its Korean key. `Regions.Name` gives the key, and `Regions.NamesAreDistinct` shows that nothing is lost.
- `acne_boxes_by_part` stays inside the source function: the result dictionary (lines 141-157) holds only the total, the per-region counts and the dominant region, so `Pipeline.Analysis` has no per-region boxes.
- The `print` calls (lines 113, 155 and 158) are console output only and are not modelled.
- The web and database layers (`app`, `app_db` outside `model/model.py`, `cute`) are not modelled. This includes the acne-cause mapping.
