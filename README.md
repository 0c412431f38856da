# Kolkata flood mapping: Otsu water detection, in Dafny

This project models the locally written logic of the Kolkata flood-mapping
scripts and proves properties about it. The main script detects permanent
surface water in Sentinel-1 / ALOS-2 radar backscatter. A secondary console
script styles the ward layer by flood risk. The model covers:

- **Otsu threshold selection** (`Otsu`, `KeySort`). A bucketed histogram
  (counts plus bucket means) gives one threshold. For each split i in 1..N,
  the first i buckets form class A and the rest class B. The between-class
  variance of the split is computed exactly as the source computes it. The
  bucket means are then sorted by those variances and the last one is taken.
- **Per-ward threshold table** (`WardThresholds`). A ward whose solve fails
  gets -15 dB. The loop then folds the ward features into a table keyed by
  ward id. A missing `otsu_threshold` property also reads as -15, and a later
  feature with the same id overwrites an earlier one.
- **Ward mask synthesis** (`WardMask`). Classification is the strict test
  `pixel < threshold`. The combined mask starts all zero. For every ward of
  the table, it ORs in that ward's classification clipped to the ward's
  geometry.
- **Water frequency** (`WaterFrequency`). The per-pixel sum of N masks is
  divided by N. The division is not guarded, so over no masks every
  frequency is 0 under the model's x / 0 = 0 rule.
- **Band choice** (`Bands`). The filter reads VV, else VH, else HH, and its
  output band is the input band's name with `_filtered` appended.
- **Flood-risk styling** (`FloodRisk`). Each ward gets a colour from the
  high-risk and medium-risk lists, and the loop builds one renderer category
  per ward feature.

Modelling choices:

- Pixel values and bucket means are exact `real`s.
- An image is a sequence of pixel values, and a ward geometry is a set of
  pixel indices.
- The iteration order of the Python dict is an explicit parameter (`order`).
- The host's lazy errors become `Option`/`Result` values:
  - a missing histogram of the filtered band (`None`);
  - a histogram whose two arrays are empty or differ in length;
  - a ward feature without a `ward_id`, which the table loop reads by subscript;
  - a ward id with no ward feature.
- A well-formed histogram that counts no pixels is not an error. The source
  computes its variances like any other's, every one is 0, and the last
  bucket mean is returned (`Otsu.AllEmptyPicksLastMean`).
- The source never guards its divisions, so the model sets x / 0 = 0 (`Otsu.Div`): a class with no pixels adds nothing to the variance.

Readings of the code that the model makes explicit:

- **Tie-breaking.** When several splits tie for the largest variance, the code
  returns the mean at the LAST tied split index, because it takes the last
  element of a stable ascending sort. That is the largest tied mean only when
  the bucket means ascend, as the histogram reducer's do.
  `Otsu.SparseMiddleBucket` shows a tie resolved this way.
- **Two-mass histograms.** Variance k belongs to split k + 1, so it is keyed
  to means[k], the last bucket of class A. When only buckets p < q hold
  pixels, every split between them has the same, largest variance, and every
  other split has variance 0. The threshold is therefore means[q - 1], the
  last bucket before the second mass (`Otsu.TwoMassesThreshold`). With the
  two masses in adjacent buckets this is the lower mean
  (`Otsu.TwoClassMixture`). With empty buckets between them it is the mean
  of the last empty bucket (`Otsu.SeparatedMasses`).
- **Strict classification.** `lt` is strict: a pixel equal to its ward's
  threshold is land, and a pixel above it is land whatever the neighbouring
  wards' thresholds. With thresholds -16 and -14 over pixels of -18 and -12,
  only the -18 half is water (`WardMask.TwoHalves`).

## Model

| member | source | states |
|---|---|---|
| `KeySort.SortByKey` | notebooks/otsu_water_detection.py:79 | sorting by variance keeps every (variance, mean) pair: the output is a permutation of the input, of the same length |
| `KeySort.SortByKeySorted` | notebooks/otsu_water_detection.py:79 | the sort's output is in ascending order of variance |
| `KeySort.SortLastIsLastArgMax` | notebooks/otsu_water_detection.py:79 | the last element of the stable sort is the pair at the last index whose key is maximal |
| `KeySort.SortPickIsLastArgMax` | notebooks/otsu_water_detection.py:79 | `means.sort(bss).get([-1])` is the mean at an index k whose variance is at least every other variance and strictly greater than every later one |
| `KeySort.LastArgMax` | notebooks/otsu_water_detection.py:79 | the index it returns is in range, its key is maximal, and every later key is strictly smaller |
| `KeySort.SortPick` | notebooks/otsu_water_detection.py:79 | `means.sort(bss).get([-1])` is the mean at the last index of maximal variance (`KeySort.LastArgMax`), the element a stable ascending sort puts last (`KeySort.SortLastIsLastArgMax`) |
| `Otsu.OtsuThreshold` | notebooks/otsu_water_detection.py:33-79 | fails iff the two arrays are empty or differ in length, and on every other histogram returns a value; which value is stated by `Otsu.ThresholdMaximizesVariance`, `Otsu.ThresholdIsBucketMean`, `Otsu.AllEmptyPicksLastMean` and `Otsu.TwoMassesThreshold` |
| `Otsu.Bss` | notebooks/otsu_water_detection.py:58-76 | one between-class variance per split 1..N, entry k for split k + 1; the variances are non-negative (`Otsu.BssNonNegative`), and the class counts and means they are built from are those of the buckets before and after the split (`Otsu.ClassCountsPartition`, `Otsu.ClassSumsPartition`, `Otsu.ClassBMeanIsSuffixMean`) |
| `Otsu.ClassCountsPartition` | notebooks/otsu_water_detection.py:58-68 | for every split i in 1..N, aCount + bCount equals the total, and bCount is the count of the buckets after the first i |
| `Otsu.ClassAWeight` | notebooks/otsu_water_detection.py:60-65 | aCount times aMean is the weighted sum of the first i buckets, including when aCount is 0 |
| `Otsu.ClassSumsPartition` | notebooks/otsu_water_detection.py:51-69 | aCount·aMean + bCount·bMean equals sum_val, the weighted sum of all buckets |
| `Otsu.ClassBMeanBySubtraction` | notebooks/otsu_water_detection.py:69 | bMean, computed by subtraction as the source does, is the weighted sum of the remaining buckets over bCount |
| `Otsu.ClassBMeanIsSuffixMean` | notebooks/otsu_water_detection.py:68-69 | bMean equals the weighted mean of buckets i..N-1 computed directly |
| `Otsu.VarianceNonNegative` | notebooks/otsu_water_detection.py:72-73 | every between-class variance is non-negative |
| `Otsu.BssNonNegative` | notebooks/otsu_water_detection.py:72-76 | every entry of `bss` is non-negative |
| `Otsu.ThresholdMaximizesVariance` | notebooks/otsu_water_detection.py:72-79 | the threshold is means[k] for a split k whose variance is at least that of every split and strictly greater than that of every later split (last index wins ties) |
| `Otsu.ThresholdIsBucketMean` | notebooks/otsu_water_detection.py:79 | a successful threshold is always one of the input bucket means |
| `Otsu.AllEmptyPicksLastMean` | notebooks/otsu_water_detection.py:45-79 | a well-formed histogram that counts no pixels gets every split variance 0, and the threshold is the last bucket mean |
| `Otsu.TwoMassClasses` | notebooks/otsu_water_detection.py:60-69 | when only buckets p < q hold pixels, every split between them has class A equal to the first mass and class B equal to the second, counts and means |
| `Otsu.TwoMassOneSided` | notebooks/otsu_water_detection.py:58-73 | when only buckets p < q hold pixels, a split that puts both masses in the same class has variance 0 |
| `Otsu.TwoMassSeparating` | notebooks/otsu_water_detection.py:58-73 | every split between the two masses has the variance of the two-population mixture |
| `Otsu.MixtureVariancePositive` | notebooks/otsu_water_detection.py:72-73 | two populations of pixels at different means have a positive between-class variance |
| `Otsu.TwoMassesThreshold` | notebooks/otsu_water_detection.py:33-79 | when only buckets p < q hold pixels, at different means, the threshold is means[q - 1], the last bucket before the second mass |
| `Otsu.TwoClassMixture` | notebooks/otsu_water_detection.py:33-79 | for any a > 0 pixels at m1 and b > 0 pixels at m2 != m1 in two adjacent buckets, the separating split finds both classes' counts and means exactly, and the threshold is m1 |
| `Otsu.SeparatedMasses` | notebooks/otsu_water_detection.py:33-79 | 100 pixels at -20, an empty bucket at -15 and 50 pixels at -10 give the threshold -15, the empty bucket's mean |
| `Otsu.SparseMiddleBucket` | notebooks/otsu_water_detection.py:72-79 | when two splits tie for the largest variance, the later split's mean is returned |
| `WardThresholds.SolveOrFallback` | notebooks/otsu_water_detection.py:155-159 | a ward's threshold is the solver's value when the solve succeeds, and -15 when there is no histogram of the filtered band or the solve fails |
| `WardThresholds.SolveOrFallbackRange` | notebooks/otsu_water_detection.py:155-159 | every ward threshold is either -15 or one of the ward's own bucket means |
| `WardThresholds.AllZeroWardTakesLastMean` | notebooks/otsu_water_detection.py:155-159 | a ward whose well-formed histogram counts no pixels does not fall back: it gets the last bucket mean |
| `WardThresholds.AnnotateWard` | notebooks/otsu_water_detection.py:140-164 | the annotated feature keeps the ward's `ward_id` property, present or not, and always carries `otsu_threshold`, whose value is the solved-or-fallback threshold, so the table's default never applies to it |
| `WardThresholds.PropertyThreshold` | notebooks/otsu_water_detection.py:175 | a feature without `otsu_threshold` reads as -15, and one with it reads its value |
| `WardThresholds.BuildThresholdTable` | notebooks/otsu_water_detection.py:172-176 | the loop fails iff some feature has no `ward_id`, which the subscript at :174 demands; otherwise it produces the table that folding the features in order gives |
| `WardThresholds.TableOf` | notebooks/otsu_water_detection.py:172-176 | the table has exactly one entry per ward id among the features; which entry is stated by `WardThresholds.TableLastWins` |
| `WardThresholds.TableLastWins` | notebooks/otsu_water_detection.py:172-176 | the entry of an id is the property threshold of the last feature with that id, so later duplicates overwrite earlier ones |
| `WardMask.Lt` | notebooks/otsu_water_detection.py:216 | a pixel is classified 1 iff it is strictly below the threshold |
| `WardMask.LtImage` | notebooks/otsu_water_detection.py:112 | the classified image has one bit per pixel, 1 exactly where the pixel is below the threshold |
| `WardMask.Clip` | notebooks/otsu_water_detection.py:216 | a clipped mask is 1 only inside the geometry, where it keeps the mask's value |
| `WardMask.Or` | notebooks/otsu_water_detection.py:219 | the OR of two masks is 1 exactly where either is 1 |
| `WardMask.Zeros` | notebooks/otsu_water_detection.py:207 | the starting mask is 0 at every pixel |
| `WardMask.GeometryOf` | notebooks/otsu_water_detection.py:212-213 | the lookup finds a geometry iff some ward has the id, and the geometry found is that of the first ward with the id |
| `WardMask.WaterMask` | notebooks/otsu_water_detection.py:207-221 | one bit per pixel; the bit is 1 iff some ward of the table contains the pixel and the pixel is below that ward's threshold, the union of the per-ward clipped masks (`WardMask.WaterMaskIsUnion`), and 0 outside every ward (`WardMask.OutsideEveryWardIsLand`); the loop computes it (`WardMask.DetectWaterWithWardThresholds`) |
| `WardMask.DetectWaterWithWardThresholds` | notebooks/otsu_water_detection.py:207-221 | fails iff some ward id of the table has no ward; otherwise a pixel is 1 iff some ward of the table contains it and it is below that ward's threshold; the result does not depend on the iteration order |
| `WardMask.LtStrict` | notebooks/otsu_water_detection.py:276 | a pixel equal to the threshold is land; one strictly below is water |
| `WardMask.OutsideEveryWardIsLand` | notebooks/otsu_water_detection.py:207-219 | a pixel in no ward is 0 in the combined mask |
| `WardMask.WaterMaskIsUnion` | notebooks/otsu_water_detection.py:210-219 | the combined mask is the union of the per-ward clipped masks |
| `WardMask.TwoHalves` | notebooks/otsu_water_detection.py:189-221 | with wards on the two halves of an image, thresholds -16 and -14, and pixels -18 and -12, the left half is water and the right half land |
| `WaterFrequency.Frequency` | notebooks/otsu_water_detection.py:311-312 | one value per pixel; over no masks the unguarded division gives 0 at every pixel; the values are fractions of acquisitions (`WaterFrequency.FrequencyIsFraction`) |
| `WaterFrequency.WaterSumCountsSamples` | notebooks/otsu_water_detection.py:312 | the per-pixel sum counts the acquisitions in which the pixel was water |
| `WaterFrequency.WaterSumBounded` | notebooks/otsu_water_detection.py:312 | the per-pixel sum is at most the number of masks |
| `WaterFrequency.FrequencyIsFraction` | notebooks/otsu_water_detection.py:311-312 | the frequency at a pixel is (masks with 1 there) / N, and lies in [0, 1] |
| `WaterFrequency.AlwaysWater` | notebooks/otsu_water_detection.py:312 | a pixel that is 1 in every mask has frequency 1 |
| `WaterFrequency.NeverWater` | notebooks/otsu_water_detection.py:312 | a pixel that is 0 in every mask has frequency 0 |
| `WaterFrequency.AlternatingHalf` | notebooks/otsu_water_detection.py:312 | a pixel alternating 1, 0 over an even number of masks has frequency 0.5 |
| `Bands.SelectBand` | notebooks/otsu_water_detection.py:16-25 | VV is chosen iff present; VH iff VV is absent and VH present; HH iff both are absent |
| `Bands.SelectBandIsFirstPreferred` | notebooks/otsu_water_detection.py:16-25 | the chosen band is the first of VV, VH, HH that the image has, with HH taken by default |
| `Bands.FilteredBandName` | notebooks/otsu_water_detection.py:28 | the filtered name is the band name followed by `_filtered` |
| `Bands.FilteredBandNameInjective` | notebooks/otsu_water_detection.py:28 | different bands get different filtered names |
| `FloodRisk.RiskColor` | qgis/kolkata_flood_risk.qgz.py:21-26 | high-risk wards get (255, 0, 0, 180); other medium-risk wards (255, 165, 0, 180); every remaining ward (0, 255, 0, 100) |
| `FloodRisk.RiskListsDisjoint` | qgis/kolkata_flood_risk.qgz.py:11-12 | no ward number is in both lists |
| `FloodRisk.ListedWardColor` | qgis/kolkata_flood_risk.qgz.py:11-26 | every listed ward gets the colour of its own list, whatever the order of the tests |
| `FloodRisk.BuildCategories` | qgis/kolkata_flood_risk.qgz.py:15-32 | one category per feature, in feature order, with the ward number as value, its risk colour and `str` of the number as label |
| `FloodRisk.NatToString` | qgis/kolkata_flood_risk.qgz.py:31 | a label is a non-empty string of decimal digits with no leading zero |
| `FloodRisk.IntToString` | qgis/kolkata_flood_risk.qgz.py:31 | a label is non-empty and parses back to its ward number, negative numbers included |
| `FloodRisk.LabelsDistinct` | qgis/kolkata_flood_risk.qgz.py:31 | different ward numbers get different labels |
| `FloodRisk.LabelExamples` | qgis/kolkata_flood_risk.qgz.py:31 | the labels of 7, 61 and 110 are "7", "61" and "110" |

## Left out

- Earth Engine calls are not modelled:
  - histogram reduction (255 buckets, `bestEffort`, `maxPixels`);
  - the 100 m focal-median speckle filter;
  - temporal mean compositing;
  - `getInfo`;
  - `ImageCollection.map`, including `apply_otsu_to_collection`, which maps the mask synthesis over every image.

  Histograms, images and ward geometries are inputs to the model.
- `WardMask.DetectWaterWithWardThresholds`: `clip` in the host masks the pixels outside the geometry, and the model makes them 0 instead. If the host's `Or` masks a pixel whenever either input is masked there, the fold at notebooks/otsu_water_detection.py:219 keeps only pixels that lie inside every ward of the table, not the union of the wards the model proves. The model does not capture host masking, so it does not decide which of the two the host produces.
- IEEE floating point, including NaN and infinity from the unguarded divisions, is not modelled. Arithmetic is exact, and x / 0 is taken to be 0.
- The sort: `Array.sort` is taken to be a stable ascending sort. The model sorts by insertion and does not depend on the host's algorithm beyond stability.
- `WardThresholds.SolveOrFallback`: the model applies the -15 fallback to the ward whose solve fails. In the source, the `try`/`except` at notebooks/otsu_water_detection.py:155-159 runs once, while `wards_fc.map` traces `calculate_ward_threshold`, and it catches only errors raised while the lazy expression is built. An error the server raises when it evaluates a ward's solve is raised by `getInfo()` at :170 instead, which then fails for all wards, and the fallback never applies. The model does not capture this deferred failure. Two further readings, neither confirmed from the text, would make the fallback apply to every ward instead. First, :45-46 call `.get` on the value `histogram.get(...)` returns, without casting it to a dictionary; if that computed object has no `get` method, the call raises while the map is traced and the bare `except` at :157 catches it. Second, :146-152 use the single-output `histogram(255, 2)` reducer without combining it with another, so the output key may be `VV_filtered` rather than the `VV_filtered_histogram` that :156 reads (:98-101 combine reducers before reading a `_histogram` key).
- `WaterFrequency.Frequency`: the model divides exactly. The masks are integer images and `water_count` is an integer, so the host may divide integers and truncate every frequency below 1 to 0. The model does not capture the host's pixel types.
- Logging is not modelled: every `print`, and the min/max/mean/std summary of the thresholds.
- The `threshold_calculated` flag and the `system:time_start` property are not modelled.
- `detect_water_otsu_per_ward` and `detect_water_otsu_simple` are not modelled as wholes: their histogram calls belong to the host. Their classification step is `WardMask.LtImage`.
- QGIS and PyQt plumbing is not modelled: the active layer, symbols, the renderer, labelling settings and repainting.
- `FloodRisk.BuildCategories`: the `WARD` field is taken to be an integer. The source's `int(ward_no)` conversion of a textual field, and its failure on non-numeric text, are not modelled.
- `Bands.SelectBand`: choosing HH does not check that the image has an HH band. The source does not check either, and the host's failure on a missing band is not modelled.
