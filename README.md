# sar-wildfire-burnscar in Dafny

A model of the discrete logic of the Sentinel-1 burn-scar pipeline, with proofs about it. The model covers three parts of the pipeline:

- **Change detection** (`src/processing/change_detection.py`). It computes the change raster `10*log10(b3) - 10*log10(b1)`:
  - non-positive intensities are guarded by 1e-10;
  - non-finite values are clamped to 0;
  - a named speckle filter is applied;
  - the output profile is updated.
- **Vectorisation** (`src/processing/vectorize.py`). It optionally cleans the burn mask with a 3x3 opening and then closing. It then writes either an empty layer or one feature per traced polygon, with its area in hectares.
- **Acquisition helpers** (`src/cli/download_s1.py`). These build the WKT polygon of the bounding box and choose scenes from the numbers typed at the prompt.

Modules, one file each:

| file | module | what it holds |
|---|---|---|
| `results.dfy` | `Results` | `Option` and `Result` |
| `grids.dfy` | `Grids` | 2-D grids as `seq<seq<T>>`, the threshold mask `abs(x) > t`, and `np.where(mask, x, 0)` |
| `samples.dfy` | `Samples` | float samples `Finite / NaN / PosInf / NegInf`, the epsilon guard, IEEE `log10` and `-`, and the finite clamp |
| `order_statistics.dfy` | `OrderStatistics` | sorting, and the median as the order statistic of rank `n // 2` |
| `binary_morphology.dfy` | `BinaryMorphology` | scipy `binary_erosion` / `binary_dilation` / opening / closing with a k x k square, using scipy's centring for even k and `border_value=0` |
| `components.dfy` | `Components` | 4-connected components, as the least closed set grown from a cell; `ndimage.label` as a raster-order labelling; the `Kept` mask |
| `mapping_unit.dfy` | `MappingUnit` | the in-place removal loop of the `minimum_mapping_unit` branch on an `array2<bool>` |
| `filters.dfy` | `Filters` | `apply_filters`: every branch, the median filter with the reflect border, and the keyword defaults |
| `change_detection.dfy` | `ChangeDetection` | `calculate_change_detection` up to the write |
| `grey_morphology.dfy` | `GreyMorphology` | skimage grey opening and closing with `square(3)`, and `_clean` |
| `paths.dfy` | `Paths` | POSIX `pathlib.Path` normalisation |
| `vectorize.dfy` | `Vectorize` | `Config`, `_iter_polys`, `_ha` and `vectorize` |
| `text.dfy` | `Text` | `str.split`, `str.join`, `str.strip` and base-10 `int()` |
| `download_s1.dfy` | `DownloadS1` | `convect_bbox_to_wkt`, and the parse / select / decide logic of `download_selected_scenes` |

Conventions the model fixes:

- **Connected components.** `ndimage.label` is called without a structure, so components are **4-connected**: `ndimage.label`'s default structure is the cross, not the full 3x3 square (`src/processing/change_detection.py:65`).
- **Unknown filter names.** An unrecognised `filter_type` returns the data unchanged, and `'none'` skips filtering altogether. This is the final `else: return data` branch of `apply_filters` (`src/processing/change_detection.py:104-105`); no name raises an error.
- **Binary morphology (scipy).** Both erosion and dilation treat off-grid cells as 0. So opening never sets a cell, but closing can clear set cells on the border of the grid. `BinaryMorphology.ClosingClearsBorder` shows this.
- **Grey morphology (skimage).** skimage reads outside cells through its default `reflect` mode, which repeats the edge cell. With a 3x3 square, the window of a cell is therefore exactly its in-grid 3x3 neighbourhood.
- **NaN in the guard.** NaN passes the epsilon guard, because numpy's `NaN <= 0` is false. The clamp then turns any NaN result into 0.
- **Uninterpreted operations.** Five operations are parameters of the model, not definitions in it:
  - `log10` of a positive finite value;
  - Gaussian smoothing, which also stands for the bilateral branch;
  - polygon tracing (`rasterio.features.shapes`);
  - the shapely operations `is_valid`, `make_valid` and `area`;
  - Python's `str` of a float, used in the WKT text of a bounding box.
- **I/O comes in as arguments.** The raster read from disk, the mask loaded by rasterio and the line typed at the scene prompt are all arguments.

## Model

| member | source | states |
|---|---|---|
| Grids.Threshold | src/processing/change_detection.py:45 | defines `np.abs(data) > threshold` (also lines 62 and 95) cell by cell; `ThresholdExact` characterises it |
| Grids.Where | src/processing/change_detection.py:54 | defines `np.where(mask, data, 0)` (also lines 73 and 100) cell by cell; `Filters.MaskingKeepsOrZeroes` characterises it |
| Grids.ThresholdExact | src/processing/change_detection.py:45 | the threshold mask has the data's shape and holds exactly where `x > t` or `x < -t` (strict) |
| Samples.LogRatio | src/processing/change_detection.py:138-141 | defines `10*log10(b3) - 10*log10(b1)` on one pair of samples, with IEEE NaN and infinity cases spelled out; `GuardedRatioFiniteIff` and `TenfoldRatioIsTen` characterise it |
| Samples.Clamp | src/processing/change_detection.py:144 | defines `np.where(np.isfinite(c), c, 0)` on one sample; `ClampRetracts` characterises it |
| Samples.Guard | src/processing/change_detection.py:134-136 | a guarded sample is never `<= 0`, and a sample that was not `<= 0` is unchanged |
| Samples.GuardedIsPositiveOrNaN | src/processing/change_detection.py:134-136 | after the guard a finite sample is strictly positive, no sample is -inf, and NaN stays NaN exactly when it was NaN |
| Samples.GuardedRatioFiniteIff | src/processing/change_detection.py:134-141 | the guarded log-ratio is finite if and only if neither band sample is NaN or +inf |
| Samples.ClampRetracts | src/processing/change_detection.py:144 | the clamp is a retraction onto the finite values: a nonzero output cell is exactly the computed finite change, an output 0 means nodata or a true 0, and clamping the output again changes nothing |
| Samples.TenfoldRatioIsTen | src/processing/change_detection.py:138-144 | a tenfold intensity increase yields a change value of exactly 10 dB |
| OrderStatistics.Insert | src/processing/change_detection.py:32 | inserting into a sorted window keeps it sorted and adds exactly the new sample |
| OrderStatistics.Sort | src/processing/change_detection.py:32 | the sorted window is sorted and a permutation of the window |
| OrderStatistics.SortCounts | src/processing/change_detection.py:32 | sorting keeps the number of samples below and at most every value |
| OrderStatistics.SortedRank | src/processing/change_detection.py:32 | in a sorted window, element r has at most r samples below it and at least r+1 at or below it |
| OrderStatistics.Median | src/processing/change_detection.py:32 | defines the median of a window as the element of rank `len // 2` of its sorted samples, the rank scipy's `median_filter` takes; `MedianIsRankStatistic` and `MedianOfConstant` characterise it |
| OrderStatistics.MedianIsRankStatistic | src/processing/change_detection.py:32 | the median is a window sample with at most n//2 samples strictly below it and more than n//2 at or below it |
| OrderStatistics.MedianOfConstant | src/processing/change_detection.py:32 | the median of a constant window is that constant |
| BinaryMorphology.Erode | src/processing/change_detection.py:50-51 | defines `binary_erosion` with a k x k structure of ones: a cell is set when the whole footprint starting at `i - k/2` lies on set in-grid cells (off-grid reads as 0); `ErodeMonotone` and `OpenShrinks` characterise it |
| BinaryMorphology.Dilate | src/processing/change_detection.py:50-51 | defines `binary_dilation` with the reflected k x k footprint: a cell is set when some footprint cell is set and in the grid; `DilateMonotone` and `OpenShrinks` characterise it |
| BinaryMorphology.Open | src/processing/change_detection.py:50 | defines `binary_opening` as dilation after erosion; `OpenShrinks` and `OpenCloseMonotone` characterise it |
| BinaryMorphology.Close | src/processing/change_detection.py:51 | defines `binary_closing` as erosion after dilation; `OpenCloseMonotone` and `ClosingClearsBorder` characterise it |
| BinaryMorphology.OpenShrinks | src/processing/change_detection.py:50 | binary opening never sets a clear cell |
| BinaryMorphology.ErodeMonotone | src/processing/change_detection.py:50-51 | erosion of a smaller mask lies within erosion of a larger one |
| BinaryMorphology.DilateMonotone | src/processing/change_detection.py:50-51 | dilation of a smaller mask lies within dilation of a larger one |
| BinaryMorphology.OpenCloseMonotone | src/processing/change_detection.py:50-51 | opening and closing preserve mask inclusion |
| BinaryMorphology.ClosingClearsBorder | src/processing/change_detection.py:51 | with border value 0, closing a fully set 3x3 mask with a 3x3 square clears its corner: closing is not extensive at the border |
| Components.ComponentOf | src/processing/change_detection.py:65 | defines the 4-connected component of a cell as the growth of `{p}` iterated once per mask cell; `ComponentIsClosed`, `ComponentLeast` and `SameComponent` characterise it |
| Components.Labels | src/processing/change_detection.py:65 | defines the labels of `ndimage.label` as the components met in a raster scan, in order of first cell; `LabelsCorrect` characterises it |
| Components.Kept | src/processing/change_detection.py:62-73 | defines the mask left after the minimum-mapping-unit loop: set cells whose component has at least `min_pixels` cells; `KeptWholeComponents`, `KeptWithin`, `KeptAntitone` and `MappingUnit.RemovedByAllLabels` characterise it |
| Components.IterateWithin | src/processing/change_detection.py:65 | growing a set of true cells keeps the start set and stays within the true cells |
| Components.IterateGrowsOrSettles | src/processing/change_detection.py:65 | after n rounds of growth the set has either settled or gained at least n cells |
| Components.IterateLeast | src/processing/change_detection.py:65 | growth from inside a closed set never leaves it |
| Components.ComponentIsClosed | src/processing/change_detection.py:65 | the component of a true cell contains it, consists of true cells and is closed under 4-adjacency |
| Components.ComponentLeast | src/processing/change_detection.py:65 | the component is contained in every closed set holding the cell |
| Components.SameComponent | src/processing/change_detection.py:65 | every cell of a component has that same component |
| Components.ScanCellsExact | src/processing/change_detection.py:65 | the raster scan lists exactly the true cells of the rows from i on |
| Components.LabelScanCorrect | src/processing/change_detection.py:65 | labelling a list of true cells gives pairwise disjoint labels covering them, each the component of its cells |
| Components.NewLabel | src/processing/change_detection.py:65 | opening a label for an unlabelled true cell with its component keeps the labels disjoint, covering and exact |
| Components.LabelsCorrect | src/processing/change_detection.py:65 | `ndimage.label`'s labels are disjoint 4-connected components covering every true cell |
| Components.KeptWholeComponents | src/processing/change_detection.py:62-73 | every cell of a component of at least `min_pixels` cells survives, and no cell of a smaller one does |
| Components.KeptWithin | src/processing/change_detection.py:68-71 | only set cells survive the removal |
| Components.KeptAntitone | src/processing/change_detection.py:68-71 | raising `min_pixels` never keeps more cells |
| Components.KeptAllWhenSmall | src/processing/change_detection.py:68-71 | with `min_pixels <= 1` nothing is removed |
| MappingUnit.RemovedByExists | src/processing/change_detection.py:68-71 | a cell is removed by the first k iterations if and only if one of the first k labels is smaller than `min_pixels` and holds it |
| MappingUnit.RemovedByAllLabels | src/processing/change_detection.py:68-71 | the loop over all labels removes exactly the true cells whose component is smaller than `min_pixels` |
| MappingUnit.ClearCells | src/processing/change_detection.py:71 | `binary_mask[component_mask] = False` clears exactly the given cells and leaves every other cell as it was |
| MappingUnit.RemoveSmallComponents | src/processing/change_detection.py:65-71 | after the loop over labels the array holds exactly the `Kept` mask of its old contents |
| MappingUnit.MinimumMappingUnit | src/processing/change_detection.py:56-73 | the branch computed on an array in place equals the data masked by the surviving whole components of `abs(x) > t` |
| Filters.MedianFilter | src/processing/change_detection.py:29-32 | defines `median_filter(data, size)`: the median of the reflect-bordered k x k window at every cell, and a failure for `size < 1`; `MedianFilterShape` and `OrderStatistics.MedianIsRankStatistic` characterise it |
| Filters.MorphologicalMask | src/processing/change_detection.py:44-51 | defines the mask of the morphological branch: the threshold mask, opened then closed when `structure_size > 0`; `MorphologicalWithoutStructure` characterises it |
| Filters.CombinedMask | src/processing/change_detection.py:95-98 | defines the mask of the combined branch: the threshold mask of the smoothed data, opened only, when `structure_size > 0`; `CombinedOnlyOpens` characterises it |
| Filters.MappingUnitFilter | src/processing/change_detection.py:58-73 | defines the minimum-mapping-unit branch as `np.where(kept, data, 0)`; `MappingUnitWholeComponents`, `MappingUnitAntitone` and `MappingUnitRemovesNothing` characterise it, and `MappingUnit.MinimumMappingUnit` computes it with the loop |
| Filters.ApplyFilters | src/processing/change_detection.py:19-105 | defines `apply_filters`: one branch per filter name with the source's keyword defaults and `filter_type='median'` as the default, and the data returned unchanged for any other name; `FiltersKeepShape`, `UnrecognisedIsIdentity`, `MaskingKeepsOrZeroes` and `CombinedOnlyOpens` characterise it |
| Filters.FilterNamesRoundTrip | src/processing/change_detection.py:29-105 | exactly the six known names select a branch, and a branch's name selects it again |
| Filters.Reflect | src/processing/change_detection.py:32 | defines scipy's default `reflect` border for `median_filter` (the edge cell repeated, period 2n); `ReflectInRange` characterises it |
| Filters.FilterTypeOf | src/processing/change_detection.py:29-105 | defines the branch the `if`/`elif` chain on `filter_type` selects, with any other name falling to the `else`; `FilterNamesRoundTrip` characterises it |
| Filters.Window | src/processing/change_detection.py:32 | the median window of a positive size is never empty |
| Filters.ReflectInRange | src/processing/change_detection.py:32 | the reflect border only ever reads cells inside the grid |
| Filters.UnrecognisedIsIdentity | src/processing/change_detection.py:104-105 | an unrecognised filter name returns the data unchanged |
| Filters.MedianFilterShape | src/processing/change_detection.py:29-32 | the median filter fails exactly for size < 1 and otherwise keeps the data's shape |
| Filters.WindowOfConstant | src/processing/change_detection.py:32 | every sample of a window of a constant grid is that constant, the border included |
| Filters.MedianOfConstantGrid | src/processing/change_detection.py:29-32 | the median filter of a constant array returns the same array |
| Filters.MaskingKeepsOrZeroes | src/processing/change_detection.py:39-73 | `morphological` and `minimum_mapping_unit` keep the shape, and each output cell is 0 or exactly the input value there |
| Filters.MorphologicalWithoutStructure | src/processing/change_detection.py:48-54 | with `structure_size <= 0` the morphological branch is plain threshold masking |
| Filters.CombinedOnlyOpens | src/processing/change_detection.py:81-102 | `combined` masks the smoothed median by the opened threshold mask: a nonzero output is the smoothed value, which exceeds the threshold in magnitude |
| Filters.FiltersKeepShape | src/processing/change_detection.py:19-105 | with a shape-preserving smoother every branch returns a grid of the data's shape |
| Filters.MappingUnitRemovesNothing | src/processing/change_detection.py:68-73 | with `min_pixels <= 1` the branch equals plain threshold masking |
| Filters.MappingUnitAntitone | src/processing/change_detection.py:68-73 | a cell nonzero under a larger `min_pixels` is nonzero, with the same value, under a smaller one |
| Filters.MappingUnitWholeComponents | src/processing/change_detection.py:62-73 | a component of at least `min_pixels` cells keeps all its values and a smaller one is zeroed entirely |
| ChangeDetection.ReadBand | src/processing/change_detection.py:127-128 | defines `src.read(band)`: the band for a number in 1 .. count, and an error naming the band otherwise; `CalculateChangeDetection` states both outcomes |
| ChangeDetection.GuardBand | src/processing/change_detection.py:134-136 | defines the epsilon guard on a whole band, cell by cell with `Samples.Guard` |
| ChangeDetection.ChangeGrid | src/processing/change_detection.py:133-144 | defines the change raster: guard both bands, take the dB difference, clamp non-finite cells to 0; `ChangeGridCells` and `TenfoldBandIsConstantTen` characterise it |
| ChangeDetection.UpdateProfile | src/processing/change_detection.py:152-156 | the profile gains `count = 1`, `dtype = float32`, `nodata = 0`, and every other entry is unchanged |
| ChangeDetection.CalculateChangeDetection | src/processing/change_detection.py:107-156 | with the source's defaults `band1=1`, `band3=3`, `filter_type='median'` and no filter parameters: a missing band fails with its number; otherwise the clamped guarded log-ratio is filtered unless the name is `'none'`, a filter failure is reported, and the profile is updated |
| ChangeDetection.ChangeGridCells | src/processing/change_detection.py:134-144 | each unfiltered change cell is the finite log-ratio when neither intensity is NaN or +inf, and 0 otherwise |
| ChangeDetection.TenfoldBandIsConstantTen | src/processing/change_detection.py:138-144 | a post-event band ten times the pre-event band gives a change raster of 10 everywhere |
| GreyMorphology.Erode | src/processing/vectorize.py:52 | defines grey erosion with `square(3)`: the minimum of each cell's in-grid 3x3 window; `OpenBelow`, `BinaryStaysBinary` and `ErodeDilateMonotone` characterise it |
| GreyMorphology.Dilate | src/processing/vectorize.py:52 | defines grey dilation with `square(3)`: the maximum of each cell's in-grid 3x3 window; `CloseAbove`, `BinaryStaysBinary` and `ErodeDilateMonotone` characterise it |
| GreyMorphology.Open | src/processing/vectorize.py:52 | defines `opening(mask, square(3))` as dilation after erosion; `OpenBelow` characterises it |
| GreyMorphology.Close | src/processing/vectorize.py:52 | defines `closing(mask, square(3))` as erosion after dilation; `CloseAbove` characterises it |
| GreyMorphology.Clean | src/processing/vectorize.py:49-52 | defines `_clean` as closing after opening; `CleanBinary` and `CleanMonotone` characterise it |
| GreyMorphology.Min | src/processing/vectorize.py:52 | the minimum is a sample of the window and at most every sample |
| GreyMorphology.Max | src/processing/vectorize.py:52 | the maximum is a sample of the window and at least every sample |
| GreyMorphology.WindowHolds | src/processing/vectorize.py:51-52 | every in-grid cell within one row and one column is in the 3x3 window |
| GreyMorphology.WindowFrom | src/processing/vectorize.py:51-52 | every sample of the 3x3 window comes from an in-grid cell within one row and one column |
| GreyMorphology.ErodeDilateShape | src/processing/vectorize.py:52 | grey erosion and dilation keep the mask's shape |
| GreyMorphology.OpenBelow | src/processing/vectorize.py:52 | opening never raises a value, so it never turns a 0 into a 1 |
| GreyMorphology.CloseAbove | src/processing/vectorize.py:52 | closing never lowers a value, so it never turns a 1 into a 0 |
| GreyMorphology.BinaryStaysBinary | src/processing/vectorize.py:52 | erosion and dilation of a 0/1 mask give 0/1 masks |
| GreyMorphology.CleanBinary | src/processing/vectorize.py:49-52 | cleaning a 0/1 mask gives a 0/1 mask |
| GreyMorphology.MinMaxMonotone | src/processing/vectorize.py:52 | minimum and maximum are monotone in the window |
| GreyMorphology.ErodeDilateMonotone | src/processing/vectorize.py:52 | grey erosion and dilation are monotone |
| GreyMorphology.CleanBetween | src/processing/vectorize.py:49-52 | `_clean(mask)` lies between the opening and the closing of the mask |
| GreyMorphology.CleanShape | src/processing/vectorize.py:49-52 | `_clean` keeps the mask's shape |
| GreyMorphology.ZeroStaysZero | src/processing/vectorize.py:52 | an all-zero mask stays all zero under erosion and dilation |
| GreyMorphology.LonePixelErodes | src/processing/vectorize.py:52 | erosion with `square(3)` clears a lone set pixel of `[[1, 0]]` |
| GreyMorphology.CleanMonotone | src/processing/vectorize.py:49-52 | if mask A lies pointwise below B, then clean(A) lies below clean(B) |
| Paths.Render | src/processing/vectorize.py:30-32 | defines the text of a normal path: `/` then the parts for an absolute path, `.` for an empty relative one, the parts joined by `/` otherwise; `ParseRender` and `NormaliseTwice` characterise it |
| Paths.Parse | src/processing/vectorize.py:30-32 | a path built from text has only proper components |
| Paths.ToPath | src/processing/vectorize.py:30-32 | `Path(text)` is always a normal path (no empty or `.` components), and `Path` of a path returns it unchanged |
| Paths.KeepProperComponents | src/processing/vectorize.py:30-32 | proper components are all kept |
| Paths.TextOfPathConverts | src/processing/vectorize.py:30-32 | `Path(str(p)) == Path(p)` for every normal path, a corollary of `ParseRender` stated through `Path(...)` |
| Paths.ParseRender | src/processing/vectorize.py:30-32 | reading the text of a normalised path back gives the same path |
| Paths.NormaliseTwice | src/processing/vectorize.py:30-32 | normalisation is idempotent: `Path(str(Path(x))) == Path(x)` |
| Vectorize.Prepared | src/processing/vectorize.py:72-74 | defines the mask that is traced: `_clean(mask)` when `clean` is set, the loaded mask otherwise; `PreparedBinary`, `PreparedMonotone`, `PreparedBetween` and `CleanByDefault` characterise it |
| Vectorize.Repair | src/processing/vectorize.py:59-60 | defines `poly if poly.is_valid else make_valid(poly)`; `IterPolysRepairsEveryPair` and `IterPolysValid` characterise it |
| Vectorize.LayerOf | src/processing/vectorize.py:70-92 | defines the layer `vectorize` writes: the empty layer with columns `geometry` and `area_ha` when no cell is 1, otherwise one feature per traced polygon; `RunVectorize`, `EmptyExactlyWithoutOnes` and `OnlyOnesMatter` characterise it |
| Vectorize.MakeConfig | src/processing/vectorize.py:24-32 | both configuration paths are normalised, and paths already built are kept as they are |
| Vectorize.PreparedBetween | src/processing/vectorize.py:72-74 | cleaned or not, the traced mask lies cell by cell between the opening and the closing of the loaded mask |
| Vectorize.CleanByDefault | src/processing/vectorize.py:28-80 | the default `clean=True` changes the outcome: for the mask `[[1, 0]]` the default configuration finds no cell equal to 1 and writes the empty layer, while `clean=False` traces the pixel |
| Vectorize.Ones | src/processing/vectorize.py:57 | defines the `mask == 1` grid that is traced; `AnyOneOfOnes` and `OnlyOnesMatter` characterise it |
| Vectorize.IterPolys | src/processing/vectorize.py:55-60 | one polygon per traced pair with a nonzero value |
| Vectorize.IterPolysRepairsEveryPair | src/processing/vectorize.py:55-60 | each nonzero traced pair yields exactly one polygon at its position in order: the geometry if valid, its repair otherwise; none is dropped |
| Vectorize.IterPolysValid | src/processing/vectorize.py:58-60 | when repair always yields a valid geometry, every emitted geometry is valid |
| Vectorize.FeatureList | src/processing/vectorize.py:84-87 | one feature per polygon, in order, carrying that polygon and `area_ha * 10000 = area` |
| Vectorize.Hectares | src/processing/vectorize.py:63-65 | the area in hectares times 10000 is the area |
| Vectorize.RunVectorize | src/processing/vectorize.py:70-92 | the empty layer with columns `geometry`, `area_ha` is written exactly when no cell of the prepared mask equals 1; otherwise one feature per nonzero traced pair, with `area_ha * 10000 = area` |
| Vectorize.AnyOne | src/processing/vectorize.py:77 | defines `(mask == 1).any()`; `AnyOneOfOnes` and `EmptyExactlyWithoutOnes` characterise it |
| Vectorize.EmptyExactlyWithoutOnes | src/processing/vectorize.py:77-80 | the layer is empty if and only if no cell of the prepared mask equals 1 |
| Vectorize.PreparedMonotone | src/processing/vectorize.py:73-74 | cleaned or not, the prepared mask is monotone in the loaded mask: more set cells in never means fewer out |
| Vectorize.PreparedBinary | src/processing/vectorize.py:73-74 | a 0/1 loaded mask stays a 0/1 mask of the same shape after preparation, so `mask == 1` selects exactly its nonzero cells |
| Vectorize.AnyOneOfOnes | src/processing/vectorize.py:77 | the emptiness test depends only on the `mask == 1` grid |
| Vectorize.OnlyOnesMatter | src/processing/vectorize.py:57-58 | masks whose prepared (cleaned, when cleaning is on) versions agree on the cells equal to 1 give the same layer; this restates the modelling choice that the tracer sees only the `mask == 1` grid |
| Text.Split | src/cli/download_s1.py:75 | splitting always yields at least one part |
| Text.SplitParts | src/cli/download_s1.py:75 | splitting gives one more part than there are commas, and no part holds a comma |
| Text.JoinSplit | src/cli/download_s1.py:75 | joining the parts with the separator gives back the text |
| Text.SplitJoin | src/cli/download_s1.py:75 | splitting a join of separator-free parts gives back the parts |
| Text.TrailingSeparator | src/cli/download_s1.py:75 | text ending in the separator splits into a last part that is empty |
| Text.Strip | src/cli/download_s1.py:75 | defines `str.strip()` with no argument as trimming Python whitespace at both ends; `StripSlice`, `StripTrimmed` and `StripIdempotent` characterise it |
| Text.TrimStartDropsLeadingSpace | src/cli/download_s1.py:75 | trimming the start drops exactly a run of leading whitespace |
| Text.TrimEndDropsTrailingSpace | src/cli/download_s1.py:75 | trimming the end drops exactly a run of trailing whitespace |
| Text.StripSlice | src/cli/download_s1.py:75 | `strip` returns a slice with only whitespace outside it and no whitespace at its ends |
| Text.StripTrimmed | src/cli/download_s1.py:75 | text without whitespace at its ends is left alone |
| Text.StripIdempotent | src/cli/download_s1.py:75 | stripping twice is stripping once |
| Text.ParseLiteral | src/cli/download_s1.py:75 | a value is produced exactly for an optional sign followed by a digit literal of at most 4300 digits, CPython's default `int` digit limit |
| Text.ParseInt | src/cli/download_s1.py:75 | `int` succeeds exactly on a stripped integer literal of at most 4300 digits, and fails on empty or blank text |
| Text.NatToText | src/cli/download_s1.py:85 | the decimal text of a number is a non-empty run of digits |
| Text.NatToTextValue | src/cli/download_s1.py:75 | the decimal text of n is a digit literal of value n |
| Text.ParseIntToText | src/cli/download_s1.py:75 | `int(str(n)) == n` for every integer that `str` can print, i.e. with at most 4300 digits |
| Text.TooManyDigitsRejected | src/cli/download_s1.py:75 | a literal of 4301 digits is refused by `int`, although it is well formed |
| DownloadS1.BboxRing | src/cli/download_s1.py:62-64 | the ring has exactly five vertices and the last equals the first |
| DownloadS1.RingEnclosesBox | src/cli/download_s1.py:62-64 | the ring's signed area is (maxLon-minLon)*(maxLat-minLat), and it is counter-clockwise exactly when the two extents are non-zero and share a sign; no order of the corners is checked |
| DownloadS1.BboxToWkt | src/cli/download_s1.py:62-64 | defines the f-string of `convect_bbox_to_wkt`, with `str` of a float as a parameter; `WktListsRing` characterises it |
| DownloadS1.WktListsRing | src/cli/download_s1.py:63 | the WKT text, split at its commas, lists the five ring vertices in order |
| DownloadS1.TokenIndex | src/cli/download_s1.py:75 | defines `int(i.strip()) - 1` for one token, with `None` for the `ValueError`; `ParseIndices` and `NumberToken` characterise it |
| DownloadS1.SelectedIndices | src/cli/download_s1.py:74-78 | defines the parse of the typed line: split on commas, then every token through `TokenIndex`; `TrailingCommaRejected` and `NumbersRoundTrip` characterise it |
| DownloadS1.ParseIndices | src/cli/download_s1.py:74-78 | the input is accepted exactly when every token parses, and then each index is the token's integer minus 1, in order |
| DownloadS1.TrailingCommaRejected | src/cli/download_s1.py:74-78 | a trailing comma makes the whole input invalid |
| DownloadS1.NumbersRoundTrip | src/cli/download_s1.py:74-78 | typing numbers of at most 4300 digits separated by commas selects exactly those numbers minus one |
| DownloadS1.OverlongNumberRejected | src/cli/download_s1.py:74-78 | a token of 4301 digits makes `int` raise, so the line `"1, " + "1"*4301` is rejected as a whole |
| DownloadS1.Pick | src/cli/download_s1.py:80-83 | defines the scenes the selection loop appends, the in-range indices in order; `PickOrSkip`, `PickConcat`, `PickAllValid` and `PickEmptyIff` characterise it |
| DownloadS1.Skipped | src/cli/download_s1.py:84-85 | defines the scene numbers the selection loop reports as skipped, `i + 1` for each out-of-range index in order; `PickOrSkip` characterises it |
| DownloadS1.PickOrSkip | src/cli/download_s1.py:80-85 | every index is either selected or reported, and reported numbers are outside 1..len(results) |
| DownloadS1.PickConcat | src/cli/download_s1.py:80-85 | selection distributes over concatenated index lists, so input order is kept |
| DownloadS1.PickAllValid | src/cli/download_s1.py:80-85 | with all indices valid the selection is the results at those indices, duplicates kept |
| DownloadS1.PickEmptyIff | src/cli/download_s1.py:80-87 | nothing is selected exactly when no index is valid |
| DownloadS1.SelectScenes | src/cli/download_s1.py:80-85 | the loop selects the results at the valid indices in order and reports `i + 1` for the others |
| DownloadS1.DownloadSelectedScenes | src/cli/download_s1.py:66-92 | no results end before the prompt; an unparsable input ends without download; a download happens exactly when some index is valid and it receives the whole result list |

## Left out

- Raster and vector I/O are outside the model: reading rasters with rasterio, writing the GeoTIFF and the GeoJSON, and creating directories. Their data arrive as arguments or leave as results.
- `log10`, Gaussian smoothing and the bilateral branch are floating-point numerics. They are uninterpreted parameters, and samples are exact reals rather than IEEE doubles.
- The `float32` cast of the written raster and the printed statistics are output formatting and do not affect the result.
- Masked-array semantics of `src.read(masked=True)` are not modelled. `np.where` discards the mask, so the bands are plain grids.
- `rasterio.features.shapes` polygon tracing and the shapely geometry operations are foreign library code. They are parameters, and logging is omitted.
- Integer widths are not modelled: uint8 masks are grids of `nat`. Opening and closing only take minima and maxima of existing values, so no wrap-around can occur.
- `src/processing/preproc.py` is not part of this model. It is a wrapper around an external executable.
- `src/workflow.py` is not part of this model. It calls `preproc.coregister`, `change_detection.log_ratio` and `vectorize.mask_to_shp`, and none of those modules defines them (`src/workflow.py:18-20`).
- The network-bound parts of `src/cli/download_s1.py` are omitted: `authenticate`, the ASF search, the download itself and the `argparse` entry points. The prompt line and the result list are arguments, and the download is reported as an outcome.
- Text.ParseInt: accepts ASCII digits only. Python's `int` also accepts other Unicode decimal digits. The digit limit is CPython's default of 4300; a limit changed with `sys.set_int_max_str_digits` or `PYTHONINTMAXSTRDIGITS`, and interpreters without a limit, are not modelled.
- Paths.Parse: does not model POSIX pathlib's special case of exactly two leading slashes.
- Python's string formatting of floats in the WKT text is an abstract function, since number-to-text conversion is not modelled.
- DownloadS1.BboxRing: requires at least four bbox numbers. The source indexes `bbox[0..3]` without a check, and its command line always supplies four.
