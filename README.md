# Inundation risk: a verified model of the numerical core

This project models the numerical chain of the `inundation_risk` package,
which turns ground-motion measurements and a sea-level value into a
per-cell inundation-risk raster, and proves what that chain promises.

- **Per-point arithmetic** (`Analysis`, analysis.py):
  - Each point's velocity in mm/year is the slope of its fitted quadratic
    trend at the mean day offset of the acquisitions, times 365.25.
  - The ITRF2014 latitude correction can be added to it.
  - The velocity projects a displacement in metres over the years from
    the reference year to the target year.
  - The relative sea-level rise (RSLR) of a point is the sea-level rise
    less that displacement.
- **Inverse-distance weighting** (`Interpolation`, interpolation.py):
  - For every grid point, in row-major order, the neighbour query
    supplies 8 neighbour indices and distances.
  - The weights `1 / (d + 1e-8)` are normalised to sum to one.
  - The RSLR of a grid point is the weighted sum of its neighbours'
    RSLR values.
  - The values are reshaped to the grid and kept on coastal cells only
    (elevation below 5 m).
- **The risk grid** (`InundationRisk`, `compute_inundation_risk`):
  - The raw ratio `rslr / dem` is defined where both inputs are known and
    the elevation is non-zero.
  - Every negative ratio is repaired from the smallest odd window 3, 5, …
    around it that holds at least `min_valid` positive raw values. It
    becomes their mean, or undetermined when no window up to `max_window`
    suffices.
  - Windows are read from the untouched snapshot `risk_data`. Repairs are
    written to a separate `output` array.
  - The result is clipped to [0, 1], multiplied by 100 and rounded half
    to even.
- **Export helpers** (`Utils`, utils.py):
  - `build_transform`: the north-up affine transform.
  - The conversion of the risk grid to 8-bit pixels with a no-data value.
  - The loop that fills a 101-entry colour table from five anchor colours.

NaN is modelled as the explicit tag `Cell.Undetermined`, and every
quantity is a mathematical `real`. The operations the source writes as
loops are methods with loop invariants:

- the cell loop and the window loop of the repair;
- the per-row velocity loop;
- the colour-table loop.

The repair's `output` is an `array2` written in place, and the snapshot is
an immutable value. Each method is proved against a specification
function, and the properties are proved about those functions as lemmas.

Points where the code's behaviour is easy to misread:

- **Colour table.** The loop computes `lower` as the greatest key already
  in the table being filled, not the greatest anchor. Once key `i - 1`
  has been filled, every non-anchor key is therefore blended from key
  `i - 1` towards the next anchor. `Utils.Colour` defines exactly this.
  Truncation then accumulates: `ChainedBlendDiffersFromDirect` shows that
  key 28 gets green 243, where blending its two anchors directly gives 244.
- **Transform origin.** `build_transform` uses the first x and y
  coordinates themselves as the upper-left corner. The model keeps that.
- **Fewer than 8 known points.** The neighbour query asks for 8
  neighbours and the code has no path for fewer known points. The model
  therefore requires at least `K = 8` known values and well-formed
  neighbour lists.

## Model

| member | source | states |
|---|---|---|
| InundationRisk.Ratio | inundation_risk/analysis.py:88-89 | the raw ratio is defined iff rslr and dem are defined and dem is non-zero; then ratio times dem is rslr; it is negative iff rslr and dem have strictly opposite signs |
| InundationRisk.RawGrid | inundation_risk/analysis.py:88-90 | the snapshot `risk_data` is a rows x cols grid whose every cell is the raw ratio of its inputs |
| InundationRisk.WindowAt | inundation_risk/analysis.py:105-109 | the clipped window around (i, j) contains (i, j) and lies inside the grid |
| InundationRisk.WindowAtClipsToGrid | inundation_risk/analysis.py:105-111 | the window of size w around (i, j) holds exactly the grid cells within w // 2 rows and columns of (i, j), so it never reaches outside the grid |
| InundationRisk.WindowCells | inundation_risk/analysis.py:111 | the slice `risk_data[rmin:rmax, cmin:cmax]` has (rmax - rmin) * (cmax - cmin) entries, one per window cell |
| InundationRisk.WindowCellAt | inundation_risk/analysis.py:111 | window cell (r, c) sits in the slice at its row-major position (r - rmin) * (cmax - cmin) + (c - cmin), so each cell appears exactly once |
| InundationRisk.WindowCellsExact | inundation_risk/analysis.py:111 | the slice `risk_data[rmin:rmax, cmin:cmax]` holds exactly the values of the cells inside the window |
| InundationRisk.PositiveValues | inundation_risk/analysis.py:112 | `window[window > 0]` holds only positive values and no more values than the window |
| InundationRisk.PositiveValuesMultiplicity | inundation_risk/analysis.py:112-115 | `window[window > 0]` keeps each positive value as many times as it occurs in the window, so `len(positives)` and `positives.mean()` count every occurrence |
| InundationRisk.PositiveValuesExact | inundation_risk/analysis.py:112 | `window[window > 0]` keeps a value iff it is strictly positive and occurs in the window |
| InundationRisk.WindowPositivesExact | inundation_risk/analysis.py:105-112 | a value is among the positives of window w iff it is positive and a grid cell within w // 2 rows and columns of (i, j) holds it |
| InundationRisk.MeanOf | inundation_risk/analysis.py:115 | the mean is defined iff there is at least one value; it times the count is the sum; the mean of positive values is positive |
| InundationRisk.Search | inundation_risk/analysis.py:104-120 | a search from size w gives a value only when w does not exceed max_window |
| InundationRisk.SearchYieldsPositive | inundation_risk/analysis.py:112-115 | a window search over positive values gives a positive value or undetermined |
| InundationRisk.Repaired | inundation_risk/analysis.py:97-120 | a cell that is not negative keeps its raw value; a negative cell becomes undetermined or positive; no repaired cell is negative |
| InundationRisk.RepairGrid | inundation_risk/analysis.py:95-120 | every cell is repaired from the same snapshot; no negative value is left and every cell that was not negative keeps its value |
| InundationRisk.RepairUsesSmallestSufficientWindow | inundation_risk/analysis.py:104-117 | if odd w0 in 3..max_window holds min_valid positives and no smaller odd size does, the negative cell becomes the mean of w0's positives; no larger window is consulted |
| InundationRisk.RepairedValueHasWindow | inundation_risk/analysis.py:104-117 | conversely, a negative cell that gets a value got it as the mean of the positives of the smallest sufficient odd window w0 in 3..max_window |
| InundationRisk.SearchStopsAtFirstSufficient | inundation_risk/analysis.py:104-117 | the size loop from w returns the mean at the first sufficient size in steps of 2 |
| InundationRisk.SearchResultHasWindow | inundation_risk/analysis.py:104-117 | a defined search result comes from a first sufficient size between w and max_window |
| InundationRisk.SearchExhausted | inundation_risk/analysis.py:104-120 | when no size from w up to max_window suffices, the search ends undetermined |
| InundationRisk.RepairGivesUp | inundation_risk/analysis.py:119-120 | a negative cell with no sufficient odd window up to max_window becomes undetermined, never a default value |
| InundationRisk.NoWindowBelowThree | inundation_risk/analysis.py:104-120 | with max_window below 3 every negative cell becomes undetermined |
| InundationRisk.SearchReadsSizesUpToMax | inundation_risk/analysis.py:104 | the search depends only on the window sizes from w up to max_window |
| InundationRisk.RepairIsLocal | inundation_risk/analysis.py:95-115 | a cell's repair depends only on the raw snapshot within max_window // 2 of it, so it cannot depend on other cells' repairs or on the visiting order |
| InundationRisk.RepairIdempotent | inundation_risk/analysis.py:97-120 | repairing an already repaired grid changes nothing |
| InundationRisk.RepairExample | inundation_risk/analysis.py:104-117 | -0.3 with the positives 0.1, 0.2, 0.15, 0.25 and 0.3 in its 3 x 3 window becomes their mean 0.2 under the default arguments |
| InundationRisk.Scale | inundation_risk/analysis.py:124-125 | a score is defined iff the cell is; it is a whole number in 0..100 within one half of 100 * clip(x, 0, 1), and even when it is exactly one half away (numpy's half-to-even), which by `Common.RoundHalfEvenUnique` fixes it |
| InundationRisk.RiskGrid | inundation_risk/analysis.py:85-125 | every defined score is a whole number in 0..100, and only cells with known rslr and known non-zero dem get one |
| InundationRisk.RepairNegativeCell | inundation_risk/analysis.py:103-120 | the window loop with its `found` flag and `break` returns the window search from size 3 |
| InundationRisk.RepairNegatives | inundation_risk/analysis.py:95-120 | the cell loop leaves each cell of `output` holding the repair of the snapshot cell; cells that are not negative are unchanged |
| InundationRisk.ComputeInundationRisk | inundation_risk/analysis.py:85-125 | returns a fresh rows x cols array equal to the risk grid |
| Analysis.Earliest | inundation_risk/analysis.py:21 | `X.min()`: an acquisition day no later than any other |
| Analysis.DayOffsets | inundation_risk/analysis.py:21-22 | offsets are non-negative, at most the span, zero at the earliest day, and keep all differences between days |
| Analysis.MidDay | inundation_risk/analysis.py:34 | `np.mean(X_flat)`: the mid day lies within the acquisition span |
| Analysis.MidDayShiftInvariant | inundation_risk/analysis.py:21-34 | shifting every date by the same number of days changes neither the offsets nor the mid day |
| Analysis.SlopeIsDerivative | inundation_risk/analysis.py:33-37 | `2 a t + b` is the derivative of the fitted quadratic: the change over h days is h times the slope plus a h^2 |
| Analysis.SlopeIsCentralDifference | inundation_risk/analysis.py:33-37 | the slope equals the symmetric difference quotient of the trend around t |
| Analysis.PointVelocity | inundation_risk/analysis.py:33-46 | without the correction, the velocity is 365.25 times half the trend's change from the day before the mid day to the day after, a rate per year and not the derivative formula; with the correction it exceeds that by 0.0398 lat - 0.87 |
| Analysis.LatitudeCorrection | inundation_risk/analysis.py:45 | `-2e-4 lat + 0.04 lat - 0.87` is 0.0398 lat - 0.87 |
| Analysis.VelocityIsYearlyRate | inundation_risk/analysis.py:37-40 | the uncorrected velocity is 365.25 times the trend's central difference quotient around the mid day |
| Analysis.LinearTrendVelocity | inundation_risk/analysis.py:37-40 | a straight-line trend of b per day gives 365.25 b per year |
| Analysis.CorrectionIsAdditive | inundation_risk/analysis.py:42-46 | the corrected and uncorrected velocities differ by the latitude correction alone |
| Analysis.VelocityLinearInFit | inundation_risk/analysis.py:35-40 | the uncorrected velocity is linear in the fitted trend: a sum of trends gives the sum of their velocities, and a trend scaled by c gives c times the velocity |
| Analysis.SlopeLinearInFit | inundation_risk/analysis.py:37 | `2 a t + b` is additive and homogeneous in the coefficients |
| Analysis.CalcVelocities | inundation_risk/analysis.py:25-48 | the row loop gives one velocity per row, each from the row's own fit at the shared mid day, corrected when asked |
| Analysis.TotalYears | inundation_risk/analysis.py:70-72 | counting the years on from the reference year reaches current year + offset; they are positive exactly when that target year is after the reference year |
| Analysis.DefaultSpan | inundation_risk/analysis.py:57 | with the defaults 2011 and 10 the span is current year - 2001, positive from 2002 on |
| Analysis.Displacement | inundation_risk/analysis.py:75-76 | the displacement in metres times 1000 is velocity times years |
| Analysis.ProjectDisplacements | inundation_risk/analysis.py:70-76 | one displacement per velocity, all over the same number of years from the reference year to current year + offset |
| Analysis.DisplacementLinear | inundation_risk/analysis.py:75-76 | the displacement is additive and homogeneous in the velocity |
| Analysis.DisplacementSign | inundation_risk/analysis.py:75-76 | over a positive span the displacement is positive, negative or zero exactly when the velocity is |
| Analysis.Rslr | inundation_risk/analysis.py:81 | RSLR plus the displacement is the sea-level rise |
| Analysis.ComputeRslr | inundation_risk/analysis.py:79-82 | one RSLR per displacement |
| Analysis.RslrAntitone | inundation_risk/analysis.py:81 | more uplift gives less relative sea-level rise |
| Analysis.SubsidenceRaisesRslr | inundation_risk/analysis.py:70-81 | over a positive span a subsiding point sees more than the sea-level rise and a rising one sees less |
| Interpolation.Weight | inundation_risk/interpolation.py:22 | every weight is strictly positive and is the reciprocal of d + 1e-8 |
| Interpolation.Weights | inundation_risk/interpolation.py:22 | one weight per neighbour, each the weight of that neighbour's distance and strictly positive |
| Interpolation.WeightAntitone | inundation_risk/interpolation.py:22 | nearer neighbours weigh more, strictly so for strictly nearer ones; the drop is the distance difference times both weights |
| Interpolation.SumDivided | inundation_risk/interpolation.py:23 | dividing every weight by a total divides their sum by it |
| Interpolation.NormalisedWeights | inundation_risk/interpolation.py:23 | positive weights divided by their sum stay positive and sum to one |
| Interpolation.Normalise | inundation_risk/interpolation.py:23 | the normalised weights of a row are positive and sum to one |
| Interpolation.NormalisedEntry | inundation_risk/interpolation.py:23 | each normalised weight times the row total is the weight it came from |
| Interpolation.CoincidentOutweighs | inundation_risk/interpolation.py:22-23 | a neighbour at distance 0 outweighs a neighbour at distance D or more by the factor (D + 1e-8) / 1e-8 |
| Interpolation.CoincidentNeighbourDominates | inundation_risk/interpolation.py:22-23 | when every other neighbour is at least D away, a neighbour at distance 0 takes at least (D + 1e-8) / (D + n * 1e-8) of the weight |
| Interpolation.WeightedSumBounds | inundation_risk/interpolation.py:24 | with non-negative weights the weighted sum lies between the least and greatest value times the total weight |
| Interpolation.ConvexCombination | inundation_risk/interpolation.py:23-24 | weights that are non-negative and sum to one give a value between the least and the greatest neighbour value |
| Interpolation.IdwValue | inundation_risk/interpolation.py:22-24 | each interpolated value lies between the least and greatest value of its neighbours |
| Interpolation.IdwOfConstant | inundation_risk/interpolation.py:22-24 | neighbours that all carry v give v |
| Interpolation.InterpolatedPoints | inundation_risk/interpolation.py:21-24 | one interpolated value per grid point, in query order |
| Interpolation.GridPoints | inundation_risk/interpolation.py:13-15 | the meshgrid enumeration has one point per cell, len(y) * len(x) in all |
| Interpolation.GridPointAt | inundation_risk/interpolation.py:13-15 | grid point r * len(x) + c of the meshgrid enumeration is (x[c], y[r]) |
| Interpolation.Mask | inundation_risk/interpolation.py:33 | a cell keeps its value iff its elevation is known and below 5, and is undetermined otherwise |
| Interpolation.InterpolateRslr | inundation_risk/interpolation.py:9-33 | the raster has len(y) rows of len(x) cells, and a cell is defined iff it is coastal |
| Interpolation.InterpolatedCell | inundation_risk/interpolation.py:13-25 | a coastal cell (r, c) holds the value interpolated from the neighbours the query returns for its own centre (x[c], y[r]) |
| Interpolation.InterpolatedWithinNeighbours | inundation_risk/interpolation.py:13-25 | every defined raster cell (r, c) lies between the least and greatest value of the neighbours of (x[c], y[r]) |
| Interpolation.UniformRslrInterpolatesUniformly | inundation_risk/interpolation.py:22-25 | if all known points carry v, every coastal cell is v |
| Common.RowMajorIsProduct | inundation_risk/interpolation.py:15 | the row-major position of (r, c) is r * cols + c |
| Common.FlattenAt | inundation_risk/interpolation.py:15 | `ravel` places cell (r, c) at position r * cols + c |
| Common.ReshapeAt | inundation_risk/interpolation.py:25 | `reshape` reads cell (r, c) from position r * cols + c |
| Common.ReshapeFlatten | inundation_risk/interpolation.py:25 | reshaping a raveled grid gives the grid back |
| Common.MeanBetween | inundation_risk/analysis.py:34 | a mean lies between any lower and upper bound of its values |
| Common.Clip | inundation_risk/analysis.py:124 | `clip` lands in [lo, hi], keeps values inside and maps values below or above to the bound |
| Common.RoundHalfEven | inundation_risk/analysis.py:125 | `round` is within one half of its argument and even on a tie |
| Common.RoundHalfEvenUnique | inundation_risk/analysis.py:125 | those two properties determine the rounded value |
| Common.Trunc | inundation_risk/utils.py:57 | `int()` truncates toward zero |
| Utils.FromOrigin | inundation_risk/utils.py:16-21 | the transform maps pixel (0, 0) to the origin and has no rotation terms |
| Utils.FromOriginMaps | inundation_risk/utils.py:16-21 | column col lies col pixel widths east and row row lies row pixel heights south of the origin |
| Utils.BuildTransform | inundation_risk/utils.py:15-21 | origin at (x[0], y[0]), north-up, pixel sizes are the absolute first differences, so the width is at least 0 and the y scale is at most 0 |
| Utils.TransformFollowsCoordinates | inundation_risk/utils.py:15-21 | for evenly spaced rising x and falling y coordinates, pixel (c, r) maps to (x[c], y[r]) |
| Utils.TransformIgnoresDirection | inundation_risk/utils.py:19-20 | rising and falling coordinates with the same spacing give the same transform |
| Utils.ExportCell | inundation_risk/utils.py:34-36 | undetermined becomes nodata; a value is rounded and clipped into 0..100, within one half of it and even on a tie when it is already in range; every pixel fits in 8 bits |
| Utils.ExportGrid | inundation_risk/utils.py:34-36 | every pixel of the exported grid is its cell's export |
| Utils.ExportKeepsScores | inundation_risk/utils.py:34-36 | a whole-number score in 0..100 is exported unchanged |
| Utils.NodataDistinguishable | inundation_risk/utils.py:23-35 | with nodata above 100, the default 255 included, a pixel is nodata iff its cell was undetermined |
| Utils.NextAnchor | inundation_risk/utils.py:52 | the least anchor key at or above i |
| Utils.PrevAnchor | inundation_risk/utils.py:39-45 | the greatest anchor key at or below i |
| Utils.GreatestKeyAtMost | inundation_risk/utils.py:51 | `max(k for k in colormap if k <= i)`: a key at most i with no key between it and i |
| Utils.LeastKeyAtLeast | inundation_risk/utils.py:52 | `min(k for k in colormap if k >= i)`: a key at least i with no key between i and it |
| Utils.NeighbourKeys | inundation_risk/utils.py:51-52 | while the loop is at a missing key i, `lower` is i - 1 and `upper` is the next anchor, so `lower == upper` cannot happen |
| Utils.Fraction | inundation_risk/utils.py:56 | the blend fraction lies in [0, 1] |
| Utils.FillStep | inundation_risk/utils.py:55-57 | filling key i from `lower` and `upper` extends the table invariant to key i + 1 |
| Utils.BuildColormap | inundation_risk/utils.py:39-57 | after the loop the table has exactly the keys 0..100, the anchors keep their colours, and every key has the colour `Colour` defines |
| Utils.LerpWithin | inundation_risk/utils.py:57 | `lo * (1 - f) + hi * f` with f in [0, 1] lies between lo and hi |
| Utils.Blend | inundation_risk/utils.py:57 | each of the three channels is blended on its own |
| Utils.ColourStep | inundation_risk/utils.py:48-57 | an anchor keeps its colour; any other key is key i - 1's colour moved 1 / (next anchor - i + 1) of the way to the next anchor |
| Utils.BlendChannelBetween | inundation_risk/utils.py:57 | a truncated blended channel lies between the two channels it blends |
| Utils.ColourBetweenAnchors | inundation_risk/utils.py:48-57 | every channel of every key lies between that channel of the anchors around it |
| Utils.ColourChannelRange | inundation_risk/utils.py:39-57 | every channel of the table is an integer in 0..255 |
| Utils.ChainedBlendDiffersFromDirect | inundation_risk/utils.py:48-57 | key 28 gets green 243 where direct anchor blending gives 244 |

## Left out

- Reading and writing files, downloading and merging tiles, reprojection,
  bounding-box filtering and shoreline clipping. This covers
  `data_loader.py`, `preprocessing.py` and the rasterio writing and prints
  in `save_colormapped_tif`, all of which are I/O or library calls.
- The least-squares fit of the quadratic trend. Its coefficients are
  inputs (`Analysis.QuadraticFit`), so NaN epochs and too few epochs for
  a fit are not modelled.
- The k-d tree and the DEM clip before interpolation. The tree's query
  is a function parameter (`Interpolation.Query`) from a point to its
  neighbour indices and distances. `Interpolation.InterpolateRslr`
  applies it to every grid point, and at least 8 known points are
  required. That the neighbours are the nearest ones is not modelled.
- `datetime.now()`: the current year is a parameter of
  `Analysis.TotalYears`.
- The `band` dimension that `np.squeeze` removes: grids are
  two-dimensional from the start.
- IEEE floating point:
  - values are exact reals;
  - NaN appears only as `Undetermined`, so NaN RSLR values, NaN
    latitudes and infinite ratios are not modelled;
  - the float32 cast of the result is not modelled;
  - the table is built with exact arithmetic. In floating point,
    `int(255 * (1 - f) + 255 * f)` can give 254 instead of 255.
- Utils.ExportCell: requires a nodata value in 0..255, because rasterio
  refuses a nodata value that a uint8 band cannot hold. The model does not
  say what numpy's cast does to values outside that range.
- Utils.BuildTransform: requires at least two coordinates on each axis.
  With fewer, the source raises IndexError.
- Analysis.CalcVelocities: requires at least one acquisition date, since
  the minimum of no dates is undefined in the source.
- Interpolation.Normalise: states that the weights are positive and sum to
  one. It does not restate that each weight is divided by the row total;
  `Interpolation.NormalisedEntry` states that.
- Utils.BuildColormap: the `lower == upper` branch of the loop cannot be
  reached, as `NeighbourKeys` shows, so the model marks it unreachable
  instead of copying `colormap[lower]`.
