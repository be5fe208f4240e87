# CaveSpy raster algorithms in Dafny

CaveSpy turns a LiDAR point cloud into an elevation raster, then fills its
holes and smooths it so that a cave or sink-hole shows up. This project models
the raster (`Map`) and the algorithms of `MapAlgorithms` that work on it:

- the rasteriser that bins points into cells and averages them
  (`ReadCloudIntoMap`, module `Rasterizer`);
- the carry-forward hole fill (`LinearFillMap`, module `LinearFill`);
- the edge-growth in-painting (`EdgeFillMapAlgorithm` and its `Grower`,
  module `EdgeFill`);
- the window and the cell count of the geometric-mean smoothing filter
  (`GeometricMeanFilter`, module `GeometricMean`);
- the synthetic test-map generator with its round holes (`FillTestMap`,
  `CutCircle`, module `TestMap`).

`Maps` holds the grid and its row-major indexing. A cell at column `x`, row
`y` is stored at index `y * width + x`. Classification 0 marks a hole. `Color`
is a class, so a cell no coloured point reaches holds `null`, here `None`; the
test map allocates no colour array at all, here `colors == None`. `Common`
holds `Option`, `Result`, the C# byte range, and the C# conversions the code
relies on: the truncating `(int)` cast and integer halving.

The C# algorithms mutate the map in place. Here each one is a method that
returns a new `Map`, and its contract relates the result to the input.
Elevations are exact reals. Wherever the original reads a random number
generator or calls `Math.Pow`, the model takes the values as parameters.

In the linear fill, `lastValue` is set once, at `CaveSpy/Map.cs:156`, before
both loops. A hole at the start of a row therefore takes the last non-zero
value of the row above. `LinearFill.CarriesAcrossRows` states this behaviour.

## Model

| member | source | states |
|---|---|---|
| Common.Trunc | CaveSpy/Map.cs:135-136 | the C# `(int)` cast of a double drops the fraction toward zero: for `r >= 0` it gives the largest integer at most `r`, for negative `r` the smallest integer at least `r` |
| Common.Half | CaveSpy/Map.cs:257 | C# `n / 2` rounds toward zero: twice the result is `n` or one closer to zero, and it has the sign of `n` |
| Maps.IdxInRange | CaveSpy/Map.cs:137 | the row-major index of any cell of a `width` by `height` grid lies inside the arrays |
| Maps.IdxCoords | CaveSpy/Map.cs:181 | from the row-major index, division and remainder by the width give back the row and the column |
| Maps.CellCoords | CaveSpy/Map.cs:19-24 | every array index is the index of exactly one in-grid cell |
| Maps.IdxInjective | CaveSpy/Map.cs:137 | two different cells never share an array slot |
| Rasterizer.ReadCloudIntoMap | CaveSpy/Map.cs:91-151 | the result keeps the header's box, z range and zone. Its width is the requested width and its height is that width scaled by the box's aspect ratio and truncated. A cell no point reaches stays a hole. Any other cell holds the mean z of the in-box points that land on it, with the classification and (for point formats 2 and 3) the colour of the last of them. A requested width below 1, a box of zero or negative width, and a derived height below 1 are reported as errors |
| Rasterizer.CellInRange | CaveSpy/Map.cs:132-137 | a point inside the box, edges included, lands on a column and a row of the grid, so its cell index is a valid array index |
| Rasterizer.ScaledOffsetInRange | CaveSpy/Map.cs:108-109 | an offset between 0 and the box extent, scaled by `(n - 1) / extent` and truncated, is one of `0 .. n-1` |
| Rasterizer.RowsAreInverted | CaveSpy/Map.cs:136 | the maximum y of the box maps to row 0 and the minimum y to the last row |
| Rasterizer.OutsidePointIgnored | CaveSpy/Map.cs:131-133 | inserting a point outside the box anywhere in the cloud changes the points of no cell |
| Rasterizer.HitsAppend | CaveSpy/Map.cs:120-143 | the points of a cell from two concatenated clouds are the first cloud's points followed by the second's |
| Rasterizer.TallyOfSummarises | CaveSpy/Map.cs:138-142 | accumulating points one by one sums their z and counts them, and keeps the last point's classification and, when colour is recorded, its colour |
| Rasterizer.AccumulatePoints | CaveSpy/Map.cs:120-143 | after the first pass every cell's running tally is the summary of exactly the in-box points that map to it, in input order |
| Rasterizer.AverageCells | CaveSpy/Map.cs:145-150 | a cell with contributors ends with its sum divided by their number, which for a single contributor is the sum the original leaves undivided; a cell without contributors keeps its sum |
| Rasterizer.SingleHitKeepsZ | CaveSpy/Map.cs:148-149 | a cell reached by exactly one point holds that point's z and classification |
| Rasterizer.AdmissibleLayout | CaveSpy/Map.cs:105-109 | a positive width, a box of positive width and a derived height of at least 1 make a grid whose scales are well defined |
| LinearFill.LinearFillMap | CaveSpy/Map.cs:153-168 | non-zero elevations are kept. A zero elevation becomes the latest non-zero elevation before it in row-major order, or stays 0 when there is none. Classifications and every other field are unchanged |
| LinearFill.LastNonZeroIsLatest | CaveSpy/Map.cs:156-165 | the running value is 0 exactly when every earlier elevation is 0; otherwise it is the value at the latest earlier non-zero position |
| LinearFill.CarryForwardIdempotent | CaveSpy/Map.cs:153-168 | filling an already filled grid changes nothing |
| LinearFill.NoZeroAfterData | CaveSpy/Map.cs:162-165 | once any non-zero elevation has been scanned, no later cell is left at 0 |
| LinearFill.CarriesAcrossRows | CaveSpy/Map.cs:156-159 | a hole at the start of a row takes the last elevation of the previous row, because the running value is not reset per row |
| EdgeFill.InitialFrontier | CaveSpy/Map.cs:177-190 | the starting frontier contains each cell once. Its cells are exactly those not on the outer ring that have data and a hole among their 8 neighbours |
| EdgeFill.EdgeAt | CaveSpy/Map.cs:181-185 | at an interior cell, the test on the eight flat-array offsets `±1`, `±w`, `±w±1` holds exactly when the cell has data and one of the cells one column and/or one row away on the grid is a hole |
| EdgeFill.Spread | CaveSpy/Map.cs:202-225 | visiting the 3-by-3 neighbourhood of a frontier cell adds its value to exactly the in-grid holes around it: a hole seen before in the round has its pair extended, a new one starts at `(value, 1)` |
| EdgeFill.Accumulate | CaveSpy/Map.cs:196-226 | after all frontier cells, a cell is collected exactly when it is a hole next to at least one frontier cell. It then holds the sum of those frontier cells' values and their number |
| EdgeFill.Commit | CaveSpy/Map.cs:229-237 | every collected cell gets the mean of its pair and classification 13, becoming the next frontier, with no cell listed twice; no other cell changes |
| EdgeFill.GrowRound | CaveSpy/Map.cs:194-238 | one round fills exactly the holes next to the frontier, each with the mean of the frontier values around it read before any write; the filled holes are the next frontier |
| EdgeFill.RoundStep | CaveSpy/Map.cs:194-242 | a round that fills something strictly shrinks the set of holes, which bounds the number of rounds |
| EdgeFill.FedStep | CaveSpy/Map.cs:194-240 | after a round, every input edge cell or filled cell that still borders a hole is on the new frontier: had it been on the old frontier, that hole would have been filled |
| EdgeFill.EdgeFillMap | CaveSpy/Map.cs:170-243 | the loop terminates. Data cells keep their elevation and classification, and a hole either stays as it was or is filled and marked 13. There are at most as many rounds as holes plus one. A map without edge cells is returned unchanged, and one with an edge cell gets at least one round. On exit no hole borders an input edge cell or a filled cell, so nothing more can be reached. When every input edge cell has the same elevation `v`, every filled cell ends at `v`: a flat surface stays flat |
| EdgeFill.NoHolesNoEdges | CaveSpy/Map.cs:182-185 | a map without holes has no edge cells, so the fill leaves it alone |
| EdgeFill.MeanOfEqualValues | CaveSpy/Map.cs:215-235 | the mean of values that all equal `v` is `v` |
| EdgeFill.LevelStep | CaveSpy/Map.cs:196-237 | when every frontier cell and every filled cell is at elevation `v`, a round fills each hole it reaches with `v`, so the new frontier and all filled cells are still at `v` |
| GeometricMean.Window | CaveSpy/Map.cs:262-276 | the unclipped double loop with its bounds test visits exactly the clipped window. Its count equals the closed-form product of the two clipped spans, and its product is that of `1 + elevation` over those cells, column by column |
| GeometricMean.GeometricMeanFilter | CaveSpy/Map.cs:254-283 | every output cell is the root of its window product minus 1, computed from the input elevations only, never from cells already smoothed; classifications and every other field are unchanged |
| GeometricMean.WindowCountBounds | CaveSpy/Map.cs:257-276 | for `N >= -1` every window holds the cell itself and at most `(2 * (N / 2) + 1)` squared cells; for `N <= -2` the loops are empty and the count is 0 |
| GeometricMean.BlockSize | CaveSpy/Map.cs:264-273 | the window holds one factor per cell of the clipped rectangle |
| GeometricMean.FlatWindow | CaveSpy/Map.cs:273-278 | on a flat surface of elevation `k` the window product is `1 + k` to the power of the count |
| GeometricMean.FlatSmoothed | CaveSpy/Map.cs:257-280 | with a root that inverts the power on non-negative bases, a flat surface of elevation `k >= -1` comes out of the filter unchanged for every `N >= -1` |
| TestMap.CircleIsDisc | CaveSpy/Map.cs:344-358 | the square-plus-distance test cuts exactly the cells of the open disc of radius `rad` centred at `(x1 + rad, y1 + rad)`. The bounding square never clips the disc, and a radius of 0 or less cuts nothing |
| TestMap.CentreIsCut | CaveSpy/Map.cs:348-358 | a circle of positive radius always removes its own centre cell |
| TestMap.CutCircle | CaveSpy/Map.cs:342-366 | the in-grid cells of the circle become holes with elevation 0 and classification 0; every other cell and every other field is unchanged |
| TestMap.CutRow | CaveSpy/Map.cs:353-364 | one row of the bounding square cuts exactly the in-grid circle cells of that row |
| TestMap.CutIdempotent | CaveSpy/Map.cs:342-366 | cutting the same circle twice is the same as cutting it once |
| TestMap.CutCommutes | CaveSpy/Map.cs:331-337 | the order in which the round holes are cut does not matter |
| TestMap.DrawIndex | CaveSpy/Map.cs:324 | a draw in `[0, 1)` scaled by the cell count and truncated picks a valid cell |
| TestMap.DistinctProperties | CaveSpy/Map.cs:319-325 | the first occurrences of the drawn cells repeat nothing and include every drawn cell |
| TestMap.DistinctPrefix | CaveSpy/Map.cs:320-328 | the distinct cells of a prefix of the draws are a prefix of the distinct cells of all draws |
| TestMap.DrawNewCell | CaveSpy/Map.cs:323-324 | the rejection loop consumes draws until one hits a cell that is not yet a hole. That cell is the next distinct drawn cell. When the draws run out, every distinct cell has already been used |
| TestMap.PlaceSingleHoles | CaveSpy/Map.cs:317-328 | the single holes are the first 100 distinct drawn cells, and every other cell keeps elevation 100 and classification 1. The loop stops on the draw that yields the 100th distinct cell. It fails exactly when the draws hold fewer than 100 distinct cells |
| TestMap.CutAll | CaveSpy/Map.cs:330-337 | after the round holes a cell is a hole exactly when it was one or lies in any circle; nothing else changes |
| TestMap.FillTestMap | CaveSpy/Map.cs:296-340 | the test map has the requested size, zone "12T" and the fixed 100 by 100 frame. A cell is a hole exactly when it is one of the first 100 distinct drawn cells or lies in one of the 10 circles; every other cell is at 100 with classification 1. At least 100 cells are holes, and each input on which the original cannot finish is reported as an error |

## Left out

- Saving and loading a map with `BinaryFormatter`: file I/O and .NET serialisation, not algorithmic.
- `SetProperty` and `GetProperty`: an untyped property bag whose values no modelled algorithm reads.
- `GenerateMap`: a string dispatch to `FillTestMap` that answers `null` for any other name.
- Logging and the `MapAlgorithms` constructor's null check of its logger: they have no effect on the map.
- `Utility/Logging/TraceLogger.cs`: logging plumbing over `System.Diagnostics.Trace`.
- Parsing the LAS point-cloud file and applying scale factors and offsets: the model's points arrive in physical units.
- Floating point: elevations and coordinates are exact reals, so rounding, NaN and infinities are not modelled. The filters therefore agree with the original only up to rounding.
- `Math.Pow` in the geometric-mean filter: the caller passes the root function as `root`. GeometricMean.GeometricMeanFilter states the result in terms of `root`, not of a numeric power.
- Random number generation: the caller passes the `NextDouble` values of the single-hole loop and the 10 circles. TestMap.FillTestMap accepts any 10 circles, not only those `Random.Next` would produce (corner inside the grid, radius 10 to 109), so its contract covers more inputs than the original can produce.
- Rasterizer.ReadCloudIntoMap: reports a width below 1, a box of zero or negative width, and a derived height below 1 as errors. Depending on the input, the original in those cases throws (a negative array size, or a point indexed outside the grid), truncates an infinite or NaN height, or builds an empty grid. For a box inverted in both axes, such as minX = minY = 10, maxX = maxY = 0 with width 10, it builds a full 10-by-10 grid of holes, because no point passes the box test at `CaveSpy/Map.cs:132`.
- TestMap.FillTestMap: reports a size below 1 as `NonPositiveSize`, where the original throws or loops forever. It reports fewer than 100 cells as `TooFewCells`, where the original loops forever, and running out of draws as `DrawsExhausted`.
- 32-bit overflow of `width * height` and of the circle arithmetic: integers are unbounded in the model.
- EdgeFill.GrowRound: lists the next frontier in index order. The original lists it in dictionary insertion order. With exact arithmetic the filled values do not depend on this order.
- EdgeFill.EdgeFillMap: states the filled values of the whole run only for edge cells at one common elevation. In general the value written in each round is stated by EdgeFill.GrowRound, not in closed form over the run.
- GeometricMean.FlatSmoothed: assumes `k >= -1`, because for a negative base `Math.Pow` with a fractional exponent gives NaN, and no root function can invert even powers of negative numbers.
- `AssemblyInfo.cs`: build metadata only.
