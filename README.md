# most-counties, modelled in Dafny

`most-counties.py` looks for the places in Ireland from which the most counties
are in view. Around each point of a 50 × 50 grid over the island's bounding box
it builds a disk whose radius grows with the terrain height there, read from an
SRTM elevation tile. It then counts the counties whose intersection with the
disk has an area above 0.05, and computes every grid cell with the highest
count. It saves the count matrix to a file.

This project models the discrete logic under that computation. Each part is
proved against a specification:

- `Raster` (raster.dfy) covers the elevation sampler `elevation`. It includes
  the bounds check, which compares both indices with the **row** count; this
  quirk is reproduced on purpose. It also covers numpy's subscripting, where a
  negative index wraps once and anything else out of range raises
  `IndexError`, and the fallback height 2.
- `Overlap` (overlap.dfy) covers the disk of `make_circle`, the per-county
  flags of `point_overlaps` and the name filter of `counties_overlap`. Its
  `zip` stops at the shorter list.
- `Grid` (grid.dfy) covers `make_grid`, the nested loop that fills the count
  matrix in place, and `np.argwhere(n == np.amax(n))`.
- `Outcomes` (outcomes.dfy) defines the result type that carries the
  exceptions the code can raise on its own data: `IndexError`, `KeyError`,
  and numpy's `ValueError` for an empty reduction.

The foreign collaborators become parameters:

- The raster dataset's affine transform `src.index` is the function
  `Raster.index: (real, real) -> (int, int)`.
- Shapely's `c.intersection(disk).area` is a function `area: (G, Disk) -> real`.
- `G` stands for the county geometry type.
- The band read from the tile is the value `Band`.

## Model

| member | source | states |
|---|---|---|
| Raster.AxisIndex | most-counties.py:22 | numpy subscript on an axis of length n: succeeds exactly for -n <= i < n, lands in 0..n-1 and is congruent to i; otherwise IndexError |
| Raster.Sample | most-counties.py:20-23 | either index >= row count gives exactly 2 (the column index is also compared with the row count); IndexError exactly when both pass that check but numpy's subscript is out of range; otherwise the sample itself when positive and 2 when not, so every height is positive |
| Raster.Elevation | most-counties.py:18-23 | `elevation` never yields a non-positive height, and its only failure is IndexError |
| Raster.SquareBandTotal | most-counties.py:20-22 | on a square band, such as the SRTM tile, non-negative indices never raise |
| Overlap.MakeCircle | most-counties.py:30-33 | the two coordinate swaps cancel: the disk is centred on (x, y) and its height is the sample at index(x, y), the query point itself; it fails exactly when that sample fails |
| Overlap.Flags | most-counties.py:38 | one flag per county, in county order; flag k is true iff county k's intersection area is strictly above 0.05 |
| Overlap.PointOverlaps | most-counties.py:36-38 | succeeds exactly when the disk can be built; the result is as long as `counties`; element k is true iff the area with county k exceeds 0.05, so an area of exactly 0.05 gives false |
| Overlap.CountTrue | most-counties.py:81 | `sum(overlaps)` lies between 0 and the number of flags; it is 0 iff no flag is set and equals the length iff every flag is set |
| Overlap.CountTrueAppend | most-counties.py:81 | the count of a concatenation is the sum of the counts |
| Overlap.DuplicatedCountiesCountTwice | most-counties.py:36-38 | counties are counted as entries: listing every county twice doubles the count at a point |
| Overlap.Names | most-counties.py:49-50 | the kept names are no more than either input list, as `zip` stops at the shorter one; the only failure is KeyError |
| Overlap.CountiesOverlap | most-counties.py:47-50 | fails with IndexError when the disk cannot be built; on success the flags exist and the result is no longer than `counties` or the records |
| Overlap.FlaggedFrom | most-counties.py:49-50 | reference: the flagged positions in lo..hi-1, strictly increasing, and every flagged position in range is there |
| Overlap.NamesFrom | most-counties.py:49-50 | the comprehension over the suffix from position lo keeps exactly the names of the flagged records there, in order, and fails iff one of them lacks the name |
| Overlap.NamesAreFlaggedRecords | most-counties.py:49-50 | the comprehension keeps exactly the names of the records whose flag is set among the pairs `zip` yields, in record order; it fails iff one of those records has no `NAME_TAG` |
| Overlap.NamesCount | most-counties.py:49-50 | the number of names equals the number of set flags among the first min(len(records), len(flags)) |
| Overlap.CountiesOverlapNames | most-counties.py:47-50 | end to end: the names are those of the records whose county meets the disk in more than 0.05, in record order, and every such record's name is present |
| Grid.Linspace | most-counties.py:42-43 | `num` points, the first `start`, the last `stop`, consecutive points (stop - start)/(num - 1) apart |
| Grid.MakeGrid | most-counties.py:41-44 | both axes have 50 points; the first runs from bounds[0] to bounds[1] and the second from bounds[2] to bounds[3] |
| Grid.ScanRow | most-counties.py:79-81 | fills row i: each cell holds its grid point's overlap count, other rows are unchanged, and the row's cells are written once each in column order; it stops exactly when a lookup raises |
| Grid.AppendRowMajor | most-counties.py:77-81 | appending a later row's writes keeps the write log in row-major order |
| Grid.ScanGrid | most-counties.py:76-81 | the matrix has shape len(latitudes) × len(longitudes); cell (i, j) is the number of True flags at (latitudes[i], longitudes[j]); every cell is written exactly once, in row-major order; it fails exactly when some grid point's lookup raises |
| Grid.Amax | most-counties.py:83 | `np.amax`: a value present in the matrix that no cell exceeds; an empty matrix raises |
| Grid.ArgWhereEqual | most-counties.py:83 | `np.argwhere(n == v)`: exactly the in-range cells holding v, in row-major order, without repetition |
| Grid.AllMaxCells | most-counties.py:83 | `all_inds`: non-empty for a non-empty matrix, exactly the cells no other cell exceeds (ties all reported), in row-major order |
| Grid.MostCounties | most-counties.py:70-83 | the main block: a 50 × 50 matrix whose cell (i, j) is the overlap count at grid point (i, j) of the 50-point axes over the Irish bounding box, hence between 0 and len(counties), and the non-empty set of cells reaching its maximum; it fails exactly when some grid point's raster lookup raises |

## Left out

- Opening the raster file and reading its band (most-counties.py:9-10). The band is the value `Band`. The affine transform `src.index` is an arbitrary function parameter.
- Shapely geometry: `Point(...).buffer`, `intersection` and `.area` (most-counties.py:33, 38). The intersection area is an arbitrary `real`-valued function of a county and the disk.
- The radius formula `3.57 * sqrt(h) / 110.5` (most-counties.py:31-33). It is floating point with a square root. A `Disk` records its centre and the sampled height that determines the radius.
- Overlap.Flags: compares the area with `AreaThreshold` as the exact real 0.05. Python compares a float64 with the float64 literal 0.05, which is slightly above 0.05 (0.05000000000000000277…). So an area equal to that double gives false in Python but true in the model.
- Grid.Linspace: computes `np.linspace` in exact real arithmetic, so the floating-point rounding of the grid coordinates is not modelled.
- Reading the shapefile through cartopy (most-counties.py:26-27, 71-72). The counties and their records are plain sequences.
- `plot_map` (most-counties.py:53-68), `print(i)` (most-counties.py:78) and `np.save` (most-counties.py:84). These are display and file output.
- The count matrix holds `int` values. The Python matrix is `np.zeros`' float64, which holds these small integer sums exactly.
- Nothing checks that the county list and the record list come from the same shapefile in the same order. The code pairs them positionally through `zip` and silently truncates to the shorter list, and the model does the same.
- No assumption is made that the band is square. When the column count is smaller than the row count, a column index between the two passes the check but numpy raises `IndexError`. The model returns `Err(IndexError)` for it.
