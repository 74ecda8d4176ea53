/**
 * The elevation sampler: a terrain raster (the band read from the SRTM tile plus
 * the dataset's coordinate-to-cell transform) and the lookup `elevation` that
 * turns a point into a positive height, falling back to 2 off the raster and at
 * or below sea level.
 */
module Raster {
  import opened Outcomes

  /** Height used off the raster and for samples at or below zero. */
  const FallbackHeight: int := 2

  /** The band as numpy holds it: `rows` × `cols` integer samples, row-major. */
  datatype Band = Band(rows: nat, cols: nat, samples: seq<seq<int>>) {
    predicate Valid() {
      |samples| == rows && forall r :: 0 <= r < |samples| ==> |samples[r]| == cols
    }
  }

  /**
   * The opened raster: its first band and the dataset's affine transform from
   * a coordinate pair (x, y) to a (row, column) index pair, which is kept abstract.
   */
  datatype Raster = Raster(band: Band, index: (real, real) -> (int, int))

  /**
   * One numpy subscript on an axis of length n: a negative subscript counts from
   * the end, and anything outside -n .. n-1 raises IndexError.
   */
  function AxisIndex(i: int, n: nat): (k: Result<nat>)
    ensures k.Ok? <==> 0 <= i + n && i < n
    ensures k.Ok? ==> k.value < n && (k.value - i) % n == 0
    ensures k.Err? ==> k.error == IndexError
  {
    if 0 <= i < n then Ok(i)
    else if 0 <= i + n && i < 0 then Ok(i + n)
    else Err(IndexError)
  }

  /**
   * The body of `elevation` once the index pair `vals` is known: both indices
   * are compared with the ROW count, then the band is read (numpy subscripting)
   * and non-positive samples are replaced by the fallback height.
   */
  function Sample(band: Band, vals: (int, int)): (h: Result<int>)
    requires band.Valid()
    ensures vals.0 >= band.rows || vals.1 >= band.rows ==> h == Ok(FallbackHeight)
    ensures h.Err? <==>
      vals.0 < band.rows && vals.1 < band.rows &&
      (vals.0 + band.rows < 0 || vals.1 + band.cols < 0 || vals.1 >= band.cols)
    ensures h.Err? ==> h.error == IndexError
    ensures h.Ok? ==> h.value > 0
    ensures h.Ok? && vals.0 < band.rows && vals.1 < band.rows ==>
      AxisIndex(vals.0, band.rows).Ok? && AxisIndex(vals.1, band.cols).Ok? &&
      var s := band.samples[AxisIndex(vals.0, band.rows).value][AxisIndex(vals.1, band.cols).value];
      (s > 0 ==> h.value == s) && (s <= 0 ==> h.value == FallbackHeight)
  {
    if vals.0 >= band.rows || vals.1 >= band.rows then Ok(FallbackHeight)
    else
      var r :- AxisIndex(vals.0, band.rows);
      var c :- AxisIndex(vals.1, band.cols);
      var s := band.samples[r][c];
      Ok(if s > 0 then s else FallbackHeight)
  }

  /**
   * `elevation(pt)`: the index transform is applied to (pt[1], pt[0]), the
   * point's components swapped, and the resulting pair is sampled.
   */
  function Elevation(raster: Raster, pt: (real, real)): (h: Result<int>)
    requires raster.band.Valid()
    ensures h.Ok? ==> h.value > 0
    ensures h.Err? ==> h.error == IndexError
  {
    Sample(raster.band, raster.index(pt.1, pt.0))
  }

  /** A square raster, as the SRTM tile is, never raises for non-negative indices. */
  lemma SquareBandTotal(band: Band, vals: (int, int))
    requires band.Valid() && band.rows == band.cols
    requires vals.0 >= 0 && vals.1 >= 0
    ensures Sample(band, vals).Ok?
  {
  }
}
