/**
 * The grid scanner: two evenly spaced axes over the bounding box, the count
 * matrix `n_overlaps` filled cell by cell, and the cells reaching its maximum
 * (`np.argwhere(n_overlaps == np.amax(n_overlaps))`).
 */
module Grid {
  import opened Outcomes
  import opened Raster
  import opened Overlap

  /** Number of points on each axis of the grid. */
  const GridSize: nat := 50

  /** The four extents of the map, in the order the plot's `set_extent` takes them. */
  datatype Bounds = Bounds(e0: real, e1: real, e2: real, e3: real)

  /** The bounding box of Ireland used for the scan. */
  const IrelandBounds: Bounds := Bounds(-10.75, -5.2, 51.2, 55.5)

  /** A matrix cell (row, column). */
  type Cell = (nat, nat)

  /** Row-major order, the order `np.argwhere` lists cells in and the scan visits them. */
  predicate Before(c: Cell, d: Cell) {
    c.0 < d.0 || (c.0 == d.0 && c.1 < d.1)
  }

  predicate InGrid(c: Cell, rows: nat, cols: nat) {
    c.0 < rows && c.1 < cols
  }

  /** Strictly increasing in row-major order, hence without repetitions. */
  predicate RowMajor(cs: seq<Cell>) {
    forall a, b :: 0 <= a < b < |cs| ==> Before(cs[a], cs[b])
  }

  /**
   * `np.linspace(start, stop, num)` in exact arithmetic: `num` points, the first
   * `start`, the last `stop`, equally spaced.
   */
  function Linspace(start: real, stop: real, num: nat): (xs: seq<real>)
    ensures |xs| == num
    ensures num > 0 ==> xs[0] == start
    ensures num > 1 ==> xs[num - 1] == stop
    ensures num > 1 ==> forall k :: 0 <= k < num - 1 ==> xs[k + 1] - xs[k] == (stop - start) / (num - 1) as real
  {
    var step := if num > 1 then (stop - start) / (num - 1) as real else 0.0;
    seq(num, k requires 0 <= k < num => if num > 1 && k == num - 1 then stop else start + k as real * step)
  }

  /**
   * `make_grid(bounds)`: the first axis spans bounds[0]..bounds[1], the second
   * bounds[2]..bounds[3], each with `GridSize` points.
   */
  function MakeGrid(b: Bounds): (axes: (seq<real>, seq<real>))
    ensures |axes.0| == GridSize && |axes.1| == GridSize
    ensures axes.0[0] == b.e0 && axes.0[GridSize - 1] == b.e1
    ensures axes.1[0] == b.e2 && axes.1[GridSize - 1] == b.e3
  {
    (Linspace(b.e0, b.e1, GridSize), Linspace(b.e2, b.e3, GridSize))
  }

  /** v is the overlap count of the grid point (x, y), whose lookup does not raise. */
  ghost predicate CountOf<G>(v: int, raster: Raster, area: (G, Disk) -> real, counties: seq<G>, x: real, y: real)
    requires raster.band.Valid()
  {
    PointOverlaps(raster, area, x, y, counties).Ok? &&
    v == CountTrue(PointOverlaps(raster, area, x, y, counties).value)
  }

  /**
   * The inner loop of the main block for row i: assigns `n[i][j]` for every j
   * in order, stopping at the first grid point whose raster lookup raises.
   * `writes` is ghost bookkeeping: the method appends (i, j) to it right after
   * each assignment `n[i, j] := ...`, so the log mirrors the assignments made.
   */
  method ScanRow<G>(raster: Raster, area: (G, Disk) -> real, counties: seq<G>,
                    lats: seq<real>, lngs: seq<real>, n: array2<int>, i: nat)
    returns (ok: bool, ghost writes: seq<Cell>)
    requires raster.band.Valid()
    requires n.Length0 == |lats| && n.Length1 == |lngs| && i < |lats|
    modifies n
    ensures forall i', j' :: 0 <= i' < n.Length0 && 0 <= j' < n.Length1 && i' != i ==> n[i', j'] == old(n[i', j'])
    ensures ok <==> forall j :: 0 <= j < |lngs| ==> PointOverlaps(raster, area, lats[i], lngs[j], counties).Ok?
    ensures ok ==> forall j :: 0 <= j < |lngs| ==> CountOf(n[i, j], raster, area, counties, lats[i], lngs[j])
    ensures ok ==> RowMajor(writes) && forall c: Cell :: c in writes <==> c.0 == i && c.1 < |lngs|
  {
    writes := [];
    var j := 0;
    while j < |lngs|
      invariant 0 <= j <= |lngs|
      invariant forall i', j' :: 0 <= i' < n.Length0 && 0 <= j' < n.Length1 && i' != i ==> n[i', j'] == old(n[i', j'])
      invariant forall j' :: 0 <= j' < j ==> CountOf(n[i, j'], raster, area, counties, lats[i], lngs[j'])
      invariant RowMajor(writes)
      invariant forall c: Cell :: c in writes <==> c.0 == i && c.1 < j
    {
      var overlaps := PointOverlaps(raster, area, lats[i], lngs[j], counties);
      if overlaps.Err? {
        return false, writes;
      }
      n[i, j] := CountTrue(overlaps.value);
      writes := writes + [(i, j)];
      j := j + 1;
    }
    ok := true;
  }

  /**
   * The nested loop of the main block: `n_overlaps[i][j]` becomes the number of
   * counties overlapped at (lats[i], lngs[j]), each cell assigned exactly once,
   * in row-major order. Python stops at the first grid point whose raster
   * lookup raises; so does the scan. `writes` is ghost bookkeeping that
   * concatenates the rows' logs from `ScanRow`, each entry recorded next to
   * the assignment it mirrors; nothing else writes to the matrix.
   */
  method ScanGrid<G>(raster: Raster, area: (G, Disk) -> real, counties: seq<G>,
                     lats: seq<real>, lngs: seq<real>)
    returns (res: Result<array2<int>>, ghost writes: seq<Cell>)
    requires raster.band.Valid()
    ensures res.Ok? <==> forall i, j :: 0 <= i < |lats| && 0 <= j < |lngs| ==>
      PointOverlaps(raster, area, lats[i], lngs[j], counties).Ok?
    ensures res.Err? ==> res.error == IndexError
    ensures res.Ok? ==> res.value.Length0 == |lats| && res.value.Length1 == |lngs|
    ensures res.Ok? ==> forall i, j :: 0 <= i < |lats| && 0 <= j < |lngs| ==>
      res.value[i, j] == CountTrue(PointOverlaps(raster, area, lats[i], lngs[j], counties).value)
    ensures res.Ok? ==> RowMajor(writes) && forall c: Cell :: c in writes <==> InGrid(c, |lats|, |lngs|)
  {
    var n := new int[|lats|, |lngs|]((i, j) => 0);
    writes := [];
    var i := 0;
    while i < |lats|
      invariant 0 <= i <= |lats|
      invariant n.Length0 == |lats| && n.Length1 == |lngs|
      invariant forall i', j' :: 0 <= i' < i && 0 <= j' < |lngs| ==>
        CountOf(n[i', j'], raster, area, counties, lats[i'], lngs[j'])
      invariant RowMajor(writes)
      invariant forall c: Cell :: c in writes <==> InGrid(c, i, |lngs|)
    {
      var ok, row := ScanRow(raster, area, counties, lats, lngs, n, i);
      if !ok {
        return Err(IndexError), writes;
      }
      AppendRowMajor(writes, row, i);
      writes := writes + row;
      i := i + 1;
    }
    res := Ok(n);
  }

  /** Appending a later row's cells keeps a log in row-major order. */
  lemma AppendRowMajor(done: seq<Cell>, row: seq<Cell>, i: nat)
    requires RowMajor(done) && RowMajor(row)
    requires forall c: Cell :: c in done ==> c.0 < i
    requires forall c: Cell :: c in row ==> c.0 == i
    ensures RowMajor(done + row)
  {
  }

  /** Cell c holds a value no cell of `a` exceeds. */
  ghost predicate IsMaxCell(a: array2<int>, c: Cell)
    reads a
    requires InGrid(c, a.Length0, a.Length1)
  {
    forall i, j :: 0 <= i < a.Length0 && 0 <= j < a.Length1 ==> a[i, j] <= a[c.0, c.1]
  }

  /** `np.amax(a)`: the largest entry; an empty array raises. */
  method Amax(a: array2<int>) returns (res: Result<int>)
    ensures res.Err? <==> a.Length0 == 0 || a.Length1 == 0
    ensures res.Err? ==> res.error == EmptyReduction
    ensures res.Ok? ==> exists i, j :: 0 <= i < a.Length0 && 0 <= j < a.Length1 && a[i, j] == res.value
    ensures res.Ok? ==> forall i, j :: 0 <= i < a.Length0 && 0 <= j < a.Length1 ==> a[i, j] <= res.value
  {
    if a.Length0 == 0 || a.Length1 == 0 {
      return Err(EmptyReduction);
    }
    var m := a[0, 0];
    ghost var at: Cell := (0, 0);
    var i := 0;
    while i < a.Length0
      invariant 0 <= i <= a.Length0
      invariant InGrid(at, a.Length0, a.Length1) && a[at.0, at.1] == m
      invariant forall i', j' :: 0 <= i' < i && 0 <= j' < a.Length1 ==> a[i', j'] <= m
    {
      var j := 0;
      while j < a.Length1
        invariant 0 <= j <= a.Length1
        invariant InGrid(at, a.Length0, a.Length1) && a[at.0, at.1] == m
        invariant forall i', j' :: 0 <= i' < i && 0 <= j' < a.Length1 ==> a[i', j'] <= m
        invariant forall j' :: 0 <= j' < j ==> a[i, j'] <= m
      {
        if a[i, j] > m {
          m, at := a[i, j], (i, j);
        }
        j := j + 1;
      }
      i := i + 1;
    }
    res := Ok(m);
  }

  /** `np.argwhere(a == v)`: every cell holding v, in row-major order. */
  method ArgWhereEqual(a: array2<int>, v: int) returns (cells: seq<Cell>)
    ensures RowMajor(cells)
    ensures forall c: Cell :: c in cells <==> InGrid(c, a.Length0, a.Length1) && a[c.0, c.1] == v
  {
    cells := [];
    var i := 0;
    while i < a.Length0
      invariant 0 <= i <= a.Length0
      invariant RowMajor(cells)
      invariant forall c: Cell :: c in cells <==> InGrid(c, i, a.Length1) && a[c.0, c.1] == v
      invariant forall k :: 0 <= k < |cells| ==> cells[k].0 < i
    {
      var j := 0;
      while j < a.Length1
        invariant 0 <= j <= a.Length1
        invariant RowMajor(cells)
        invariant forall c: Cell :: c in cells <==>
          (InGrid(c, i, a.Length1) || (c.0 == i && c.1 < j)) && a[c.0, c.1] == v
        invariant forall k :: 0 <= k < |cells| ==> Before(cells[k], (i, j))
      {
        if a[i, j] == v {
          cells := cells + [(i, j)];
        }
        j := j + 1;
      }
      i := i + 1;
    }
  }

  /**
   * `np.argwhere(a == np.amax(a))`: all cells reaching the maximum, ties
   * included, in row-major order; never empty when the array is not.
   */
  method AllMaxCells(a: array2<int>) returns (res: Result<seq<Cell>>)
    ensures res.Err? <==> a.Length0 == 0 || a.Length1 == 0
    ensures res.Err? ==> res.error == EmptyReduction
    ensures res.Ok? ==> |res.value| > 0 && RowMajor(res.value)
    ensures res.Ok? ==> forall c: Cell :: c in res.value <==> InGrid(c, a.Length0, a.Length1) && IsMaxCell(a, c)
  {
    var m :- Amax(a);
    var cells := ArgWhereEqual(a, m);
    var i, j :| 0 <= i < a.Length0 && 0 <= j < a.Length1 && a[i, j] == m;
    assert (i, j) in cells;
    res := Ok(cells);
  }

  /**
   * The main block: build the grid over the Irish bounding box, fill the 50×50
   * count matrix and locate every cell with the most overlaps.
   */
  method MostCounties<G>(raster: Raster, area: (G, Disk) -> real, counties: seq<G>)
    returns (res: Result<(array2<int>, seq<Cell>)>)
    requires raster.band.Valid()
    ensures var (lats, lngs) := MakeGrid(IrelandBounds);
      res.Ok? <==> forall i, j :: 0 <= i < GridSize && 0 <= j < GridSize ==>
        PointOverlaps(raster, area, lats[i], lngs[j], counties).Ok?
    ensures res.Ok? ==> var (n, cells) := res.value; var (lats, lngs) := MakeGrid(IrelandBounds);
      n.Length0 == GridSize && n.Length1 == GridSize &&
      (forall i, j :: 0 <= i < GridSize && 0 <= j < GridSize ==>
         PointOverlaps(raster, area, lats[i], lngs[j], counties).Ok? &&
         n[i, j] == CountTrue(PointOverlaps(raster, area, lats[i], lngs[j], counties).value)) &&
      (forall i, j :: 0 <= i < GridSize && 0 <= j < GridSize ==> 0 <= n[i, j] <= |counties|) &&
      |cells| > 0 && RowMajor(cells) &&
      (forall c: Cell :: c in cells <==> InGrid(c, GridSize, GridSize) && IsMaxCell(n, c))
  {
    var (lats, lngs) := MakeGrid(IrelandBounds);
    var scan, _ := ScanGrid(raster, area, counties, lats, lngs);
    var n :- scan;
    var cells := AllMaxCells(n);
    res := Ok((n, cells.value));
  }
}
