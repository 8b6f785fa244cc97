/**
 * The density grid: a `width x height` array of buckets of side `d_sep`.
 * Each bucket (`DensityCell`) holds the coordinates of the curve samples
 * committed to it, a `capacity` and a `space_used` counter.  A point belongs
 * to bucket `((int)(x/d_sep + 1), (int)(y/d_sep + 1))`.
 *
 * `GridShape` holds the constant geometry (the C++ `_width`, `_height`,
 * `_d_sep`), `GridModel` is the value of the whole grid, used by the
 * specifications, and `DensityGrid` is the mutable object over an `array2`.
 */
module Density {
  import opened Geometry
  import opened Curves

  /** What `insert_coord` did with a point; `CellFull` is the condition the C++ code prints as an error. */
  datatype InsertOutcome = OffGrid | Stored | CellFull

  datatype DensityCell = DensityCell(xs: seq<real>, ys: seq<real>, capacity: int, spaceUsed: int) {

    /** Both coordinate lists hold `spaceUsed` entries, and `spaceUsed` never exceeds `capacity - 1`. */
    ghost predicate WellFormed() {
      |xs| == spaceUsed && |ys| == spaceUsed && (spaceUsed == 0 || spaceUsed <= capacity - 1)
    }

    /** The capacity test of `insert_coord`: one more point keeps `space_used + 1 < capacity`. */
    predicate HasRoom() {
      spaceUsed + 1 < capacity
    }

    function Push(x: real, y: real): DensityCell {
      DensityCell(xs + [x], ys + [y], capacity, spaceUsed + 1)
    }
  }

  function EmptyCell(capacity: int): DensityCell {
    DensityCell([], [], capacity, 0)
  }

  /** An inclusive rectangle of cells, columns `startCol..endCol`, rows `startRow..endRow`. */
  datatype Block = Block(startCol: int, endCol: int, startRow: int, endRow: int) {
    predicate Contains(c: int, r: int) {
      startCol <= c <= endCol && startRow <= r <= endRow
    }
  }

  /** A non-negative `v` lies in `[(n - 1) d, n d)` for `n = (int) (v / d + 1)`. */
  lemma BucketBounds(v: real, d: real)
    requires 0.0 < d && 0.0 <= v
    ensures var n := Trunc(v / d + 1.0); (n - 1) as real * d <= v < n as real * d
  {
    var n := Trunc(v / d + 1.0);
    var q := v / d;
    assert (n - 1) as real <= q < n as real;
    assert q * d == v;
    MulBounds((n - 1) as real, q, n as real, d);
    assert v < n as real * d;
  }

  /** Multiplying `lo <= q < hi` by a positive `d`. */
  lemma MulBounds(lo: real, q: real, hi: real, d: real)
    requires 0.0 < d && lo <= q < hi
    ensures lo * d <= q * d < hi * d
  {
  }

  datatype GridShape = GridShape(width: int, height: int, dSep: real) {

    ghost predicate Valid() {
      0.0 < dSep && 0 <= width && 0 <= height
    }

    predicate InGrid(c: int, r: int) {
      0 <= c < width && 0 <= r < height
    }

    /** `get_density_col`: `(int) (x / d_sep + 1)`, at least 1 for a non-negative `x`. */
    function Col(x: real): (c: int)
      requires 0.0 < dSep
      ensures 0.0 <= x ==> 1 <= c
    {
      Trunc(x / dSep + 1.0)
    }

    /** `get_density_row`: `(int) (y / d_sep + 1)`, at least 1 for a non-negative `y`. */
    function Row(y: real): (r: int)
      requires 0.0 < dSep
      ensures 0.0 <= y ==> 1 <= r
    {
      Trunc(y / dSep + 1.0)
    }

    /** Bucket `c = Col(x)` of a non-negative `x` covers `[(c - 1) d_sep, c d_sep)`; likewise for rows. */
    lemma BucketCovers(x: real, y: real)
      requires 0.0 < dSep && 0.0 <= x && 0.0 <= y
      ensures (Col(x) - 1) as real * dSep <= x < Col(x) as real * dSep
      ensures (Row(y) - 1) as real * dSep <= y < Row(y) as real * dSep
    {
      BucketBounds(x, dSep);
      BucketBounds(y, dSep);
    }

    /**
     * `off_boundaries` as the C++ code has it: the raw coordinates are
     * compared with the numbers of cells, and the cell indices it computes
     * are not used.  A point it admits has cell indices of at least 1, but
     * not necessarily below the grid's extent.
     */
    function OffBoundariesAsWritten(x: real, y: real): (off: bool)
      ensures 0.0 < dSep && !off ==> 1 <= Col(x) && 1 <= Row(y)
    {
      x <= 0.0 || y <= 0.0 || x >= width as real || y >= height as real
    }

    /**
     * `off_boundaries` as intended: the written test, and in addition the
     * cell indices must lie below the grid's extent.  It rejects everything
     * the written test rejects and agrees with it on every point whose cell
     * is in the grid.
     */
    function OffBoundaries(x: real, y: real): (off: bool)
      requires 0.0 < dSep
      ensures off <==> OffBoundariesAsWritten(x, y) || !InGrid(Col(x), Row(y))
    {
      OffBoundariesAsWritten(x, y) || Col(x) >= width || Row(y) >= height
    }

    /**
     * The neighbourhood clamps of `is_valid_next_step` as written: the end
     * row is clamped by the width and the end column by the height, so the
     * block stays below the HEIGHT in columns and below the WIDTH in rows.
     */
    function NeighbourhoodAsWritten(col: int, row: int): (b: Block)
      ensures 0 <= b.startCol && 0 <= b.startRow
      ensures col - 1 <= b.startCol && b.endCol <= col + 1 && row - 1 <= b.startRow && b.endRow <= row + 1
      ensures 0 <= col && 0 <= row ==> b.Contains(col, row)
      ensures col < height ==> b.endCol < height
      ensures row < width ==> b.endRow < width
    {
      Block(if col - 1 > 0 then col - 1 else 0,
            if col + 1 < height then col + 1 else col,
            if row - 1 > 0 then row - 1 else 0,
            if row + 1 < width then row + 1 else row)
    }

    /**
     * The neighbourhood clamps with each index clamped by its own extent:
     * the block holds the centre, reaches at most one cell out, and stays
     * inside the grid whenever the centre does.
     */
    function Neighbourhood(col: int, row: int): (b: Block)
      ensures 0 <= b.startCol && 0 <= b.startRow
      ensures col - 1 <= b.startCol && b.endCol <= col + 1 && row - 1 <= b.startRow && b.endRow <= row + 1
      ensures 0 <= col && 0 <= row ==> b.Contains(col, row)
      ensures col < width ==> b.endCol < width
      ensures row < height ==> b.endRow < height
    {
      Block(if col - 1 > 0 then col - 1 else 0,
            if col + 1 < width then col + 1 else col,
            if row - 1 > 0 then row - 1 else 0,
            if row + 1 < height then row + 1 else row)
    }

    /** `d_test`: the separation less one percent, to absorb rounding. */
    function DTest(): real {
      dSep - 0.01 * dSep
    }

    /** A stored point at `(x, y)` sits in its own cell `(c, r)`. */
    ghost predicate Belongs(x: real, y: real, c: int, r: int)
      requires 0.0 < dSep
    {
      !OffBoundaries(x, y) && Col(x) == c && Row(y) == r
    }

    /** A point inside the corrected boundaries has a cell inside the grid (index at least 1: the `+1` offset). */
    lemma CellInRange(x: real, y: real)
      requires Valid() && !OffBoundaries(x, y)
      ensures InGrid(Col(x), Row(y)) && 1 <= Col(x) && 1 <= Row(y)
    {
      assert 0.0 < x / dSep && 0.0 < y / dSep;
    }

    /**
     * The corrected clamps cover exactly the cells of the grid at
     * most one column and one row away from `(col, row)`.
     */
    lemma NeighbourhoodInRange(col: int, row: int)
      requires InGrid(col, row)
      ensures var b := Neighbourhood(col, row);
        forall c, r :: b.Contains(c, r) <==> InGrid(c, r) && -1 <= c - col <= 1 && -1 <= r - row <= 1
    {
    }
  }

  /** The value of a whole grid: `cells[c][r]` is the bucket of column `c`, row `r`. */
  datatype GridModel = GridModel(shape: GridShape, cells: seq<seq<DensityCell>>) {

    ghost predicate Shaped() {
      |cells| == shape.width && forall c :: 0 <= c < |cells| ==> |cells[c]| == shape.height
    }

    /** Bucket `(c, r)` is well formed and every point in it belongs to it. */
    ghost predicate CellOk(c: int, r: int)
      requires shape.Valid()
    {
      0 <= c < |cells| && 0 <= r < |cells[c]| && cells[c][r].WellFormed() &&
      forall i :: 0 <= i < cells[c][r].spaceUsed ==> shape.Belongs(cells[c][r].xs[i], cells[c][r].ys[i], c, r)
    }

    ghost predicate Valid() {
      shape.Valid() && Shaped() && forall c, r :: shape.InGrid(c, r) ==> CellOk(c, r)
    }

    /** Point `i` of bucket `(c, r)` is within `d_test` of `(x, y)`. */
    ghost predicate CloseAt(c: int, r: int, i: int, x: real, y: real) {
      0 <= c < |cells| && 0 <= r < |cells[c]| && 0 <= i < cells[c][r].spaceUsed &&
      i < |cells[c][r].xs| && i < |cells[c][r].ys| &&
      WithinDistance(x, y, cells[c][r].xs[i], cells[c][r].ys[i], shape.DTest())
    }

    /** Some point of bucket `(c, r)` is within `d_test` of `(x, y)`. */
    ghost predicate NearIn(c: int, r: int, x: real, y: real) {
      exists i :: CloseAt(c, r, i, x, y)
    }

    /**
     * `is_valid_next_step` as a predicate: the point is inside, and no point
     * stored in the clamped neighbourhood of its cell is within `d_test`.
     */
    ghost predicate ValidNextStep(x: real, y: real)
      requires shape.Valid()
      ensures ValidNextStep(x, y) ==> !shape.OffBoundaries(x, y) && forall i :: !CloseAt(shape.Col(x), shape.Row(y), i, x, y)
    {
      !shape.OffBoundaries(x, y) &&
      var b := shape.Neighbourhood(shape.Col(x), shape.Row(y));
      forall c, r :: b.Contains(c, r) ==> !NearIn(c, r, x, y)
    }

    /**
     * `insert_coord` on the value: an outside point is ignored; otherwise the
     * point is appended to its own bucket when that bucket has room, and
     * dropped (reported as `CellFull`) when it has not.  The result is again
     * a valid grid of the same shape.
     */
    function InsertCoord(x: real, y: real): (res: (GridModel, InsertOutcome))
      requires Valid()
      ensures res.0.Valid() && res.0.shape == shape
    {
      if shape.OffBoundaries(x, y) then (this, OffGrid)
      else
        shape.CellInRange(x, y);
        var c, r := shape.Col(x), shape.Row(y);
        var cell := cells[c][r];
        if cell.HasRoom() then
          var g := this.(cells := cells[c := cells[c][r := cell.Push(x, y)]]);
          assert g.Valid() by {
            forall c', r' | shape.InGrid(c', r') ensures g.CellOk(c', r') {
              assert CellOk(c', r');
            }
          }
          (g, Stored)
        else (this, CellFull)
    }

    /**
     * `insert_curve_coords` on the value: `InsertCoord` applied to the
     * samples in order; the second component counts the dropped points.
     */
    function InsertAll(samples: seq<Sample>): (res: (GridModel, nat))
      requires Valid()
      ensures res.0.Valid() && res.0.shape == shape
      ensures res.1 <= |samples|
      decreases |samples|
    {
      if samples == [] then (this, 0)
      else
        var (g, outcome) := InsertCoord(samples[0].x, samples[0].y);
        var (g', dropped) := g.InsertAll(samples[1..]);
        (g', dropped + if outcome == CellFull then 1 else 0)
    }
  }

  /** A fresh grid: every bucket empty, with the given capacity. */
  function EmptyGrid(shape: GridShape, capacity: int): (g: GridModel)
    requires shape.Valid()
    ensures g.Valid()
  {
    GridModel(shape, seq(shape.width, c => seq(shape.height, r => EmptyCell(capacity))))
  }

  /** The C++ `DensityGrid`: a fixed `width x height` array of buckets. */
  class DensityGrid {
    const shape: GridShape
    const grid: array2<DensityCell>

    /** The value of the grid: the array read as columns of buckets. */
    ghost function Model(): GridModel
      reads grid
    {
      GridModel(shape, seq(grid.Length0, c requires 0 <= c < grid.Length0 reads grid =>
                         seq(grid.Length1, r requires 0 <= r < grid.Length1 reads grid => grid[c, r])))
    }

    ghost predicate Valid()
      reads grid
    {
      grid.Length0 == shape.width && grid.Length1 == shape.height && Model().Valid()
    }

    /**
     * `DensityGrid(d_sep, cell_capacity)`: every bucket empty with capacity
     * `cell_capacity`.  The C++ code fixes the extent by compile-time
     * constants; here it is a parameter.
     */
    constructor (dSep: real, width: int, height: int, cellCapacity: int)
      requires 0.0 < dSep && 0 <= width && 0 <= height
      ensures shape == GridShape(width, height, dSep) && fresh(grid)
      ensures Valid() && Model() == EmptyGrid(shape, cellCapacity)
    {
      shape := GridShape(width, height, dSep);
      grid := new DensityCell[width, height]((c, r) => EmptyCell(cellCapacity));
      new;
      forall c | 0 <= c < width
        ensures Model().cells[c] == EmptyGrid(shape, cellCapacity).cells[c]
      {
      }
    }

    /**
     * `insert_coord`: the grid becomes what `GridModel.InsertCoord` says,
     * which touches at most the point's own bucket.
     */
    method InsertCoord(x: real, y: real) returns (outcome: InsertOutcome)
      requires Valid()
      modifies grid
      ensures Valid()
      ensures (Model(), outcome) == old(Model()).InsertCoord(x, y)
    {
      if shape.OffBoundaries(x, y) {
        return OffGrid;
      }
      shape.CellInRange(x, y);
      var col := shape.Col(x);
      var row := shape.Row(y);
      var cell := grid[col, row];
      if cell.HasRoom() {
        ghost var before := Model();
        grid[col, row] := cell.Push(x, y);
        assert Model().cells == before.cells[col := before.cells[col][row := cell.Push(x, y)]] by {
          forall c | 0 <= c < shape.width
            ensures Model().cells[c] == before.cells[col := before.cells[col][row := cell.Push(x, y)]][c]
          {
          }
        }
        outcome := Stored;
      } else {
        outcome := CellFull;
      }
    }

    /**
     * `insert_curve_coords`: `insert_coord` on samples `0 .. steps_taken - 1`
     * in order.  Returns how many points were dropped because their bucket
     * was full.
     */
    method InsertCurveCoords(curve: Streamline) returns (dropped: nat)
      requires Valid()
      modifies grid
      ensures Valid()
      ensures (Model(), dropped) == old(Model()).InsertAll(curve.samples)
    {
      var samples := curve.samples;
      var i := 0;
      dropped := 0;
      while i < curve.StepsTaken()
        invariant 0 <= i <= |samples|
        invariant Valid()
        invariant var rest := Model().InsertAll(samples[i..]);
          rest.0 == old(Model()).InsertAll(samples).0 && dropped + rest.1 == old(Model()).InsertAll(samples).1
      {
        assert samples[i..][1..] == samples[i + 1..];
        var outcome := InsertCoord(samples[i].x, samples[i].y);
        if outcome == CellFull {
          dropped := dropped + 1;
        }
        i := i + 1;
      }
    }

    /**
     * The innermost loop of `is_valid_next_step`: does bucket `(c, r)` hold a
     * point within `d_test` of `(x, y)`?  An empty bucket is skipped at once.
     */
    method CellHasNear(c: int, r: int, x: real, y: real) returns (near: bool)
      requires Valid() && shape.InGrid(c, r)
      ensures near == Model().NearIn(c, r, x, y)
    {
      var cell := grid[c, r];
      ghost var g := Model();
      assert cell == g.cells[c][r] && g.CellOk(c, r);
      var n := cell.spaceUsed;
      if n == 0 {
        return false;
      }
      var dTest := shape.DTest();
      var i := 0;
      while i < n
        invariant 0 <= i <= n
        invariant forall i' :: 0 <= i' < i ==> !g.CloseAt(c, r, i', x, y)
      {
        if WithinDistance(x, y, cell.xs[i], cell.ys[i], dTest) {
          assert g.CloseAt(c, r, i, x, y);
          return true;
        }
        i := i + 1;
      }
      return false;
    }

    /**
     * `is_valid_next_step`: scans the clamped neighbourhood of the point's
     * bucket for a stored point within `d_test`.  It only reads the grid.
     */
    method IsValidNextStep(x: real, y: real) returns (valid: bool)
      requires Valid()
      ensures valid == Model().ValidNextStep(x, y)
    {
      if shape.OffBoundaries(x, y) {
        return false;
      }
      shape.CellInRange(x, y);
      var col := shape.Col(x);
      var row := shape.Row(y);
      var b := shape.Neighbourhood(col, row);
      shape.NeighbourhoodInRange(col, row);
      ghost var g := Model();
      var c := b.startCol;
      while c <= b.endCol
        invariant b.startCol <= c <= b.endCol + 1
        invariant forall c', r' :: b.startCol <= c' < c && b.Contains(c', r') ==> !g.NearIn(c', r', x, y)
      {
        var r := b.startRow;
        while r <= b.endRow
          invariant b.startRow <= r <= b.endRow + 1
          invariant forall c', r' :: b.startCol <= c' < c && b.Contains(c', r') ==> !g.NearIn(c', r', x, y)
          invariant forall r' :: b.startRow <= r' < r ==> !g.NearIn(c, r', x, y)
        {
          var near := CellHasNear(c, r, x, y);
          if near {
            return false;
          }
          r := r + 1;
        }
        c := c + 1;
      }
      return true;
    }
  }
}
