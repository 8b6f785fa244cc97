/**
 * What the density grid promises: how `insert_coord` changes a grid, that the
 * neighbourhood scan of `is_valid_next_step` sees every point that matters,
 * and that a committed point rules out its own position.
 */
module DensityProperties {
  import opened Geometry
  import opened Curves
  import opened Density
  import opened Config

  /**
   * `insert_coord` has three outcomes.  An outside point leaves the grid as
   * it is.  An inside point is appended to its own bucket exactly when that
   * bucket has room (`space_used + 1 < capacity`), and is dropped otherwise.
   * No other bucket changes in any case.
   */
  lemma InsertCoordEffect(g: GridModel, x: real, y: real)
    requires g.Valid()
    ensures var (g', outcome) := g.InsertCoord(x, y);
      && g'.Valid()
      && (outcome == OffGrid <==> g.shape.OffBoundaries(x, y))
      && (outcome != Stored ==> g' == g)
      && (!g.shape.OffBoundaries(x, y) ==>
            var c, r := g.shape.Col(x), g.shape.Row(y);
            && g.shape.InGrid(c, r)
            && (outcome == Stored <==> g.cells[c][r].spaceUsed + 1 < g.cells[c][r].capacity)
            && (outcome == Stored ==>
                  g'.cells[c][r].xs == g.cells[c][r].xs + [x] &&
                  g'.cells[c][r].ys == g.cells[c][r].ys + [y] &&
                  g'.cells[c][r].spaceUsed == g.cells[c][r].spaceUsed + 1 &&
                  g'.cells[c][r].capacity == g.cells[c][r].capacity)
            && forall c', r' :: g.shape.InGrid(c', r') && (c', r') != (c, r) ==> g'.cells[c'][r'] == g.cells[c'][r'])
  {
    if !g.shape.OffBoundaries(x, y) {
      g.shape.CellInRange(x, y);
    }
  }

  /** Every bucket of a valid grid keeps `space_used <= capacity - 1` (or is empty). */
  lemma SpaceUsedBound(g: GridModel, c: int, r: int)
    requires g.Valid() && g.shape.InGrid(c, r)
    ensures g.cells[c][r].spaceUsed == 0 || g.cells[c][r].spaceUsed <= g.cells[c][r].capacity - 1
  {
    assert g.CellOk(c, r);
  }

  /** Dividing two positive coordinates less than `d_test` apart by `d_sep` leaves them less than 1 apart. */
  lemma ScaledNear(a: real, b: real, d: real)
    requires 0.0 < d && 0.0 < a && 0.0 < b
    requires -(d - 0.01 * d) <= b - a <= d - 0.01 * d
    ensures 0.0 < a / d && 0.0 < b / d && -1.0 < a / d - b / d < 1.0
  {
    assert a / d - b / d == (a - b) / d;
    var m := 0.99 * d;
    assert m / d == 0.99;
    var lo, hi := (a - b) + m, m - (a - b);
    assert 0.0 <= lo / d && 0.0 <= hi / d;
    assert lo / d == (a - b) / d + m / d;
    assert hi / d == m / d - (a - b) / d;
  }

  /**
   * A stored point within `d_test` of an inside point lies in a bucket at
   * most one column and one row away from the point's own bucket: the
   * buckets have side `d_sep > d_test`.
   */
  lemma NearPointIsNeighbour(g: GridModel, c: int, r: int, i: int, x: real, y: real)
    requires g.Valid() && !g.shape.OffBoundaries(x, y) && g.CloseAt(c, r, i, x, y)
    ensures g.shape.InGrid(c, r)
    ensures -1 <= c - g.shape.Col(x) <= 1 && -1 <= r - g.shape.Row(y) <= 1
  {
    var s := g.shape;
    assert g.CellOk(c, r);
    var px, py := g.cells[c][r].xs[i], g.cells[c][r].ys[i];
    assert s.Belongs(px, py, c, r);
    CoordinateWithin(x, y, px, py, s.DTest());
    ScaledNear(x, px, s.dSep);
    ScaledNear(y, py, s.dSep);
    TruncNear(x / s.dSep + 1.0, px / s.dSep + 1.0);
    TruncNear(y / s.dSep + 1.0, py / s.dSep + 1.0);
  }

  /**
   * The 3x3 scan decides the same question as a scan of the whole grid: a
   * point passes `is_valid_next_step` exactly when it is inside and no point
   * stored anywhere in the grid is within `d_test` of it.
   */
  lemma LocalScanIsGlobal(g: GridModel, x: real, y: real)
    requires g.Valid()
    ensures g.ValidNextStep(x, y) <==>
      !g.shape.OffBoundaries(x, y) && forall c, r, i :: !g.CloseAt(c, r, i, x, y)
  {
    var s := g.shape;
    if !s.OffBoundaries(x, y) {
      s.CellInRange(x, y);
      var b := s.Neighbourhood(s.Col(x), s.Row(y));
      s.NeighbourhoodInRange(s.Col(x), s.Row(y));
      forall c, r, i | g.CloseAt(c, r, i, x, y)
        ensures b.Contains(c, r) && g.NearIn(c, r, x, y)
      {
        NearPointIsNeighbour(g, c, r, i, x, y);
      }
    }
  }

  /**
   * A point that `insert_coord` stored is too close to itself: right after
   * it is committed, `is_valid_next_step` rejects its own position.
   */
  lemma StoredPointBlocksItself(g: GridModel, x: real, y: real)
    requires g.Valid() && g.InsertCoord(x, y).1 == Stored
    ensures !g.InsertCoord(x, y).0.ValidNextStep(x, y)
  {
    var g' := g.InsertCoord(x, y).0;
    var s := g.shape;
    s.CellInRange(x, y);
    var c, r := s.Col(x), s.Row(y);
    var i := g.cells[c][r].spaceUsed;
    assert g'.cells[c][r] == g.cells[c][r].Push(x, y);
    assert g'.CloseAt(c, r, i, x, y);
    s.NeighbourhoodInRange(c, r);
    assert s.Neighbourhood(c, r).Contains(c, r);
  }

  /** Bucket `(c, r)` of `g'` holds every point bucket `(c, r)` of `g` held, in the same order. */
  ghost predicate Extends(g: GridModel, g': GridModel)
  {
    g.Shaped() && g'.Shaped() && g'.shape == g.shape &&
    forall c, r :: g.shape.InGrid(c, r) ==>
      g.cells[c][r].xs <= g'.cells[c][r].xs && g.cells[c][r].ys <= g'.cells[c][r].ys
  }

  /** Committing a curve never removes a point: `insert_curve_coords` only appends. */
  lemma {:induction false} InsertAllExtends(g: GridModel, samples: seq<Sample>)
    requires g.Valid()
    ensures Extends(g, g.InsertAll(samples).0)
    decreases |samples|
  {
    if samples != [] {
      var g1 := g.InsertCoord(samples[0].x, samples[0].y).0;
      InsertCoordEffect(g, samples[0].x, samples[0].y);
      InsertAllExtends(g1, samples[1..]);
      var g2 := g1.InsertAll(samples[1..]).0;
      assert g2 == g.InsertAll(samples).0;
      forall c, r | g.shape.InGrid(c, r)
        ensures g.cells[c][r].xs <= g2.cells[c][r].xs && g.cells[c][r].ys <= g2.cells[c][r].ys
      {
        assert g.cells[c][r].xs <= g1.cells[c][r].xs && g.cells[c][r].ys <= g1.cells[c][r].ys;
      }
    }
  }

  /** A point too close to a stored point stays too close after more points are committed. */
  lemma RejectionPersists(g: GridModel, samples: seq<Sample>, x: real, y: real)
    requires g.Valid() && !g.ValidNextStep(x, y)
    ensures !g.InsertAll(samples).0.ValidNextStep(x, y)
  {
    var g' := g.InsertAll(samples).0;
    InsertAllExtends(g, samples);
    LocalScanIsGlobal(g, x, y);
    LocalScanIsGlobal(g', x, y);
    if !g.shape.OffBoundaries(x, y) {
      var c, r, i :| g.CloseAt(c, r, i, x, y);
      assert g.CellOk(c, r);
      assert g.cells[c][r].xs <= g'.cells[c][r].xs && g.cells[c][r].ys <= g'.cells[c][r].ys;
      assert g'.CellOk(c, r);
      assert g'.CloseAt(c, r, i, x, y);
    }
  }

  /**
   * The written boundary test admits a point outside the grid.  With the
   * program's own constants (a 150 x 150 grid of side 0.8 over a 120 x 120
   * field), the point (119.5, 10) lies inside the flow field and passes the
   * written test, yet its column
   * `(int) (119.5 / 0.8 + 1)` is 150, one past the last column.  The
   * corrected test rejects it.
   */
  lemma AsWrittenBoundaryAdmitsOutsideCell()
    ensures var s := GridShape(DensityGridWidth, DensityGridHeight, DSep);
      && DensityGridWidth == 150 && DensityGridHeight == 150
      && 119.5 < FlowFieldWidth as real
      && !s.OffBoundariesAsWritten(119.5, 10.0)
      && s.Col(119.5) == 150 && !s.InGrid(s.Col(119.5), s.Row(10.0))
      && s.OffBoundaries(119.5, 10.0)
  {
    assert FlowFieldWidth as real / DSep == 150.0;
    assert 119.5 / DSep + 1.0 == 150.375;
  }

  /**
   * The written clamps can leave the grid: on a grid 10 columns wide and 3
   * rows high they give cell (1, 2) an end row of 3, a row the grid does not
   * have.  The corrected clamps stay inside.
   */
  lemma AsWrittenClampsLeaveGrid()
    ensures var s := GridShape(10, 3, 1.0);
      && s.InGrid(1, 2)
      && s.NeighbourhoodAsWritten(1, 2).endRow == 3 && !s.InGrid(1, 3)
      && s.Neighbourhood(1, 2).endRow == 2
  {
  }

  /**
   * The written clamps can also skip a neighbour inside the grid: on a grid
   * 3 columns wide and 10 rows high, cell (1, 5) gets end row 5, because
   * row 6 is not below the width 3, although row 6 is in the grid.  The
   * corrected clamps scan row 6.
   */
  lemma AsWrittenClampsSkipRow()
    ensures var s := GridShape(3, 10, 1.0);
      && s.InGrid(1, 5) && s.InGrid(1, 6)
      && s.NeighbourhoodAsWritten(1, 5).endRow == 5 && !s.NeighbourhoodAsWritten(1, 5).Contains(1, 6)
      && s.Neighbourhood(1, 5).endRow == 6 && s.Neighbourhood(1, 5).Contains(1, 6)
  {
  }

  /** On a square grid, the program's own configuration, the written clamps and the corrected ones agree. */
  lemma ClampsAgreeOnSquareGrid(s: GridShape, col: int, row: int)
    requires s.width == s.height
    ensures s.NeighbourhoodAsWritten(col, row) == s.Neighbourhood(col, row)
  {
  }
}
