/**
 * Worked examples on a small configuration: a 10 x 10 flow field, `d_sep = 2`
 * (so a 5 x 5 density grid, as `(int) (10 / 2)`), and buckets of capacity 4.
 * They pin down the boundary behaviour of `is_valid_next_step` and the way
 * `draw_curve` splits its step budget between the two halves.
 */
module Scenarios {
  import opened Geometry
  import opened FlowFields
  import opened Curves
  import opened Density
  import opened DensityProperties
  import opened Tracer

  function SmallShape(): GridShape {
    GridShape(5, 5, 2.0)
  }

  /** On an empty grid the density test reduces to the boundary test. */
  lemma EmptyGridAcceptsInside(shape: GridShape, capacity: int, x: real, y: real)
    requires shape.Valid()
    ensures EmptyGrid(shape, capacity).ValidNextStep(x, y) <==> !shape.OffBoundaries(x, y)
  {
    var g := EmptyGrid(shape, capacity);
    if !shape.OffBoundaries(x, y) {
      var b := shape.Neighbourhood(shape.Col(x), shape.Row(y));
      forall c, r | b.Contains(c, r)
        ensures !g.NearIn(c, r, x, y)
      {
        if 0 <= c < |g.cells| && 0 <= r < |g.cells[c]| {
          assert g.cells[c][r].spaceUsed == 0;
        }
      }
    }
  }

  /**
   * After (1, 1) and (1.5, 1.5) are inserted into an empty grid, both in
   * bucket (1, 1): (1.6, 1.6) is too close; (4, 4), whose neighbourhood is
   * columns and rows 2 to 4, is accepted; and (8, 8) is rejected as outside,
   * by the written boundary test (8 >= 5 cells) and by the corrected one
   * (column `(int) (8 / 2 + 1)` is 5, past the last column 4).
   */
  lemma DensityScenario()
    ensures var g1 := EmptyGrid(SmallShape(), 4).InsertCoord(1.0, 1.0);
      var g2 := g1.0.InsertCoord(1.5, 1.5);
      && g1.1 == Stored && g2.1 == Stored
      && !g2.0.ValidNextStep(1.6, 1.6)
      && g2.0.ValidNextStep(4.0, 4.0)
      && !g2.0.ValidNextStep(8.0, 8.0)
      && SmallShape().OffBoundariesAsWritten(8.0, 8.0) && SmallShape().OffBoundaries(8.0, 8.0)
  {
    var s := SmallShape();
    var g0 := EmptyGrid(s, 4);
    assert s.Col(1.0) == 1 && s.Row(1.0) == 1;
    assert s.Col(1.5) == 1 && s.Row(1.5) == 1;
    InsertCoordEffect(g0, 1.0, 1.0);
    var g1 := g0.InsertCoord(1.0, 1.0).0;
    InsertCoordEffect(g1, 1.5, 1.5);
    var g2 := g1.InsertCoord(1.5, 1.5).0;

    assert s.Col(1.6) == 1 && s.Row(1.6) == 1;
    s.NeighbourhoodInRange(1, 1);
    assert g2.CloseAt(1, 1, 0, 1.6, 1.6);

    assert s.Col(4.0) == 3 && s.Row(4.0) == 3;
    var b := s.Neighbourhood(3, 3);
    forall c, r | b.Contains(c, r)
      ensures !g2.NearIn(c, r, 4.0, 4.0)
    {
      assert g2.cells[c][r] == g1.cells[c][r] == g0.cells[c][r];
    }

    assert s.Col(8.0) == 5;
  }

  /** A 10 x 10 field whose angle is 0 everywhere. */
  function ConstantField(): (f: FlowField)
    ensures f.Valid()
  {
    FlowField(10, 10, seq(10, c => seq(10, r => 0.0)))
  }

  /** The density grid of the 10 x 10 field for `d_sep = 1`: 10 x 10 buckets, as `(int) (10 / 1)`. */
  function TraceShape(): GridShape {
    GridShape(10, 10, 1.0)
  }

  /**
   * Tracing on the constant field with `step_length = 1` and `n_steps = 4`
   * from (5, 5) on an empty grid of side 1: the shared counter allows one
   * backward step (`1 < 4 / 2`) and two forward steps, the forward half
   * restarting at the start point, so the samples are x = 5, 4, 6, 7 at
   * y = 5.
   */
  lemma TracerScenario(trig: Trig)
    requires trig.cos(0.0) == 1.0 && trig.sin(0.0) == 0.0
    ensures Trace(ConstantField(), EmptyGrid(TraceShape(), 4), trig, 1.0, 4, 5.0, 5.0)
      == [Sample(5.0, 5.0, Backward), Sample(4.0, 5.0, Backward), Sample(6.0, 5.0, Forward), Sample(7.0, 5.0, Forward)]
  {
    var f, g := ConstantField(), EmptyGrid(TraceShape(), 4);
    assert f.GetAngle(5.0, 5.0) == 0.0 && f.GetAngle(6.0, 5.0) == 0.0;
    EmptyGridAcceptsInside(TraceShape(), 4, 4.0, 5.0);
    EmptyGridAcceptsInside(TraceShape(), 4, 6.0, 5.0);
    EmptyGridAcceptsInside(TraceShape(), 4, 7.0, 5.0);
    assert TraceShape().Col(4.0) == 5 && TraceShape().Col(6.0) == 7 && TraceShape().Col(7.0) == 8;
    assert TraceShape().Row(5.0) == 6;
    assert StepFrom(f, trig, 1.0, true, 5.0, 5.0) == Point(4.0, 5.0);
    assert StepFrom(f, trig, 1.0, false, 5.0, 5.0) == Point(6.0, 5.0);
    assert StepFrom(f, trig, 1.0, false, 6.0, 5.0) == Point(7.0, 5.0);
    var back := Walk(f, g, trig, 1.0, true, 5.0, 5.0, 1, 2);
    assert back == [Point(4.0, 5.0)];
    var fwd := Walk(f, g, trig, 1.0, false, 5.0, 5.0, 2, 4);
    assert Walk(f, g, trig, 1.0, false, 6.0, 5.0, 3, 4) == [Point(7.0, 5.0)];
    assert fwd == [Point(6.0, 5.0), Point(7.0, 5.0)];
  }

  /**
   * The same trace against the grid of side 2 (5 x 5 buckets): the
   * density grid's boundary test compares raw coordinates with its 5 cells,
   * so both first steps, (4, 5) with `y >= 5` and (6, 5) with `x >= 5`, are
   * refused and the curve is the start sample alone.
   */
  lemma TracerScenarioCoarseGrid(trig: Trig)
    requires trig.cos(0.0) == 1.0 && trig.sin(0.0) == 0.0
    ensures Trace(ConstantField(), EmptyGrid(SmallShape(), 4), trig, 1.0, 4, 5.0, 5.0)
      == [Sample(5.0, 5.0, Backward)]
  {
    var f, g := ConstantField(), EmptyGrid(SmallShape(), 4);
    assert f.GetAngle(5.0, 5.0) == 0.0;
    assert StepFrom(f, trig, 1.0, true, 5.0, 5.0) == Point(4.0, 5.0);
    assert StepFrom(f, trig, 1.0, false, 5.0, 5.0) == Point(6.0, 5.0);
    assert SmallShape().OffBoundariesAsWritten(4.0, 5.0) && SmallShape().OffBoundariesAsWritten(6.0, 5.0);
    assert Walk(f, g, trig, 1.0, true, 5.0, 5.0, 1, 2) == [];
    assert Walk(f, g, trig, 1.0, false, 5.0, 5.0, 1, 4) == [];
  }
}
