/**
 * `even_spaced_curves`: the placer.  The first curve is traced from the given
 * start point and committed to the density grid unconditionally.  Then a
 * cursor `curve_id` walks the growing list of accepted curves as a work
 * queue: the seed candidates of curve `curve_id` are tried in order, each one
 * that passes `is_valid_next_step` is traced, and the traced curve is kept
 * (and committed to the grid) when it has at least `min_steps_allowed`
 * samples.  A kept curve gets the next id, `curve_array_index`.
 *
 * `Place` is the placer as a function of the initial grid; the method
 * `EvenSpacedCurves` is proved to compute it.
 */
module Placer {
  import opened Geometry
  import opened FlowFields
  import opened Curves
  import opened Density
  import opened Seeds
  import opened Tracer
  import opened Config

  /** The fixed inputs of one run of the placer. */
  datatype Params = Params(field: FlowField, trig: Trig, nCurves: int, nSteps: int,
                           minStepsAllowed: int, stepLength: real)

  /**
   * The placer's state: the density grid, the accepted curves (their number
   * is the C++ `curve_array_index`), the cursor `curve_id`, and how many
   * points the grid refused because their bucket was full.
   */
  datatype PlacerState = PlacerState(grid: GridModel, curves: seq<Streamline>, cursor: int, dropped: nat)

  /** Keeps a traced curve: commits its samples to the grid and appends it with the next id. */
  function Commit(st: PlacerState, samples: seq<Sample>): (r: PlacerState)
    requires st.grid.Valid()
    ensures r.grid.Valid() && r.grid.shape == st.grid.shape
    ensures r.curves == st.curves + [Streamline(|st.curves|, samples)]
    ensures r.cursor == st.cursor && st.dropped <= r.dropped <= st.dropped + |samples|
  {
    var (g, d) := st.grid.InsertAll(samples);
    PlacerState(g, st.curves + [Streamline(|st.curves|, samples)], st.cursor, st.dropped + d)
  }

  /** The curve `draw_curve` traces from `seed` against the current grid, with the next free id. */
  ghost function Candidate(p: Params, st: PlacerState, seed: Point): Streamline
    requires p.field.Valid() && st.grid.shape.Valid()
  {
    Streamline(|st.curves|, Trace(p.field, st.grid, p.trig, p.stepLength, p.nSteps, seed.x, seed.y))
  }

  /**
   * One seed candidate: skipped when too close, traced otherwise, and kept
   * only when long enough.  Either nothing changes or exactly one curve,
   * with the next id and starting at the candidate, is appended.
   */
  ghost function TryCandidate(p: Params, st: PlacerState, seed: Point): (r: PlacerState)
    requires p.field.Valid() && st.grid.Valid()
    ensures r.grid.Valid() && r.grid.shape == st.grid.shape && r.cursor == st.cursor
    ensures r != st ==>
      && r.curves == st.curves + [Candidate(p, st, seed)]
      && Candidate(p, st, seed).id == |st.curves|
      && Candidate(p, st, seed).samples[0] == Sample(seed.x, seed.y, Backward)
  {
    if !st.grid.ValidNextStep(seed.x, seed.y) then st
    else
      var curve := Candidate(p, st, seed);
      if curve.StepsTaken() < p.minStepsAllowed then st
      else Commit(st, curve.samples)
  }

  /** The seed candidates of one curve, tried in order. */
  ghost function ProcessSeeds(p: Params, st: PlacerState, seeds: seq<Point>): (r: PlacerState)
    requires p.field.Valid() && st.grid.Valid()
    ensures r.grid.Valid() && r.grid.shape == st.grid.shape
    ensures st.curves <= r.curves && |r.curves| <= |st.curves| + |seeds|
    ensures r.cursor == st.cursor
    decreases |seeds|
  {
    if seeds == [] then st
    else ProcessSeeds(p, TryCandidate(p, st, seeds[0]), seeds[1..])
  }

  /**
   * The loop guard as written: a new expansion starts while both counters
   * are below `n_curves`.  Nothing relates `curve_id` to the length of the
   * list.
   */
  function ContinuesAsWritten(curveId: int, curveArrayIndex: int, nCurves: int): bool
  {
    curveId < nCurves && curveArrayIndex < nCurves
  }

  /**
   * The loop guard with the missing check: the cursor names a curve of the
   * list and the list is below `n_curves`.  It is the written guard plus
   * exactly the test that curve `curve_id` exists.
   */
  function Continues(curveId: int, curveArrayIndex: int, nCurves: int): (go: bool)
    ensures go <==> ContinuesAsWritten(curveId, curveArrayIndex, nCurves) && curveId < curveArrayIndex
  {
    curveId < curveArrayIndex < nCurves
  }

  /** One expansion: the seeds of the curve under the cursor, then the cursor moves on. */
  ghost function ExpandOne(p: Params, st: PlacerState): (r: PlacerState)
    requires p.field.Valid() && st.grid.Valid() && 0 <= st.cursor < |st.curves|
    ensures r.grid.Valid() && r.grid.shape == st.grid.shape && st.curves <= r.curves
    ensures r.cursor == st.cursor + 1
  {
    var seeds := AllSeedPoints(st.curves[st.cursor].samples, p.trig);
    ProcessSeeds(p, st, seeds).(cursor := st.cursor + 1)
  }

  /** Expansions in cursor order until the guard fails. */
  ghost function Expand(p: Params, st: PlacerState): (r: PlacerState)
    requires p.field.Valid() && st.grid.Valid() && 0 <= st.cursor <= |st.curves|
    ensures r.grid.Valid() && r.grid.shape == st.grid.shape && st.curves <= r.curves
    ensures 0 <= r.cursor <= |r.curves|
    ensures !Continues(r.cursor, |r.curves|, p.nCurves)
    decreases p.nCurves - st.cursor
  {
    if Continues(st.cursor, |st.curves|, p.nCurves) then Expand(p, ExpandOne(p, st))
    else st
  }

  /** The state after the first curve is traced from the start point and committed. */
  ghost function Start(p: Params, g0: GridModel, xStart: real, yStart: real): PlacerState
    requires p.field.Valid() && g0.Valid()
  {
    Commit(PlacerState(g0, [], 0, 0), Trace(p.field, g0, p.trig, p.stepLength, p.nSteps, xStart, yStart))
  }

  /**
   * `even_spaced_curves` as a function of the initial grid: the first curve
   * is the one traced from the start point, with id 0, and the run stops
   * with the guard false and the cursor within the list.
   */
  ghost function Place(p: Params, g0: GridModel, xStart: real, yStart: real): (r: PlacerState)
    requires p.field.Valid() && g0.Valid()
    ensures r.grid.Valid() && r.grid.shape == g0.shape
    ensures 1 <= |r.curves| && r.curves[0] == Streamline(0, Trace(p.field, g0, p.trig, p.stepLength, p.nSteps, xStart, yStart))
    ensures 0 <= r.cursor <= |r.curves| && !Continues(r.cursor, |r.curves|, p.nCurves)
  {
    Expand(p, Start(p, g0, xStart, yStart))
  }

  /** The grid after committing the given curves, in order, to `g0`. */
  function CommitAll(g0: GridModel, curves: seq<Streamline>): (g: GridModel)
    requires g0.Valid()
    ensures g.Valid() && g.shape == g0.shape
    decreases |curves|
  {
    if curves == [] then g0
    else CommitAll(g0, curves[..|curves| - 1]).InsertAll(curves[|curves| - 1].samples).0
  }

  /**
   * What holds of every placer state: the curves carry the ids 0, 1, 2, ...;
   * there is at least one; each has between 1 and `max(1, n_steps)` samples;
   * every curve after the first has at least `min_steps_allowed` samples;
   * the grid is the initial grid with exactly the kept curves committed, in
   * order; and the cursor never passes the end of the list.
   */
  ghost predicate Consistent(p: Params, g0: GridModel, st: PlacerState)
    requires g0.Valid()
  {
    && 1 <= |st.curves|
    && (forall k :: 0 <= k < |st.curves| ==> st.curves[k].id == k)
    && (forall k :: 0 <= k < |st.curves| ==> 1 <= st.curves[k].StepsTaken() <= Max(1, p.nSteps))
    && (forall k :: 1 <= k < |st.curves| ==> p.minStepsAllowed <= st.curves[k].StepsTaken())
    && st.grid == CommitAll(g0, st.curves)
    && 0 <= st.cursor <= |st.curves|
  }

  /**
   * A seed candidate is kept exactly when it passes `is_valid_next_step` and
   * its traced curve has at least `min_steps_allowed` samples; a kept curve
   * gets id `curve_array_index` and is committed; anything else leaves the
   * state as it was.
   */
  lemma TryCandidateEffect(p: Params, st: PlacerState, seed: Point)
    requires p.field.Valid() && st.grid.Valid()
    ensures var r := TryCandidate(p, st, seed);
      var kept := st.grid.ValidNextStep(seed.x, seed.y) && p.minStepsAllowed <= Candidate(p, st, seed).StepsTaken();
      && (kept ==>
            && r.curves == st.curves + [Candidate(p, st, seed)]
            && r.grid == st.grid.InsertAll(Candidate(p, st, seed).samples).0
            && Candidate(p, st, seed).id == |st.curves|
            && Candidate(p, st, seed).samples[0] == Sample(seed.x, seed.y, Backward))
      && (!kept ==> r == st)
  {
    if st.grid.ValidNextStep(seed.x, seed.y) {
      TraceWellFormed(p.field, st.grid, p.trig, p.stepLength, p.nSteps, seed.x, seed.y);
    }
  }

  lemma CommitAllAppend(g0: GridModel, curves: seq<Streamline>, c: Streamline)
    requires g0.Valid()
    ensures CommitAll(g0, curves + [c]) == CommitAll(g0, curves).InsertAll(c.samples).0
  {
    assert (curves + [c])[..|curves|] == curves;
  }

  /** One seed candidate keeps the placer state consistent. */
  lemma TryCandidateConsistent(p: Params, g0: GridModel, st: PlacerState, seed: Point)
    requires p.field.Valid() && g0.Valid() && st.grid.Valid() && Consistent(p, g0, st)
    ensures Consistent(p, g0, TryCandidate(p, st, seed))
  {
    var st1 := TryCandidate(p, st, seed);
    if st1 != st {
      TryCandidateEffect(p, st, seed);
      var c := Candidate(p, st, seed);
      TraceWellFormed(p.field, st.grid, p.trig, p.stepLength, p.nSteps, seed.x, seed.y);
      CommitAllAppend(g0, st.curves, c);
    }
  }

  lemma {:induction false} ProcessSeedsConsistent(p: Params, g0: GridModel, st: PlacerState, seeds: seq<Point>)
    requires p.field.Valid() && g0.Valid() && st.grid.Valid() && Consistent(p, g0, st)
    ensures Consistent(p, g0, ProcessSeeds(p, st, seeds))
    decreases |seeds|
  {
    if seeds != [] {
      TryCandidateConsistent(p, g0, st, seeds[0]);
      ProcessSeedsConsistent(p, g0, TryCandidate(p, st, seeds[0]), seeds[1..]);
    }
  }

  lemma {:induction false} ExpandConsistent(p: Params, g0: GridModel, st: PlacerState)
    requires p.field.Valid() && g0.Valid() && st.grid.Valid() && Consistent(p, g0, st)
    ensures Consistent(p, g0, Expand(p, st))
    decreases p.nCurves - st.cursor
  {
    if Continues(st.cursor, |st.curves|, p.nCurves) {
      var seeds := AllSeedPoints(st.curves[st.cursor].samples, p.trig);
      ProcessSeedsConsistent(p, g0, st, seeds);
      ExpandConsistent(p, g0, ExpandOne(p, st));
    }
  }

  /**
   * The placer's result: the first curve is the one traced from the start
   * point, with id 0, and is always kept; every curve carries its index as
   * id; every later curve has at least `min_steps_allowed` samples; the
   * final grid is the initial one with exactly the kept curves committed in
   * order; and the run ended because the cursor reached `n_curves`, the list
   * reached `n_curves` curves, or every curve in the list was expanded.
   */
  lemma PlaceResult(p: Params, g0: GridModel, xStart: real, yStart: real)
    requires p.field.Valid() && g0.Valid()
    ensures var r := Place(p, g0, xStart, yStart);
      && Consistent(p, g0, r)
      && r.curves[0] == Streamline(0, Trace(p.field, g0, p.trig, p.stepLength, p.nSteps, xStart, yStart))
      && (r.cursor >= p.nCurves || |r.curves| >= p.nCurves || r.cursor == |r.curves|)
  {
    var st0 := Start(p, g0, xStart, yStart);
    TraceWellFormed(p.field, g0, p.trig, p.stepLength, p.nSteps, xStart, yStart);
    CommitAllAppend(g0, [], st0.curves[0]);
    assert Consistent(p, g0, st0);
    ExpandConsistent(p, g0, st0);
  }

  /** The seed candidates of a curve with at most `max(1, n_steps)` samples number at most `2 (max(1, n_steps) - 1)`. */
  lemma SeedBound(p: Params, c: Streamline)
    requires 1 <= c.StepsTaken() <= Max(1, p.nSteps)
    ensures |AllSeedPoints(c.samples, p.trig)| <= 2 * (Max(1, p.nSteps) - 1)
  {
    SeedPointCount(c.samples, p.trig);
  }

  lemma {:induction false} ExpandBound(p: Params, g0: GridModel, st: PlacerState)
    requires p.field.Valid() && g0.Valid() && st.grid.Valid() && Consistent(p, g0, st)
    requires |st.curves| <= Max(1, p.nCurves - 1 + 2 * (Max(1, p.nSteps) - 1))
    ensures |Expand(p, st).curves| <= Max(1, p.nCurves - 1 + 2 * (Max(1, p.nSteps) - 1))
    decreases p.nCurves - st.cursor
  {
    if Continues(st.cursor, |st.curves|, p.nCurves) {
      SeedBound(p, st.curves[st.cursor]);
      ProcessSeedsConsistent(p, g0, st, AllSeedPoints(st.curves[st.cursor].samples, p.trig));
      ExpandBound(p, g0, ExpandOne(p, st));
    }
  }

  /**
   * The budget `n_curves` is checked only before an expansion, so one
   * expansion started with `n_curves - 1` curves can still add all of its
   * `2 (n_steps - 1)` candidates: the list never exceeds
   * `max(1, n_curves - 1 + 2 (max(1, n_steps) - 1))` curves.
   */
  lemma PlaceBound(p: Params, g0: GridModel, xStart: real, yStart: real)
    requires p.field.Valid() && g0.Valid()
    ensures |Place(p, g0, xStart, yStart).curves| <= Max(1, p.nCurves - 1 + 2 * (Max(1, p.nSteps) - 1))
  {
    var st0 := Start(p, g0, xStart, yStart);
    TraceWellFormed(p.field, g0, p.trig, p.stepLength, p.nSteps, xStart, yStart);
    CommitAllAppend(g0, [], st0.curves[0]);
    ExpandBound(p, g0, st0);
  }

  /**
   * The written loop guard reads past the end of the list.  Starting at
   * (0, 0), on the flow field's edge, the first curve is the start point alone and has no seed candidates.  After
   * its expansion `curve_id == curve_array_index == 1`, and with the
   * program's `N_CURVES` the written guard still starts an expansion, which
   * reads `curves[1]`, past the end of the one-curve list.  The corrected
   * guard stops there, with the one curve as the result.
   */
  lemma AsWrittenGuardReadsPastEnd(p: Params, g0: GridModel)
    requires p.field.Valid() && g0.Valid() && p.nCurves == NCurves
    ensures var st := ExpandOne(p, Start(p, g0, 0.0, 0.0));
      && st.cursor == 1 && |st.curves| == 1
      && ContinuesAsWritten(st.cursor, |st.curves|, p.nCurves)
      && !Continues(st.cursor, |st.curves|, p.nCurves)
      && Place(p, g0, 0.0, 0.0).curves == [Streamline(0, [Sample(0.0, 0.0, Backward)])]
  {
    var st0 := Start(p, g0, 0.0, 0.0);
    assert p.field.OffBoundaries(0.0, 0.0);
    assert Trace(p.field, g0, p.trig, p.stepLength, p.nSteps, 0.0, 0.0) == [Sample(0.0, 0.0, Backward)];
    assert AllSeedPoints(st0.curves[0].samples, p.trig) == [];
    var st1 := ExpandOne(p, st0);
    assert st1.curves == st0.curves;
    assert Place(p, g0, 0.0, 0.0) == Expand(p, st1);
  }

  /**
   * The body of one expansion of `even_spaced_curves`: each seed candidate of
   * the curve under the cursor, in order, is tested, traced and, when long
   * enough, appended and committed.  The result is `ProcessSeeds`.
   */
  method TrySeeds(points: seq<Point>, curves: seq<Streamline>, curveId: int, dropped: nat,
                  nSteps: int, minStepsAllowed: int, stepLength: real,
                  field: FlowField, densityGrid: DensityGrid, trig: Trig, ghost p: Params)
    returns (curves': seq<Streamline>, dropped': nat)
    requires field.Valid() && densityGrid.Valid()
    requires p == Params(field, trig, p.nCurves, nSteps, minStepsAllowed, stepLength)
    modifies densityGrid.grid
    ensures densityGrid.Valid()
    ensures PlacerState(densityGrid.Model(), curves', curveId, dropped')
      == ProcessSeeds(p, PlacerState(old(densityGrid.Model()), curves, curveId, dropped), points)
  {
    ghost var st0 := PlacerState(densityGrid.Model(), curves, curveId, dropped);
    curves', dropped' := curves, dropped;
    var curveArrayIndex := |curves|;
    for j := 0 to |points|
      invariant densityGrid.Valid()
      invariant curveArrayIndex == |curves'|
      invariant ProcessSeeds(p, PlacerState(densityGrid.Model(), curves', curveId, dropped'), points[j..])
        == ProcessSeeds(p, st0, points)
    {
      ghost var st := PlacerState(densityGrid.Model(), curves', curveId, dropped');
      assert points[j..] == [points[j]] + points[j + 1..];
      var seed := points[j];
      // a candidate too close to a committed curve is skipped
      var valid := densityGrid.IsValidNextStep(seed.x, seed.y);
      if !valid {
        continue;
      }
      var curve := DrawCurve(curveArrayIndex, seed.x, seed.y, nSteps, stepLength, field, densityGrid, trig);
      if curve.StepsTaken() < minStepsAllowed {
        continue;
      }
      curves' := curves' + [curve];
      // a kept curve is appended and committed
      var refused := densityGrid.InsertCurveCoords(curve);
      dropped' := dropped' + refused;
      curveArrayIndex := curveArrayIndex + 1;
      assert PlacerState(densityGrid.Model(), curves', curveId, dropped') == TryCandidate(p, st, seed);
    }
    assert points[|points|..] == [];
  }

  /**
   * `even_spaced_curves`: returns the curves `Place` describes, with the
   * number of points the grid refused, and leaves the grid in the state
   * `Place` describes.
   */
  method EvenSpacedCurves(xStart: real, yStart: real, nCurves: int, nSteps: int, minStepsAllowed: int,
                          stepLength: real, field: FlowField, densityGrid: DensityGrid, trig: Trig)
    returns (curves: seq<Streamline>, dropped: nat)
    requires field.Valid() && densityGrid.Valid()
    modifies densityGrid.grid
    ensures densityGrid.Valid()
    ensures var r := Place(Params(field, trig, nCurves, nSteps, minStepsAllowed, stepLength), old(densityGrid.Model()), xStart, yStart);
      curves == r.curves && densityGrid.Model() == r.grid && dropped == r.dropped
  {
    ghost var p := Params(field, trig, nCurves, nSteps, minStepsAllowed, stepLength);
    ghost var g0 := densityGrid.Model();
    ghost var start := Start(p, g0, xStart, yStart);
    ghost var final := Expand(p, start);
    var curveArrayIndex := 0;
    var curveId := 0;
    var first := DrawCurve(curveId, xStart, yStart, nSteps, stepLength, field, densityGrid, trig);
    curves := [first];
    dropped := densityGrid.InsertCurveCoords(first);
    curveArrayIndex := curveArrayIndex + 1;
    assert PlacerState(densityGrid.Model(), curves, curveId, dropped) == start;

    while curveId < nCurves && curveArrayIndex < nCurves && curveId < curveArrayIndex
      invariant densityGrid.Valid()
      invariant curveArrayIndex == |curves| && 0 <= curveId <= |curves|
      invariant Expand(p, PlacerState(densityGrid.Model(), curves, curveId, dropped)) == final
      decreases nCurves - curveId
    {
      ghost var st0 := PlacerState(densityGrid.Model(), curves, curveId, dropped);
      var queue := CollectSeedPoints(curves[curveId], trig);
      curves, dropped := TrySeeds(queue.points, curves, curveId, dropped, nSteps, minStepsAllowed, stepLength,
                                  field, densityGrid, trig, p);
      curveArrayIndex := |curves|;
      assert Expand(p, st0) == Expand(p, ExpandOne(p, st0));
      assert ExpandOne(p, st0) == PlacerState(densityGrid.Model(), curves, curveId + 1, dropped);
      curveId := curveId + 1;
    }
  }
}
