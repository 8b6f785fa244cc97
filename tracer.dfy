/**
 * `draw_curve`: trace one curve from a start point, first backward (against
 * the field) and then forward (along it), with fixed Euler steps of length
 * `step_length`.  One step counter is shared by both halves: the backward
 * half runs while it is below `n_steps / 2`, the forward half while it is
 * below `n_steps`.  A half stops when its current position is outside the
 * flow field or when the next position fails `is_valid_next_step`.
 */
module Tracer {
  import opened Geometry
  import opened FlowFields
  import opened Curves
  import opened Density

  /** One Euler step of a coordinate: against the field when `backward`, along it otherwise. */
  function Advance(backward: bool, v: real, step: real): real {
    if backward then v - step else v + step
  }

  /**
   * The position one Euler step from `(x, y)`, which must be inside the
   * field: the displacement is `step_length` times the unit vector of the
   * cell's angle (so the step has length `step_length` when
   * `cos^2 + sin^2 = 1`), negated for the backward half.
   */
  function StepFrom(f: FlowField, trig: Trig, stepLength: real, backward: bool, x: real, y: real): (p: Point)
    requires f.Valid() && !f.OffBoundaries(x, y)
    ensures var a, s := f.GetAngle(x, y), if backward then -1.0 else 1.0;
      p.x - x == s * stepLength * trig.cos(a) && p.y - y == s * stepLength * trig.sin(a)
    ensures var a := f.GetAngle(x, y);
      SqDist(x, y, p.x, p.y) == stepLength * stepLength * (trig.cos(a) * trig.cos(a) + trig.sin(a) * trig.sin(a))
  {
    var angle := f.GetAngle(x, y);
    Point(Advance(backward, x, stepLength * trig.cos(angle)), Advance(backward, y, stepLength * trig.sin(angle)))
  }

  /**
   * The positions one half of the tracer accepts from `(x, y)` with the
   * counter at `i`: at most `limit - i` of them.
   */
  ghost function Walk(f: FlowField, g: GridModel, trig: Trig, stepLength: real, backward: bool,
                      x: real, y: real, i: int, limit: int): (ps: seq<Point>)
    requires f.Valid() && g.shape.Valid()
    ensures |ps| <= if i < limit then limit - i else 0
    decreases limit - i
  {
    if i < limit && !f.OffBoundaries(x, y) then
      var p := StepFrom(f, trig, stepLength, backward, x, y);
      if g.ValidNextStep(p.x, p.y) then [p] + Walk(f, g, trig, stepLength, backward, p.x, p.y, i + 1, limit)
      else []
    else []
  }

  /** Every position a half accepts passed `is_valid_next_step`. */
  lemma {:induction false} WalkAccepted(f: FlowField, g: GridModel, trig: Trig, stepLength: real, backward: bool,
                                        x: real, y: real, i: int, limit: int, k: int)
    requires f.Valid() && g.shape.Valid()
    ensures var ps := Walk(f, g, trig, stepLength, backward, x, y, i, limit);
      0 <= k < |ps| ==> g.ValidNextStep(ps[k].x, ps[k].y)
    decreases if k < 0 then 0 else k
  {
    var ps := Walk(f, g, trig, stepLength, backward, x, y, i, limit);
    if 0 < k < |ps| {
      var p := StepFrom(f, trig, stepLength, backward, x, y);
      WalkAccepted(f, g, trig, stepLength, backward, p.x, p.y, i + 1, limit, k - 1);
    }
  }

  /** Positions tagged with the direction of their half. */
  function Tag(ps: seq<Point>, direction: int): (s: seq<Sample>)
    ensures |s| == |ps|
    ensures forall k :: 0 <= k < |s| ==> s[k] == Sample(ps[k].x, ps[k].y, direction)
  {
    seq(|ps|, k requires 0 <= k < |ps| => Sample(ps[k].x, ps[k].y, direction))
  }

  /** The positions accepted by the backward half. */
  ghost function BackwardWalk(f: FlowField, g: GridModel, trig: Trig, stepLength: real, nSteps: int,
                              xStart: real, yStart: real): seq<Point>
    requires f.Valid() && g.shape.Valid()
  {
    Walk(f, g, trig, stepLength, true, xStart, yStart, 1, CDiv(nSteps, 2))
  }

  /** The positions accepted by the forward half, whose counter starts where the backward half left it. */
  ghost function ForwardWalk(f: FlowField, g: GridModel, trig: Trig, stepLength: real, nSteps: int,
                             xStart: real, yStart: real): seq<Point>
    requires f.Valid() && g.shape.Valid()
  {
    var back := BackwardWalk(f, g, trig, stepLength, nSteps, xStart, yStart);
    Walk(f, g, trig, stepLength, false, xStart, yStart, 1 + |back|, nSteps)
  }

  /** The samples `draw_curve` records: the start (tag 0), the backward half (tag 0), the forward half (tag 1). */
  ghost function Trace(f: FlowField, g: GridModel, trig: Trig, stepLength: real, nSteps: int,
                       xStart: real, yStart: real): (s: seq<Sample>)
    requires f.Valid() && g.shape.Valid()
    ensures 1 <= |s| <= Max(1, nSteps) && s[0] == Sample(xStart, yStart, Backward)
  {
    [Sample(xStart, yStart, Backward)]
    + Tag(BackwardWalk(f, g, trig, stepLength, nSteps, xStart, yStart), Backward)
    + Tag(ForwardWalk(f, g, trig, stepLength, nSteps, xStart, yStart), Forward)
  }

  function Max(a: int, b: int): int {
    if a < b then b else a
  }

  /**
   * A traced curve is well formed: sample 0 is the start point with tag 0;
   * the tags are a run of 0s followed by a run of 1s; there are at most
   * `max(1, n_steps)` samples, of which the backward half adds at most
   * `n_steps / 2 - 1`; and every sample after the first passed
   * `is_valid_next_step` against the grid the curve was traced on.
   */
  lemma TraceWellFormed(f: FlowField, g: GridModel, trig: Trig, stepLength: real, nSteps: int,
                        xStart: real, yStart: real)
    requires f.Valid() && g.shape.Valid()
    ensures var s := Trace(f, g, trig, stepLength, nSteps, xStart, yStart);
      && 1 <= |s| <= Max(1, nSteps)
      && s[0] == Sample(xStart, yStart, Backward)
      && (forall k :: 0 <= k < |s| ==> s[k].direction == Backward || s[k].direction == Forward)
      && (forall j, k :: 0 <= j < k < |s| && s[j].direction == Forward ==> s[k].direction == Forward)
      && (forall k :: 1 <= k < |s| && s[k].direction == Backward ==> k <= CDiv(nSteps, 2) - 1)
      && (forall k :: 1 <= k < |s| ==> g.ValidNextStep(s[k].x, s[k].y))
  {
    var back := BackwardWalk(f, g, trig, stepLength, nSteps, xStart, yStart);
    var fwd := ForwardWalk(f, g, trig, stepLength, nSteps, xStart, yStart);
    var s := Trace(f, g, trig, stepLength, nSteps, xStart, yStart);
    assert |s| == 1 + |back| + |fwd|;
    forall k | 1 <= k < |s|
      ensures g.ValidNextStep(s[k].x, s[k].y)
      ensures s[k].direction == (if k <= |back| then Backward else Forward)
    {
      if k <= |back| {
        var q := back[k - 1];
        WalkAccepted(f, g, trig, stepLength, true, xStart, yStart, 1, CDiv(nSteps, 2), k - 1);
        assert s[k] == Sample(q.x, q.y, Backward);
      } else {
        var q := fwd[k - 1 - |back|];
        WalkAccepted(f, g, trig, stepLength, false, xStart, yStart, 1 + |back|, nSteps, k - 1 - |back|);
        assert s[k] == Sample(q.x, q.y, Forward);
      }
    }
  }

  /**
   * Every sample after the first is one Euler step from the position before
   * it in its own half (the start point for the first sample of each half),
   * taken from a position inside the flow field.
   */
  lemma {:induction false} WalkSteps(f: FlowField, g: GridModel, trig: Trig, stepLength: real, backward: bool,
                                     x: real, y: real, i: int, limit: int, k: int)
    requires f.Valid() && g.shape.Valid()
    ensures var ps := Walk(f, g, trig, stepLength, backward, x, y, i, limit);
      0 <= k < |ps| ==>
        var prev := if k == 0 then Point(x, y) else ps[k - 1];
        !f.OffBoundaries(prev.x, prev.y) && ps[k] == StepFrom(f, trig, stepLength, backward, prev.x, prev.y)
    decreases if k < 0 then 0 else k
  {
    var ps := Walk(f, g, trig, stepLength, backward, x, y, i, limit);
    if 0 < k < |ps| {
      var p := StepFrom(f, trig, stepLength, backward, x, y);
      WalkSteps(f, g, trig, stepLength, backward, p.x, p.y, i + 1, limit, k - 1);
    }
  }

  /** Unfolds one accepted step of `Walk`. */
  lemma WalkUnfold(f: FlowField, g: GridModel, trig: Trig, stepLength: real, backward: bool,
                   x: real, y: real, i: int, limit: int)
    requires f.Valid() && g.shape.Valid() && i < limit && !f.OffBoundaries(x, y)
    requires var p := StepFrom(f, trig, stepLength, backward, x, y); g.ValidNextStep(p.x, p.y)
    ensures var p := StepFrom(f, trig, stepLength, backward, x, y);
      Walk(f, g, trig, stepLength, backward, x, y, i, limit)
        == [p] + Walk(f, g, trig, stepLength, backward, p.x, p.y, i + 1, limit)
  {
  }

  /** Recording the first position of the rest of a walk moves it from the walk to the recorded samples. */
  lemma StepRecorded(before: seq<Sample>, p: Point, rest: seq<Point>, direction: int)
    ensures before + Tag([p] + rest, direction) == (before + [Sample(p.x, p.y, direction)]) + Tag(rest, direction)
  {
    assert Tag([p] + rest, direction) == [Sample(p.x, p.y, direction)] + Tag(rest, direction);
  }

  /**
   * One half of `draw_curve`: from `(x0, y0)` with the shared counter at
   * `i0`, step along (or against) the field while the counter is below
   * `limit`, the current position is inside the field and the next position
   * passes `is_valid_next_step`, recording each accepted position with the
   * half's tag.  The recorded samples are exactly `Walk`, and the counter
   * ends one past the last recorded step.
   */
  method TraceHalf(c: Curve, x0: real, y0: real, i0: int, limit: int, backward: bool, stepLength: real,
                   field: FlowField, grid: DensityGrid, trig: Trig) returns (i: int)
    requires c.Valid() && c.stepsTaken == i0 && field.Valid() && grid.Valid()
    modifies c
    ensures c.Valid() && c.stepsTaken == i
    ensures c.Samples() == old(c.Samples())
      + Tag(Walk(field, grid.Model(), trig, stepLength, backward, x0, y0, i0, limit), if backward then Backward else Forward)
  {
    ghost var g := grid.Model();
    ghost var walk := Walk(field, g, trig, stepLength, backward, x0, y0, i0, limit);
    var dir := if backward then Backward else Forward;
    ghost var target := old(c.Samples()) + Tag(walk, dir);
    var x, y := x0, y0;
    i := i0;
    while i < limit
      invariant c.Valid() && c.stepsTaken == i
      invariant c.Samples() + Tag(Walk(field, g, trig, stepLength, backward, x, y, i, limit), dir) == target
    {
      if field.OffBoundaries(x, y) {
        break;
      }
      var next := StepFrom(field, trig, stepLength, backward, x, y);
      var valid := grid.IsValidNextStep(next.x, next.y);
      if !valid {
        break;
      }
      WalkUnfold(field, g, trig, stepLength, backward, x, y, i, limit);
      ghost var rest := Walk(field, g, trig, stepLength, backward, next.x, next.y, i + 1, limit);
      StepRecorded(c.Samples(), next, rest, dir);
      x, y := next.x, next.y;
      c.InsertStep(x, y, dir);
      i := i + 1;
    }
  }

  /**
   * `draw_curve`: the curve it returns carries the given id and exactly the
   * samples `Trace` describes.  The density grid is only read.
   */
  method DrawCurve(curveId: int, xStart: real, yStart: real, nSteps: int, stepLength: real,
                   field: FlowField, grid: DensityGrid, trig: Trig) returns (curve: Streamline)
    requires field.Valid() && grid.Valid()
    ensures curve == Streamline(curveId, Trace(field, grid.Model(), trig, stepLength, nSteps, xStart, yStart))
  {
    ghost var back := BackwardWalk(field, grid.Model(), trig, stepLength, nSteps, xStart, yStart);
    ghost var fwd := ForwardWalk(field, grid.Model(), trig, stepLength, nSteps, xStart, yStart);
    var c := new Curve(curveId);
    c.InsertStep(xStart, yStart, Backward);
    var i := 1;
    // backward half, tagged 0, below n_steps / 2
    i := TraceHalf(c, xStart, yStart, i, CDiv(nSteps, 2), true, stepLength, field, grid, trig);
    assert i == 1 + |back|;
    // forward half, tagged 1, from the start point again
    i := TraceHalf(c, xStart, yStart, i, nSteps, false, stepLength, field, grid, trig);
    assert c.Samples() == [Sample(xStart, yStart, Backward)] + Tag(back, Backward) + Tag(fwd, Forward);
    curve := c.Value();
  }
}
