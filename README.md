# Evenly spaced streamlines (Jobard–Lefer placer), modelled in Dafny

This project models the streamline placer in `C++/src/main.cpp`. The placer draws
curves that follow a flow field and keeps them roughly `d_sep` apart, after
Jobard and Lefer. It has these parts:

- **Flow field.** A fixed table of angles, one per unit cell (`flow_field.dfy`).
- **Curve.** The append-only sample log that `draw_curve` fills (`curve.dfy`).
- **Density grid.** Buckets of side `d_sep` that hold the committed curve
  points. They answer `is_valid_next_step`, the spacing test (`density_grid.dfy`).
  Its properties are in `density_properties.dfy`.
- **Seed points.** `collect_seedpoints` derives candidate start points from a
  curve (`seed_points.dfy`).
- **Tracer.** `draw_curve` traces a curve backward, then forward, from a start
  point (`tracer.dfy`).
- **Placer.** `even_spaced_curves` traces the first curve, then expands the
  accepted curves in order through a cursor `curve_id` (`placer.dfy`).
- **Constants.** The program's compile-time configuration is in `config.dfy`.
- **Worked examples.** Small concrete runs are in `scenarios.dfy`.

Modelling choices:

- Coordinates are `real`.
- The C++ `(int)` cast is `Geometry.Trunc`, which truncates toward zero.
- `n_steps / 2` is `Geometry.CDiv`, C++ division.
- Distances are compared squared. `distance(..) <= d_test` becomes
  `SqDist(..) <= d_test * d_test`, which is equivalent because `d_test` is
  non-negative.
- `cos`, `sin`, `atan2` and `M_PI` are fields of a `Trig` value that is passed
  in. Nothing is assumed about them.
- Stateful pieces are classes: `Curve`, `DensityGrid` over an `array2`, and
  `SeedPointsQueue`.
- Every method is proved equal to a pure specification function.
  - `DensityGrid` is specified through its value `GridModel`.
  - `draw_curve` is specified by `Trace`.
  - `even_spaced_curves` is specified by `Place`.
- The properties are lemmas about those functions.
- A traced curve is stored as a `Streamline` value, as the C++ code copies
  `Curve` objects into its vector.

Behaviour of the code worth knowing before reading the contracts:

- **Budget overshoot.** The curve budget `n_curves` is tested only before an
  expansion starts, so one expansion can take the list past it.
  `Placer.PlaceBound` bounds the overshoot.
- **Far points refused on a coarse grid.** The density grid's boundary test
  compares raw coordinates with its numbers of cells. On a 10 x 10 field with
  `d_sep = 2` (5 x 5 buckets), `is_valid_next_step(8, 8)` is false on a
  nearly empty grid: 8 is not below 5, and its column would be 5, past the
  last one. `Scenarios.DensityScenario` shows this.
- **Shared step counter.** One counter bounds both halves of `draw_curve`,
  and the forward half restarts at the start point. Tracing four steps of
  length 1 on a constant field from (5, 5), against a grid of side 1, gives
  x = 5, 4, 6, 7 at y = 5 (`Scenarios.TracerScenario`). Against the 5 x 5
  grid of side 2, both first steps fail the density grid's boundary test, so
  the curve is the start sample alone (`Scenarios.TracerScenarioCoarseGrid`).
- **Cursor past the end.** The placer's loop never tests that the cursor
  names an accepted curve; see Findings.
- **Truncation.** The flow-field lookup truncates with `(int)`. On the
  positive coordinates that pass `off_boundaries`, this is the floor.

## Model

| member | source | states |
|---|---|---|
| Geometry.Trunc | C++/src/main.cpp:52-58 | `(int) v` truncates toward zero: the result is the integer part of `v` for either sign |
| Geometry.CDiv | C++/src/main.cpp:310 | `n / d` rounds toward zero: `q*d <= n < q*d + d` for non-negative `n` and the mirrored bounds for negative `n` |
| Geometry.SquareBound | C++/src/main.cpp:26-30 | comparing squares of a non-negative bound bounds the value on both sides |
| Geometry.CoordinateWithin | C++/src/main.cpp:26-30 | two points within distance `d` differ by at most `d` in each coordinate |
| Geometry.TruncNear | C++/src/main.cpp:140-148 | non-negative values less than 1 apart truncate to integers at most 1 apart |
| Geometry.WithinDistance | C++/src/main.cpp:26-30 | `distance(p, q) <= d` for `d >= 0` is the squared test, symmetric in the two points and true of a point and itself |
| FlowFields.FlowField.Col | C++/src/main.cpp:52-54 | `get_flow_field_col`: the unit column `c` of a non-negative `x` has `c <= x < c + 1` |
| FlowFields.FlowField.Row | C++/src/main.cpp:56-58 | `get_flow_field_row`: the unit row `r` of a non-negative `y` has `r <= y < r + 1` |
| FlowFields.FlowField.OffBoundaries | C++/src/main.cpp:60-67 | a point the strict-box test admits has a column and a row of the table |
| FlowFields.FlowField.GetAngle | C++/src/main.cpp:69-73 | the result is the angle of the table cell that contains the point |
| FlowFields.FlowField.CellInRange | C++/src/main.cpp:52-73 | `off_boundaries` is false exactly on the open box (0, W) x (0, H); then `(int) x`, `(int) y` index the table and bracket the point |
| Curves.Curve.Value | C++/src/main.cpp:83-90 | a curve's value keeps its id and has `steps_taken` samples |
| Curves.Curve.constructor | C++/src/main.cpp:92-99 | a new curve has the given id and no samples |
| Curves.Curve.InsertStep | C++/src/main.cpp:101-107 | `steps_taken` grows by one, the new step's `step_id` is its index, earlier samples are unchanged and the new sample is appended |
| Density.GridShape.Col | C++/src/main.cpp:140-143 | `get_density_col`: the bucket column of a non-negative `x` is at least 1, because of the `+1` offset |
| Density.GridShape.Row | C++/src/main.cpp:145-148 | `get_density_row`: the bucket row of a non-negative `y` is at least 1 |
| Density.GridShape.BucketCovers | C++/src/main.cpp:140-148 | bucket `c` of a non-negative coordinate covers `[(c - 1) d_sep, c d_sep)` |
| Density.GridShape.OffBoundariesAsWritten | C++/src/main.cpp:150-159 | the written test compares raw coordinates with the cell counts; a point it admits has bucket indices of at least 1, but not necessarily inside the grid |
| Density.GridShape.OffBoundaries | C++/src/main.cpp:150-159 | the corrected test rejects exactly what the written test rejects plus the points whose bucket lies outside the grid |
| Density.GridShape.NeighbourhoodAsWritten | C++/src/main.cpp:196-199 | the written clamps start at `max(idx - 1, 0)`, contain the centre, reach at most one cell out, and bound the end column by the height and the end row by the width |
| Density.GridShape.Neighbourhood | C++/src/main.cpp:196-199 | the corrected clamps contain the centre, reach at most one cell out, and stay inside the grid whenever the centre does |
| Density.GridShape.CellInRange | C++/src/main.cpp:140-159 | a point inside the corrected boundary test has a bucket inside the grid, at index 1 or more because of the `+1` offset |
| Density.GridShape.NeighbourhoodInRange | C++/src/main.cpp:196-199 | the corrected clamps give exactly the grid cells at most one column and one row from the point's bucket |
| Density.GridModel.ValidNextStep | C++/src/main.cpp:188-223 | a point that passes is inside the boundaries and has no stored point of its own bucket within `d_test` |
| Density.GridModel.InsertCoord | C++/src/main.cpp:161-179 | inserting a point keeps every bucket well formed (`space_used <= capacity - 1`, points in their own bucket) and the grid's shape |
| Density.GridModel.InsertAll | C++/src/main.cpp:181-186 | inserting a curve's samples keeps the grid valid and refuses at most one point per sample |
| Density.EmptyGrid | C++/src/main.cpp:126-138 | a fresh grid of empty buckets is valid |
| Density.DensityGrid.constructor | C++/src/main.cpp:126-138 | every bucket of the new grid is empty with capacity `cell_capacity` |
| Density.DensityGrid.InsertCoord | C++/src/main.cpp:161-179 | the array afterwards is `GridModel.InsertCoord` of the array before, with the same outcome |
| Density.DensityGrid.InsertCurveCoords | C++/src/main.cpp:181-186 | equals `insert_coord` on samples `0 .. steps_taken - 1` in order, and counts the refused points |
| Density.DensityGrid.CellHasNear | C++/src/main.cpp:206-218 | the scan of one bucket finds a point within `d_test` exactly when one exists |
| Density.DensityGrid.IsValidNextStep | C++/src/main.cpp:188-223 | the result is false off the boundaries, and otherwise false exactly when a point in the clamped 3x3 neighbourhood lies within `d_test`; the grid is only read |
| DensityProperties.InsertCoordEffect | C++/src/main.cpp:161-179 | an outside point changes nothing; an inside point is appended to exactly its own bucket iff `space_used + 1 < capacity`, else nothing is stored; no other bucket changes |
| DensityProperties.SpaceUsedBound | C++/src/main.cpp:169-175 | every bucket keeps `space_used <= capacity - 1` or is empty |
| DensityProperties.NearPointIsNeighbour | C++/src/main.cpp:193-203 | a stored point within `d_test` of an inside point lies at most one bucket away in each direction, since `d_test < d_sep` |
| DensityProperties.LocalScanIsGlobal | C++/src/main.cpp:188-223 | the 3x3 scan accepts exactly the inside points with no stored point anywhere in the grid within `d_test` |
| DensityProperties.StoredPointBlocksItself | C++/src/main.cpp:161-223 | right after a point is stored, `is_valid_next_step` rejects its own position |
| DensityProperties.InsertAllExtends | C++/src/main.cpp:181-186 | committing a curve only appends to buckets and never removes a point |
| DensityProperties.RejectionPersists | C++/src/main.cpp:181-223 | a position rejected for closeness stays rejected after more curves are committed |
| DensityProperties.AsWrittenBoundaryAdmitsOutsideCell | C++/src/main.cpp:150-159 | with the shipped constants, (119.5, 10) passes the written test yet its column is 150, past the grid |
| DensityProperties.AsWrittenClampsLeaveGrid | C++/src/main.cpp:196-199 | on a 10 x 3 grid the written clamps give cell (1, 2) end row 3, outside the grid |
| DensityProperties.AsWrittenClampsSkipRow | C++/src/main.cpp:196-199 | on a 3 x 10 grid the written clamps give cell (1, 5) end row 5 and skip row 6, which lies in the grid; the corrected clamps scan it |
| DensityProperties.ClampsAgreeOnSquareGrid | C++/src/main.cpp:196-199 | on a square grid, the program's own configuration, the written and corrected clamps agree |
| Seeds.SeedPoints | C++/src/main.cpp:265-287 | candidate `2i` is the left and `2i + 1` the right point of sample `i`, for `i` in increasing order |
| Seeds.SeedPointCount | C++/src/main.cpp:258-290 | a curve of at most one sample yields no candidate, otherwise exactly `2 (steps_taken - 1)`, never more than `2 steps_taken` |
| Seeds.SeedPointsQueue.constructor | C++/src/main.cpp:234-238 | a new queue is empty with capacity `2 n_steps` |
| Seeds.SeedPointsQueue.IsEmpty | C++/src/main.cpp:240-242 | on a valid queue, `is_empty` holds iff no candidate is held |
| Seeds.SeedPointsQueue.InsertPoint | C++/src/main.cpp:250-253 | the point is appended and `space_used` grows by one |
| Seeds.SeedPointsQueue.InsertCoord | C++/src/main.cpp:244-248 | the point `(x, y)` is appended and `space_used` grows by one |
| Seeds.CollectSeedPoints | C++/src/main.cpp:258-290 | the queue holds all candidates of the curve in order, stays within its capacity `2 steps_taken`, and is empty iff `steps_taken <= 1` |
| Tracer.StepFrom | C++/src/main.cpp:315-319 | the displacement is `step_length` times (`cos`, `sin`) of the cell angle, negated for the backward half; its squared length is `step_length^2 (cos^2 + sin^2)` |
| Tracer.Walk | C++/src/main.cpp:310-327 | one half adds at most `limit - i` positions, since the shared counter bounds it |
| Tracer.WalkAccepted | C++/src/main.cpp:321-325 | every position a half records passed `is_valid_next_step` |
| Tracer.Trace | C++/src/main.cpp:295-352 | a traced curve has between 1 and `max(1, n_steps)` samples, and sample 0 is the start point with tag 0 |
| Tracer.TraceWellFormed | C++/src/main.cpp:295-352 | sample 0 is the start with tag 0; tags are a run of 0s then 1s; at most `max(1, n_steps)` samples, the backward half at indices up to `n_steps / 2 - 1`; every later sample passed `is_valid_next_step` |
| Tracer.WalkSteps | C++/src/main.cpp:311-319 | each sample is one Euler step, along or against the field angle, from an inside position: the previous sample of its half or the start |
| Tracer.TraceHalf | C++/src/main.cpp:310-327 | the loop of one half appends exactly the positions `Walk` describes, with the half's tag, and leaves the shared counter equal to the number of samples recorded |
| Tracer.DrawCurve | C++/src/main.cpp:295-352 | returns the curve with the given id and exactly the samples `Trace` describes, without modifying the density grid |
| Placer.Commit | C++/src/main.cpp:406-409 | committing a kept curve keeps the grid valid and of the same shape, and refuses at most one point per sample; the curve is appended with id `curve_array_index` |
| Placer.TryCandidate | C++/src/main.cpp:390-410 | one candidate leaves the grid valid and the cursor in place, and changes the state only by appending the curve traced from it, with id `curve_array_index` and first sample the candidate |
| Placer.ProcessSeeds | C++/src/main.cpp:388-411 | the candidates of one curve add at most one curve each, never remove one, and keep the cursor |
| Placer.Continues | C++/src/main.cpp:385-387 | the corrected guard is the written guard plus the test that `curve_id` names an accepted curve |
| Placer.ExpandOne | C++/src/main.cpp:386-413 | one expansion only appends curves and advances the cursor by one |
| Placer.Expand | C++/src/main.cpp:385-414 | expansions run in cursor order and end with the guard false and the cursor within the list |
| Placer.Place | C++/src/main.cpp:365-419 | the first curve is the one traced from the start point, with id 0; the run ends with the guard false and the cursor within the list; the grid stays valid |
| Placer.CommitAll | C++/src/main.cpp:381-409 | committing curves one after another keeps the grid valid and of the same shape |
| Placer.TryCandidateEffect | C++/src/main.cpp:390-410 | a candidate is kept iff it passes `is_valid_next_step` and its curve has at least `min_steps_allowed` samples; a kept curve gets id `curve_array_index`, starts at the candidate and is committed; otherwise nothing changes |
| Placer.ProcessSeedsConsistent | C++/src/main.cpp:388-411 | processing candidates keeps ids consecutive, lengths within bounds, the minimum length for later curves, and the grid equal to the committed curves |
| Placer.ExpandConsistent | C++/src/main.cpp:385-414 | the same invariant holds through all expansions |
| Placer.PlaceResult | C++/src/main.cpp:365-419 | the first curve is the one traced from the start point, with id 0, always kept; ids are 0, 1, 2, ...; later curves have at least `min_steps_allowed` samples; the grid holds exactly the kept curves; the run ends at the budget or when every curve is expanded |
| Placer.ExpandBound | C++/src/main.cpp:385-414 | expansions never grow the list beyond `max(1, n_curves - 1 + 2 (max(1, n_steps) - 1))` |
| Placer.PlaceBound | C++/src/main.cpp:385-411 | the result has at most `max(1, n_curves - 1 + 2 (max(1, n_steps) - 1))` curves, because the budget is tested only between expansions |
| Placer.AsWrittenGuardReadsPastEnd | C++/src/main.cpp:385-387 | from (0, 0) the written guard starts a second expansion with `curve_id == curve_array_index == 1`; the corrected guard stops with the one curve |
| Placer.TrySeeds | C++/src/main.cpp:388-411 | the loop over one curve's candidates computes `ProcessSeeds` on the grid and curve list |
| Placer.EvenSpacedCurves | C++/src/main.cpp:355-419 | returns the curves and refused-point count `Place` describes, and leaves the grid as `Place` describes |
| Scenarios.EmptyGridAcceptsInside | C++/src/main.cpp:188-223 | on an empty grid `is_valid_next_step` accepts exactly the points inside the boundaries |
| Scenarios.DensityScenario | C++/src/main.cpp:150-223 | after (1, 1) and (1.5, 1.5) are stored, (1.6, 1.6) is rejected, (4, 4) accepted, and (8, 8) rejected as outside |
| Scenarios.TracerScenario | C++/src/main.cpp:295-352 | on a constant field with step 1 and `n_steps = 4` from (5, 5), against an empty grid of side 1, the samples are x = 5, 4, 6, 7 at y = 5 |
| Scenarios.TracerScenarioCoarseGrid | C++/src/main.cpp:295-352 | the same trace against a 5 x 5 grid of side 2 is the start sample alone, since both first steps fail the written boundary test |

## Left out

- Noise generation (C++/src/main.cpp:39-50): the FastNoiseLite constructor is a foreign library. The flow field is a given table of angles.
- Floating point: `pow`, `sqrt`, `cos`, `sin`, `atan2` and rounding are not modelled. Arithmetic is exact over `real`, and the trigonometric functions are uninterpreted parameters, so nothing is proved about perpendicularity or step lengths.
- The claim that all accepted curves are `d_sep` apart is not proved, because the code does not guarantee it. A point is dropped when its bucket is full, and the tracer tests the boundary of its current position, not the next one.
- `main()` and the console error message (C++/src/main.cpp:177, 425-441): the message becomes the `CellFull` outcome and the refused-point counts.
- Undefined behaviour: `reserve()` followed by `operator[]` writes (curves, buckets, queue) is modelled as the evident intent, an append. The seed loop iterates over the inserted points. As written, `_points` keeps size 0.
- Density.DensityGrid.constructor: the grid's extent is a parameter instead of the compile-time `DENSITY_GRID_WIDTH` / `DENSITY_GRID_HEIGHT`.
- Curves.Curve.constructor: does not take `n_steps`, which only feeds the `reserve` hint.
- Tracer.DrawCurve: omits the `d_sep` parameter, which the source never reads. `Placer.EvenSpacedCurves` omits it for the same reason.
- The two loops of `draw_curve` differ only in the sign of the step and the tag. They are one method, `Tracer.TraceHalf`, called once per half with the shared counter.
- The innermost loop of `is_valid_next_step`, the scan of one bucket, is its own method, `Density.DensityGrid.CellHasNear`. The seed loop of `even_spaced_curves` is `Placer.TrySeeds`.
- The `SeedPointsQueue` built at C++/src/main.cpp:386 is overwritten at once and is not modelled. Nor are the unused `ff_column_index` / `ff_row_index` (lines 269-270) or the unused cell indices in `DensityGrid::off_boundaries` (lines 151-152).
- FlowFields.FlowField.GetAngle: requires a point inside the field, because the C++ lookup is unchecked. `draw_curve` tests `off_boundaries` first.
- Integer counters are unbounded. C++ `int` overflow cannot occur at the configured sizes.
- The corrected boundary test and clamps (see Findings) are used by the tracer and the placer. The corrected boundary test agrees with the written one on every point whose bucket lies inside the grid, and rejects the others. The corrected clamps agree with the written ones on a square grid, the program's own configuration. On a grid that is not square, which the model allows because its extent is a parameter, the written clamps either leave the grid or skip a neighbour row or column inside it; the model scans the full in-grid 3 x 3 block instead. The written versions are kept beside them with their counterexamples.
- `Rust/even_spaced_curves/src/main.rs` is an unfinished stub with no algorithmic content and is not part of this model.

## Findings

| source | as written | input that shows it | evidently intended | confidence | as-written member | corrected member |
|---|---|---|---|---|---|---|
| C++/src/main.cpp:150-159 | `DensityGrid::off_boundaries` compares raw `x`, `y` with the numbers of cells, and ignores the `+1` offset of the cell index | 150 x 150 grid, `d_sep = 0.8`, point (119.5, 10): passes, but its column `(int)(119.5 / 0.8 + 1)` is 150 | bound the cell indices by the grid's width and height | high, not executed | DensityProperties.AsWrittenBoundaryAdmitsOutsideCell | Density.GridShape.CellInRange |
| C++/src/main.cpp:196-199 | the end row is clamped by `_width` and the end column by `_height` | grid 10 wide and 3 high, cell (1, 2): end row 3; grid 3 wide and 10 high, cell (1, 5): end row 5, so row 6 is never scanned | clamp each index by its own extent | high, not executed | DensityProperties.AsWrittenClampsLeaveGrid | Density.GridShape.NeighbourhoodInRange |
| C++/src/main.cpp:385-387 | the loop never checks `curve_id < curve_array_index` before reading `curves[curve_id]` | start (0, 0): the first curve is one sample with no candidates, then `curve_id == curve_array_index == 1` and `curves[1]` is read | stop once every accepted curve is expanded | high, not executed | Placer.AsWrittenGuardReadsPastEnd | Placer.PlaceResult |
