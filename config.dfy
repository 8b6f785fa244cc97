/** The compile-time configuration of the C++ program. */
module Config {
  import opened Geometry

  const FlowFieldWidth: int := 120
  const FlowFieldHeight: int := 120
  const NCurves: int := 1500
  /** `D_SEP`; `collect_seedpoints` offsets its candidates by this constant, not by a parameter. */
  const DSep: real := 0.8
  /** `DENSITY_GRID_WIDTH`: `(int) (FLOW_FIELD_WIDTH / D_SEP)`. */
  const DensityGridWidth: int := Trunc(FlowFieldWidth as real / DSep)
  const DensityGridHeight: int := Trunc(FlowFieldHeight as real / DSep)
}
