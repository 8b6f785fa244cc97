/**
 * The flow field: a fixed `width x height` table of angles (radians), one per
 * unit cell, indexed `angles[col][row]` like the C++ `_flow_field[x][y]`.
 * The table is given; filling it from Perlin noise is not part of this model.
 */
module FlowFields {
  import opened Geometry

  datatype FlowField = FlowField(width: int, height: int, angles: seq<seq<real>>) {

    /** The table has exactly `width` columns of `height` angles each. */
    ghost predicate Valid() {
      0 < width && 0 < height && |angles| == width &&
      forall c :: 0 <= c < width ==> |angles[c]| == height
    }

    /** `get_flow_field_col`: `(int) x`, the unit column that holds a non-negative `x`. */
    function Col(x: real): (c: int)
      ensures 0.0 <= x ==> c as real <= x < c as real + 1.0
    {
      Trunc(x)
    }

    /** `get_flow_field_row`: `(int) y`, the unit row that holds a non-negative `y`. */
    function Row(y: real): (r: int)
      ensures 0.0 <= y ==> r as real <= y < r as real + 1.0
    {
      Trunc(y)
    }

    /** Strict box test: only the open box (0, width) x (0, height) is inside, and a point inside has a cell of the table. */
    function OffBoundaries(x: real, y: real): (off: bool)
      ensures !off ==> 0 <= Col(x) < width && 0 <= Row(y) < height
    {
      x <= 0.0 || y <= 0.0 || x >= width as real || y >= height as real
    }

    /**
     * `get_angle`: the angle of the unit cell that holds `(x, y)`.  The C++
     * code indexes the table unchecked; callers test `OffBoundaries` first,
     * which is what the precondition records.
     */
    function GetAngle(x: real, y: real): (a: real)
      requires Valid() && !OffBoundaries(x, y)
      ensures forall c, r ::
        (0 <= c < width && 0 <= r < height && c as real <= x < c as real + 1.0 && r as real <= y < r as real + 1.0)
          ==> a == angles[c][r]
    {
      CellInRange(x, y);
      angles[Col(x)][Row(y)]
    }

    /**
     * A point is inside exactly when it lies in the open box, and a point
     * inside truncates to a cell of the table, so `GetAngle` never indexes
     * outside it.
     */
    lemma CellInRange(x: real, y: real)
      ensures !OffBoundaries(x, y) <==> 0.0 < x < width as real && 0.0 < y < height as real
      ensures !OffBoundaries(x, y) ==> 0 <= Col(x) < width && 0 <= Row(y) < height
      ensures !OffBoundaries(x, y) ==> Col(x) as real <= x < Col(x) as real + 1.0 && Row(y) as real <= y < Row(y) as real + 1.0
    {
    }
  }
}
