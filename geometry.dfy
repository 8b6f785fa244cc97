/**
 * Plain geometry shared by every component: points, the C++ `(int)` cast,
 * squared distances and the trigonometry the program borrows from <math.h>.
 *
 * Coordinates are exact `real`s.  The C++ code compares `sqrt(dx*dx + dy*dy)`
 * against a non-negative threshold; over the reals that is the same test as
 * comparing the squared distance against the squared threshold, which is what
 * the model does.
 */
module Geometry {

  datatype Point = Point(x: real, y: real)

  /** The C++ conversion `(int) v`: truncation toward zero. */
  function Trunc(v: real): (n: int)
    ensures 0.0 <= v ==> 0 <= n && n as real <= v < n as real + 1.0
    ensures v < 0.0 ==> n <= 0 && n as real - 1.0 < v <= n as real
  {
    if v >= 0.0 then v.Floor else -((-v).Floor)
  }

  /** C++ integer division `n / d` for a positive divisor: it truncates toward zero. */
  function CDiv(n: int, d: int): (q: int)
    requires d > 0
    ensures 0 <= n ==> q * d <= n < q * d + d
    ensures n < 0 ==> q * d - d < n <= q * d
  {
    if n >= 0 then n / d else -((-n) / d)
  }

  function SqDist(x1: real, y1: real, x2: real, y2: real): real
  {
    (x2 - x1) * (x2 - x1) + (y2 - y1) * (y2 - y1)
  }

  /**
   * `distance(x1, y1, x2, y2) <= d` of the C++ helper, for a threshold
   * `d >= 0`: symmetric in the two points, and true of a point and itself.
   */
  function WithinDistance(x1: real, y1: real, x2: real, y2: real, d: real): (near: bool)
    ensures near <==> SqDist(x2, y2, x1, y1) <= d * d
    ensures x1 == x2 && y1 == y2 ==> near
  {
    SqDist(x1, y1, x2, y2) <= d * d
  }

  /**
   * The floating-point library the source calls: `cos`, `sin`, `atan2` and
   * `M_PI`.  They are parameters of the model, so nothing is assumed of them.
   */
  datatype Trig = Trig(cos: real -> real, sin: real -> real, atan2: (real, real) -> real, pi: real)

  /** A coordinate difference bounded by a distance: |a| <= b whenever a*a <= b*b and b >= 0. */
  lemma SquareBound(a: real, b: real)
    requires 0.0 <= b && a * a <= b * b
    ensures -b <= a <= b
  {
    if b < a {
      SquareGrows(b, a);
    } else if a < -b {
      SquareGrows(b, -a);
    }
  }

  lemma SquareGrows(p: real, q: real)
    requires 0.0 <= p < q
    ensures p * p < q * q
  {
    var pp, pq, qq := p * p, p * q, q * q;
    assert pp <= pq;
    assert pq < qq;
  }

  /** One coordinate of a pair within distance `d` differs by at most `d`. */
  lemma CoordinateWithin(x1: real, y1: real, x2: real, y2: real, d: real)
    requires 0.0 <= d && WithinDistance(x1, y1, x2, y2, d)
    ensures -d <= x2 - x1 <= d && -d <= y2 - y1 <= d
  {
    assert (x2 - x1) * (x2 - x1) <= d * d;
    assert (y2 - y1) * (y2 - y1) <= d * d;
    SquareBound(x2 - x1, d);
    SquareBound(y2 - y1, d);
  }

  /** Two reals less than one apart truncate (from above zero) to integers at most one apart. */
  lemma TruncNear(u: real, v: real)
    requires 0.0 <= u && 0.0 <= v && -1.0 < u - v < 1.0
    ensures -1 <= Trunc(u) - Trunc(v) <= 1
  {
  }
}
