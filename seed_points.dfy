/**
 * Seed candidates for new curves.  For each sample `i` of a traced curve that
 * has a successor, the tangent angle is `atan2(dy, dx)` towards sample
 * `i + 1`, and two candidates are placed `D_SEP` away from sample `i`, at
 * `angle + pi/2` (left) and `angle - pi/2` (right).
 */
module Seeds {
  import opened Geometry
  import opened Curves
  import opened Config

  /** The tangent angle at sample `i`, towards sample `i + 1`. */
  function TangentAngle(samples: seq<Sample>, trig: Trig, i: int): real
    requires 0 <= i < |samples| - 1
  {
    trig.atan2(samples[i + 1].y - samples[i].y, samples[i + 1].x - samples[i].x)
  }

  function LeftPoint(samples: seq<Sample>, trig: Trig, i: int): Point
    requires 0 <= i < |samples| - 1
  {
    var a := TangentAngle(samples, trig, i) + trig.pi / 2.0;
    Point(samples[i].x + DSep * trig.cos(a), samples[i].y + DSep * trig.sin(a))
  }

  function RightPoint(samples: seq<Sample>, trig: Trig, i: int): Point
    requires 0 <= i < |samples| - 1
  {
    var a := TangentAngle(samples, trig, i) - trig.pi / 2.0;
    Point(samples[i].x + DSep * trig.cos(a), samples[i].y + DSep * trig.sin(a))
  }

  /**
   * The candidates of the first `k` sample pairs: left then right for
   * `i = 0, 1, ..., k - 1`, so candidate `2i` is the left and `2i + 1` the
   * right one of sample `i`.
   */
  function SeedPoints(samples: seq<Sample>, trig: Trig, k: int): (r: seq<Point>)
    requires 0 <= k < |samples| || k == 0
    ensures |r| == 2 * k
    ensures forall i :: 0 <= i < k ==> r[2 * i] == LeftPoint(samples, trig, i) && r[2 * i + 1] == RightPoint(samples, trig, i)
  {
    if k == 0 then []
    else SeedPoints(samples, trig, k - 1) + [LeftPoint(samples, trig, k - 1), RightPoint(samples, trig, k - 1)]
  }

  /** All candidates of a curve: one pair per sample that has a successor. */
  function AllSeedPoints(samples: seq<Sample>, trig: Trig): seq<Point>
  {
    SeedPoints(samples, trig, if |samples| <= 1 then 0 else |samples| - 1)
  }

  /**
   * A curve of `n` samples yields no candidate when `n <= 1` and exactly
   * `2 (n - 1)` otherwise, never more than the queue's capacity `2 n`.
   */
  lemma SeedPointCount(samples: seq<Sample>, trig: Trig)
    ensures |samples| <= 1 ==> AllSeedPoints(samples, trig) == []
    ensures 1 < |samples| ==> |AllSeedPoints(samples, trig)| == 2 * (|samples| - 1)
    ensures |AllSeedPoints(samples, trig)| <= 2 * |samples|
  {
  }

  /** The C++ `SeedPointsQueue`: points appended in order, with a nominal capacity. */
  class SeedPointsQueue {
    var points: seq<Point>
    const capacity: int
    var spaceUsed: int

    ghost predicate Valid()
      reads this
    {
      |points| == spaceUsed
    }

    /** `SeedPointsQueue(n_steps)`: empty, with capacity `2 * n_steps`. */
    constructor (nSteps: int)
      ensures Valid() && capacity == 2 * nSteps && points == [] && spaceUsed == 0
    {
      points := [];
      capacity := 2 * nSteps;
      spaceUsed := 0;
    }

    /** `is_empty`: the counter is zero, which in a valid queue means no candidate is held. */
    function IsEmpty(): (empty: bool)
      reads this
      ensures Valid() ==> (empty <==> points == [])
    {
      spaceUsed == 0
    }

    /** `insert_point`: appends `p`; the C++ code does not test the capacity. */
    method InsertPoint(p: Point)
      requires Valid()
      modifies this
      ensures Valid() && points == old(points) + [p] && spaceUsed == old(spaceUsed) + 1
    {
      points := points + [p];
      spaceUsed := spaceUsed + 1;
    }

    /** `insert_coord`: `insert_point` of the point `(x, y)`. */
    method InsertCoord(x: real, y: real)
      requires Valid()
      modifies this
      ensures Valid() && points == old(points) + [Point(x, y)] && spaceUsed == old(spaceUsed) + 1
    {
      InsertPoint(Point(x, y));
    }
  }

  /**
   * `collect_seedpoints`: a queue of capacity `2 * steps_taken` holding the
   * left and right candidate of every sample with a successor, in curve
   * order; it stays within its capacity, and it is empty exactly when the
   * curve has at most one sample.
   */
  method CollectSeedPoints(curve: Streamline, trig: Trig) returns (queue: SeedPointsQueue)
    ensures fresh(queue) && queue.Valid()
    ensures queue.capacity == 2 * curve.StepsTaken()
    ensures queue.points == AllSeedPoints(curve.samples, trig)
    ensures queue.spaceUsed <= queue.capacity
    ensures queue.IsEmpty() <==> curve.StepsTaken() <= 1
  {
    var stepsTaken := curve.StepsTaken();
    queue := new SeedPointsQueue(stepsTaken);
    if stepsTaken == 0 {
      return;
    }
    var i := 0;
    while i < stepsTaken - 1
      invariant 0 <= i <= stepsTaken - 1
      invariant queue.Valid() && queue.capacity == 2 * stepsTaken
      invariant queue.points == SeedPoints(curve.samples, trig, i)
    {
      var leftPoint := LeftPoint(curve.samples, trig, i);
      var rightPoint := RightPoint(curve.samples, trig, i);
      queue.InsertPoint(leftPoint);
      queue.InsertPoint(rightPoint);
      i := i + 1;
    }
    SeedPointCount(curve.samples, trig);
  }
}
