/**
 * A curve (streamline) under construction and the value it leaves behind.
 *
 * `Curve` is the C++ class: parallel vectors `_x`, `_y`, `_direction`,
 * `_step_id` and the counter `_steps_taken`, grown one sample at a time by
 * `insert_step`.  Once traced, a curve is only read, and the placer keeps
 * copies of it (a `std::vector<Curve>` holds values); `Streamline` is that
 * copied value.
 */
module Curves {

  /** Direction tag of a sample: 0 for the backward half, 1 for the forward half. */
  const Backward: int := 0
  const Forward: int := 1

  datatype Sample = Sample(x: real, y: real, direction: int)

  /** A traced curve: its id and its samples, sample `k` having step id `k`. */
  datatype Streamline = Streamline(id: int, samples: seq<Sample>) {
    function StepsTaken(): nat { |samples| }
  }

  /** The samples held in three parallel sequences, as one sequence of samples. */
  function Zip(xs: seq<real>, ys: seq<real>, dirs: seq<int>): (s: seq<Sample>)
    requires |xs| == |ys| == |dirs|
    ensures |s| == |xs|
    ensures forall k :: 0 <= k < |s| ==> s[k] == Sample(xs[k], ys[k], dirs[k])
  {
    seq(|xs|, k requires 0 <= k < |xs| => Sample(xs[k], ys[k], dirs[k]))
  }

  class Curve {
    const curveId: int
    var xs: seq<real>
    var ys: seq<real>
    var direction: seq<int>
    var stepId: seq<int>
    var stepsTaken: int

    /** The parallel vectors all hold `stepsTaken` entries and step ids count 0, 1, 2, ... */
    ghost predicate Valid()
      reads this
    {
      |xs| == stepsTaken && |ys| == stepsTaken && |direction| == stepsTaken && |stepId| == stepsTaken &&
      forall k :: 0 <= k < stepsTaken ==> stepId[k] == k
    }

    /** The samples recorded so far. */
    function Samples(): seq<Sample>
      reads this
      requires Valid()
    {
      Zip(xs, ys, direction)
    }

    /** The value a caller keeps once tracing is over. */
    function Value(): (s: Streamline)
      reads this
      requires Valid()
      ensures s.id == curveId && s.StepsTaken() == stepsTaken
    {
      Streamline(curveId, Samples())
    }

    /** `Curve(id, n_steps)`: an empty curve; `n_steps` only reserves storage, which a sequence does not need. */
    constructor (id: int)
      ensures Valid() && curveId == id && stepsTaken == 0 && Samples() == []
    {
      curveId := id;
      xs, ys, direction, stepId := [], [], [], [];
      stepsTaken := 0;
    }

    /**
     * `insert_step`: append one sample.  The counter grows by one, the new
     * sample's step id is its index, and every earlier sample is kept.
     */
    method InsertStep(x: real, y: real, dir: int)
      requires Valid()
      modifies this
      ensures Valid()
      ensures stepsTaken == old(stepsTaken) + 1
      ensures stepId[old(stepsTaken)] == old(stepsTaken)
      ensures Samples() == old(Samples()) + [Sample(x, y, dir)]
    {
      xs := xs + [x];
      ys := ys + [y];
      direction := direction + [dir];
      stepId := stepId + [stepsTaken];
      stepsTaken := stepsTaken + 1;
    }
  }
}
