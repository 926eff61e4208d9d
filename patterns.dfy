/**
 Consequences of the transition rule for small, well-known boards: the
 empty board, a lone cell, the 2x2 block (a still life) and the blinker (an
 oscillator of period 2). Each is first settled on the unbounded plane by
 `Rules` alone and then carried over to `Step` on a grid large enough to
 hold the pattern.
 */
module Patterns {
  import opened GameOfLife

  /** The 2x2 block. */
  const BLOCK: Board := {(1, 1), (1, 2), (2, 1), (2, 2)}

  /** The blinker lying along the x axis. */
  const BLINKER_ACROSS: Board := {(1, 2), (2, 2), (3, 2)}

  /** The blinker standing along the y axis. */
  const BLINKER_UPRIGHT: Board := {(2, 1), (2, 2), (2, 3)}

  /** Nothing is ever born on an empty board. */
  lemma EmptyBoardStaysEmpty(dims: Dims)
    ensures Step({}, dims) == {}
  {
  }

  /** On the plane, a lone cell has no live neighbour, and no cell has more than one. */
  lemma LoneCellRule(c: Point, q: Point)
    ensures !Rules(q, {c})
  {
    if q == c {
      assert NeighborTally(q, {c}) == 0;
    } else {
      assert NeighborTally(q, {c}) <= 1;
    }
  }

  /** A single live cell dies, and nothing is born around it. */
  lemma LoneCellDies(c: Point, dims: Dims)
    ensures Step({c}, dims) == {}
  {
    forall q | q in Step({c}, dims) ensures false {
      LoneCellRule(c, q);
    }
  }

  /** On the plane, the rule keeps exactly the block's own cells alive. */
  lemma BlockRule(q: Point)
    ensures Rules(q, BLOCK) <==> q in BLOCK
  {
    if q in BLOCK {
      assert NeighborTally(q, BLOCK) == 3;
    } else {
      assert NeighborTally(q, BLOCK) <= 2;
    }
  }

  /** The block is a still life on every grid that holds it. */
  lemma BlockIsStillLife(dims: Dims)
    requires dims.0 >= 3 && dims.1 >= 3
    ensures Step(BLOCK, dims) == BLOCK
  {
    assert OnGrid(BLOCK, dims);
    forall q ensures q in Step(BLOCK, dims) <==> q in BLOCK {
      BlockRule(q);
    }
  }

  /** On the plane, the lying blinker turns into the upright one. */
  lemma BlinkerAcrossRule(q: Point)
    ensures Rules(q, BLINKER_ACROSS) <==> q in BLINKER_UPRIGHT
  {
    var n := NeighborTally(q, BLINKER_ACROSS);
    if q in BLINKER_UPRIGHT {
      assert q in BLINKER_ACROSS ==> n == 2;
      assert q !in BLINKER_ACROSS ==> n == 3;
    } else {
      assert q in BLINKER_ACROSS ==> n == 1;
      assert q !in BLINKER_ACROSS ==> n != 3;
    }
  }

  /** On the plane, the upright blinker turns into the lying one. */
  lemma BlinkerUprightRule(q: Point)
    ensures Rules(q, BLINKER_UPRIGHT) <==> q in BLINKER_ACROSS
  {
    var n := NeighborTally(q, BLINKER_UPRIGHT);
    if q in BLINKER_ACROSS {
      assert q in BLINKER_UPRIGHT ==> n == 2;
      assert q !in BLINKER_UPRIGHT ==> n == 3;
    } else {
      assert q in BLINKER_UPRIGHT ==> n == 1;
      assert q !in BLINKER_UPRIGHT ==> n != 3;
    }
  }

  /** On a grid that holds it, the lying blinker steps to the upright one. */
  lemma BlinkerAcrossSteps(dims: Dims)
    requires dims.0 >= 3 && dims.1 >= 4
    ensures Step(BLINKER_ACROSS, dims) == BLINKER_UPRIGHT
  {
    assert OnGrid(BLINKER_UPRIGHT, dims);
    forall q ensures q in Step(BLINKER_ACROSS, dims) <==> q in BLINKER_UPRIGHT {
      BlinkerAcrossRule(q);
    }
  }

  /** On a grid that holds it, the upright blinker steps to the lying one. */
  lemma BlinkerUprightSteps(dims: Dims)
    requires dims.0 >= 4 && dims.1 >= 3
    ensures Step(BLINKER_UPRIGHT, dims) == BLINKER_ACROSS
  {
    assert OnGrid(BLINKER_ACROSS, dims);
    forall q ensures q in Step(BLINKER_UPRIGHT, dims) <==> q in BLINKER_ACROSS {
      BlinkerUprightRule(q);
    }
  }

  /** The blinker is an oscillator of period 2 on every grid that holds both its phases. */
  lemma BlinkerOscillates(dims: Dims)
    requires dims.0 >= 4 && dims.1 >= 4
    ensures Step(BLINKER_ACROSS, dims) != BLINKER_ACROSS
    ensures Step(Step(BLINKER_ACROSS, dims), dims) == BLINKER_ACROSS
  {
    BlinkerAcrossSteps(dims);
    BlinkerUprightSteps(dims);
    assert (1, 2) !in BLINKER_UPRIGHT;
  }

  /**
   The grid does not wrap around. The corner (0, 0), with the three opposite
   corners live, has no live neighbour at all (on a torus it would have
   three and be born), so it stays dead.
   */
  lemma NoWrapAround(dims: Dims)
    requires dims.0 >= 3 && dims.1 >= 3
    ensures var corners := {(dims.0 - 1, 0), (0, dims.1 - 1), (dims.0 - 1, dims.1 - 1)};
      LivingNeighbors((0, 0), corners) == 0 && (0, 0) !in Step(corners, dims)
  {
    var corners := {(dims.0 - 1, 0), (0, dims.1 - 1), (dims.0 - 1, dims.1 - 1)};
    assert NeighborTally((0, 0), corners) == 0;
  }
}
