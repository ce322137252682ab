// The pure geometry of the snakes game (snakes/snakes.py): the percept
// rotation into an agent's frame of reference, the action/rotation tables,
// heading updates and the wrap-around of the toroidal grid.
module SnakeGeometry {
  import opened Wrappers

  /** A grid cell, as the game's `(y, x)` tuples. */
  datatype Pos = Pos(y: int, x: int)

  /** One percept frame: rows of columns. */
  type Frame = seq<seq<int>>

  predicate IsSquare(m: Frame, n: nat)
  {
    |m| == n && forall i :: 0 <= i < n ==> |m[i]| == n
  }

  predicate IsRotation(r: int)
  {
    r == 0 || r == 90 || r == 180 || r == 270
  }

  predicate IsAction(a: int)
  {
    a == -1 || a == 0 || a == 1
  }

  /** numpy's `rot90(m, axes=[0, 1])` on a square frame: counter-clockwise. */
  function Rot90(m: Frame, n: nat): (r: Frame)
    requires IsSquare(m, n)
    ensures IsSquare(r, n)
  {
    seq(n, i requires 0 <= i < n => seq(n, j requires 0 <= j < n => m[j][n - 1 - i]))
  }

  /** numpy's `rot90(m, axes=[1, 0])` on a square frame: clockwise. */
  function Rot270(m: Frame, n: nat): (r: Frame)
    requires IsSquare(m, n)
    ensures IsSquare(r, n)
  {
    seq(n, i requires 0 <= i < n => seq(n, j requires 0 <= j < n => m[n - 1 - j][i]))
  }

  /** `percepts_global_to_agent_frame_of_reference`: any rotation other than 90, 270 and 180 leaves the frame as it is. */
  function ToAgentFrame(m: Frame, n: nat, rotation: int): (r: Frame)
    requires IsSquare(m, n)
    ensures IsSquare(r, n)
  {
    if rotation == 90 then Rot90(m, n)
    else if rotation == 270 then Rot270(m, n)
    else if rotation == 180 then Rot90(Rot90(m, n), n)
    else m
  }

  /** Rotation 0 leaves a frame unchanged. */
  lemma AgentFrameAtZero(m: Frame, n: nat)
    requires IsSquare(m, n)
    ensures ToAgentFrame(m, n, 0) == m
  {
  }

  /** Rotating into the frame at 90 and then at 270 restores the frame, and so does the reverse order. */
  lemma QuarterTurnsUndo(m: Frame, n: nat)
    requires IsSquare(m, n)
    ensures ToAgentFrame(ToAgentFrame(m, n, 90), n, 270) == m
    ensures ToAgentFrame(ToAgentFrame(m, n, 270), n, 90) == m
  {
    var a := ToAgentFrame(ToAgentFrame(m, n, 90), n, 270);
    forall i | 0 <= i < n
      ensures a[i] == m[i]
    {
      assert forall j :: 0 <= j < n ==> a[i][j] == m[i][j];
    }
    var b := ToAgentFrame(ToAgentFrame(m, n, 270), n, 90);
    forall i | 0 <= i < n
      ensures b[i] == m[i]
    {
      assert forall j :: 0 <= j < n ==> b[i][j] == m[i][j];
    }
  }

  /** Rotation 180 turns a frame upside down and left to right. */
  lemma HalfTurnCells(m: Frame, n: nat, i: nat, j: nat)
    requires IsSquare(m, n) && i < n && j < n
    ensures ToAgentFrame(m, n, 180)[i][j] == m[n - 1 - i][n - 1 - j]
  {
  }

  /** Rotating by 180 twice restores the frame. */
  lemma HalfTurnTwice(m: Frame, n: nat)
    requires IsSquare(m, n)
    ensures ToAgentFrame(ToAgentFrame(m, n, 180), n, 180) == m
  {
    var a := ToAgentFrame(ToAgentFrame(m, n, 180), n, 180);
    forall i | 0 <= i < n
      ensures a[i] == m[i]
    {
      forall j | 0 <= j < n
        ensures a[i][j] == m[i][j]
      {
        HalfTurnCells(ToAgentFrame(m, n, 180), n, i, j);
        HalfTurnCells(m, n, n - 1 - i, n - 1 - j);
      }
    }
  }

  /** `actions_agent_to_global_shift`: the shift applied to the percept memory
    * (row, column), None for an action outside {-1, 0, 1}. Any rotation other
    * than 0, 90 and 180 takes the last branch. */
  function MemoryShift(action: int, rotation: int): (r: Option<(int, int)>)
    ensures r.Some? <==> IsAction(action)
  {
    if action == 1 then
      (if rotation == 0 then Some((0, 1)) else if rotation == 90 then Some((1, 0))
       else if rotation == 180 then Some((0, -1)) else Some((-1, 0)))
    else if action == -1 then
      (if rotation == 0 then Some((0, -1)) else if rotation == 90 then Some((-1, 0))
       else if rotation == 180 then Some((0, 1)) else Some((1, 0)))
    else if action == 0 then
      (if rotation == 0 then Some((1, 0)) else if rotation == 90 then Some((0, 1))
       else if rotation == 180 then Some((-1, 0)) else Some((0, -1)))
    else None
  }

  /** A step of one cell along exactly one axis. */
  predicate IsUnitStep(dy: int, dx: int)
  {
    (dy == 0 && (dx == 1 || dx == -1)) || (dx == 0 && (dy == 1 || dy == -1))
  }

  /** The head's movement (lines 870-893): (row, column) steps for rotations 0
    * and 180, negated from rotation 180 on. */
  function MoveStep(action: int, rotation: int): (d: (int, int))
    requires IsAction(action)
    ensures -1 <= d.0 <= 1 && -1 <= d.1 <= 1
  {
    var (yd, xd) :=
      if rotation == 0 || rotation == 180 then
        (if action == -1 then (0, -1) else if action == 0 then (-1, 0) else (0, 1))
      else
        (if action == -1 then (-1, 0) else if action == 0 then (0, 1) else (1, 0));
    if rotation >= 180 then (-yd, -xd) else (yd, xd)
  }

  /** Every valid action at every rotation shifts memory by a unit step, and actions -1 and 1 shift in opposite directions. */
  lemma MemoryShiftIsUnit(action: int, rotation: int)
    requires IsAction(action) && IsRotation(rotation)
    ensures MemoryShift(action, rotation).Some?
    ensures IsUnitStep(MemoryShift(action, rotation).value.0, MemoryShift(action, rotation).value.1)
    ensures MemoryShift(-1, rotation).value.0 == -MemoryShift(1, rotation).value.0
    ensures MemoryShift(-1, rotation).value.1 == -MemoryShift(1, rotation).value.1
  {
  }

  /** An action outside {-1, 0, 1} has no shift. */
  lemma MemoryShiftUndefined(action: int, rotation: int)
    requires !IsAction(action)
    ensures MemoryShift(action, rotation) == None
  {
  }

  /** Every move is a unit step, and turning left and right move in opposite directions. */
  lemma MoveStepIsUnit(action: int, rotation: int)
    requires IsAction(action) && IsRotation(rotation)
    ensures IsUnitStep(MoveStep(action, rotation).0, MoveStep(action, rotation).1)
    ensures MoveStep(-1, rotation).0 == -MoveStep(1, rotation).0
    ensures MoveStep(-1, rotation).1 == -MoveStep(1, rotation).1
  {
  }

  /** The two tables agree, except for action 0 at rotations 0 and 180 where the memory shift is the negated move. */
  lemma MemoryShiftVersusMove(action: int, rotation: int)
    requires IsAction(action) && IsRotation(rotation)
    ensures action == 0 && (rotation == 0 || rotation == 180) ==>
      MemoryShift(action, rotation) == Some((-MoveStep(action, rotation).0, -MoveStep(action, rotation).1))
    ensures !(action == 0 && (rotation == 0 || rotation == 180)) ==>
      MemoryShift(action, rotation) == Some((MoveStep(action, rotation).0, MoveStep(action, rotation).1))
  {
  }

  /** Lines 895-898: the heading after the action. */
  function NextRotation(rotation: int, action: int): (r: int)
    requires IsRotation(rotation) && IsAction(action)
    ensures IsRotation(r)
    ensures r == (rotation + 90 * action) % 360
  {
    var t := rotation + action * 90;
    var u := if t < 0 then t + 360 else t;
    u % 360
  }

  /** The direction in which a spawned body extends from the head (lines 668-679). */
  function TailDirection(rotation: int): (int, int)
  {
    if rotation == 0 then (1, 0)
    else if rotation == 90 then (0, -1)
    else if rotation == 180 then (-1, 0)
    else (0, 1)
  }

  /** A snake heads away from its spawned tail: going straight moves opposite to the tail direction. */
  lemma StraightIsAwayFromTail(rotation: int)
    requires IsRotation(rotation)
    ensures MoveStep(0, rotation).0 == -TailDirection(rotation).0
    ensures MoveStep(0, rotation).1 == -TailDirection(rotation).1
  {
  }

  /** Turning moves the head straight ahead in the new heading. */
  lemma MoveFollowsNewHeading(action: int, rotation: int)
    requires IsAction(action) && IsRotation(rotation)
    ensures MoveStep(action, rotation) == MoveStep(0, NextRotation(rotation, action))
  {
  }

  /** Lines 900-911: one coordinate of the head after a step, wrapped into the grid. */
  function StepCoord(v: int, d: int, g: nat): (r: int)
    requires g > 0 && 0 <= v < g && -1 <= d <= 1
    ensures 0 <= r < g
  {
    var t := v + d;
    var u := if t < 0 then t + g else t;
    u % g
  }

  /** The head moves by the step modulo the grid size and stays on the grid. */
  lemma StepCoordWraps(v: int, d: int, g: nat)
    requires g > 0 && 0 <= v < g && -1 <= d <= 1
    ensures StepCoord(v, d, g) == (v + d) % g
  {
    var t := v + d;
    if t < 0 {
      assert t == -1;
      assert (t + g) % g == g - 1;
      assert (-1) % g == g - 1;
    }
  }

  /** Lines 771-781: the single wrap of a percept coordinate. */
  function Wrap(v: int, g: nat): int
  {
    if v < 0 then v + g else if v >= g then v - g else v
  }

  /** One wrap is enough within a grid's width of the grid, and it agrees with the modulus. */
  lemma WrapIsModulus(v: int, g: nat)
    requires g > 0 && -(g as int) <= v < 2 * g
    ensures 0 <= Wrap(v, g) < g
    ensures Wrap(v, g) == v % g
  {
    var w := Wrap(v, g);
    var q := if v < 0 then -1 else if v >= g then 1 else 0;
    assert v == q * g + w;
    ModOfMultiple(v, g, q, w);
  }

  /** The remainder of `q * g + w` by g is w, for a w in [0, g) and a small quotient q. */
  lemma ModOfMultiple(v: int, g: nat, q: int, w: int)
    requires g > 0 && 0 <= w < g && -1 <= q <= 1 && v == q * g + w
    ensures v % g == w
  {
    var d, r := v / g, v % g;
    assert v == g * d + r && 0 <= r < g;
    assert g * (d - q) == g * d - g * q;
    assert g * (d - q) == w - r;
    MultipleBounds(g, d - q);
  }

  /** A nonzero multiple of g is at least g away from 0. */
  lemma MultipleBounds(g: nat, k: int)
    requires g > 0
    ensures k >= 1 ==> g * k >= g
    ensures k <= -1 ==> g * k <= -(g as int)
  {
  }
}
