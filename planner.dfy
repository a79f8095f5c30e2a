/** The rotation decision of `setActiveDot` and the signed turn that
    `rotateCircle` applies to the ring. Angles are in steps of 360/n degrees;
    `Degrees` converts a step count back to the source's degrees. */
module Planner {
  import opened Arith
  import opened Geometry

  /** The pair passed to `rotateCircle`: the flag the source calls
      `clockwiseDirection` (true exactly when the offset exceeds 180 degrees)
      and the magnitude `rotateValue`, in steps. */
  datatype Plan = Plan(clockwise: bool, magnitude: int)

  /** The outcome of a selection request: the active dot again (nothing
      happens), a rotation, or an index the dot list does not hold (the
      source's `find(...)!` yields undefined and reading `.deg` throws). */
  datatype Selection = Stay | Rotate(plan: Plan) | Missing

  /** `steps * (360 / n)` degrees. */
  function Degrees(steps: int, n: nat): (d: real)
    requires n > 0
  {
    steps as real * (360.0 / n as real)
  }

  /** An offset of more than 180 degrees is more than half of the n steps. */
  lemma DegreesAbove180(k: int, n: nat)
    requires n > 0
    ensures Degrees(k, n) > 180.0 <==> 2 * k > n
  {
    var d := 360.0 / n as real;
    assert d * n as real == 360.0;
    assert Degrees(k, n) * n as real == 360.0 * k as real;
    if 2 * k > n {
      assert Degrees(k, n) * n as real > 180.0 * n as real;
    } else {
      assert Degrees(k, n) * n as real <= 180.0 * n as real;
    }
  }

  /** Degrees are additive in steps. */
  lemma DegreesSub(x: int, y: int, n: nat)
    requires n > 0
    ensures Degrees(x - y, n) == Degrees(x, n) - Degrees(y, n)
  {
  }

  /** The decision at the heart of `setActiveDot`: with `deg` the target's
      offset, `deg > 180` turns the ring by `360 - deg`, otherwise by `deg`. */
  function Decide(offset: int, n: nat): (p: Plan)
    requires n > 0
    ensures p.clockwise <==> Degrees(offset, n) > 180.0
    ensures Degrees(p.magnitude, n)
      == if p.clockwise then 360.0 - Degrees(offset, n) else Degrees(offset, n)
  {
    DegreesAbove180(offset, n);
    DegreesSub(n, offset, n);
    var clockwise := 2 * offset > n;
    Plan(clockwise, if clockwise then n - offset else offset)
  }

  /** A nonzero offset inside a turn is turned by a positive amount of at most
      half a turn (180 degrees), and exactly half a turn takes the non-clockwise branch. */
  lemma DecideBounded(offset: int, n: nat)
    requires 0 < offset < n
    ensures 0 < Decide(offset, n).magnitude && 2 * Decide(offset, n).magnitude <= n
    ensures 0.0 < Degrees(Decide(offset, n).magnitude, n) <= 180.0
    ensures 2 * offset == n ==> Decide(offset, n) == Plan(false, offset)
  {
    var m := Decide(offset, n).magnitude;
    DegreesAbove180(m, n);
    assert Degrees(m, n) > 0.0 by {
      assert 360.0 / n as real > 0.0;
    }
  }

  /** `setActiveDot(t)` while `a` is active: the plan it passes to `rotateCircle`,
      looked up in the dot list computed for the current active dot. */
  function PlanSelection(a: int, t: int, n: nat): (s: Selection)
    requires 0 <= a < n
  {
    if t == a then Stay
    else match Find(DotsDegrees(a, n), t)
      case None => Missing
      case Some(dot) => Rotate(Decide(dot.steps, n))
  }

  /** Selecting the active dot does nothing, an index outside [0, n) is not
      found, and any other target is planned from its offset to the active dot. */
  lemma PlanSelectionCases(a: int, t: int, n: nat)
    requires 0 <= a < n
    ensures t == a ==> PlanSelection(a, t, n) == Stay
    ensures t != a && 0 <= t < n ==> PlanSelection(a, t, n) == Rotate(Decide(Offset(a, t, n), n))
    ensures !(0 <= t < n) ==> PlanSelection(a, t, n) == Missing
  {
    FindOffset(a, n, t);
  }

  /** Worked cases: with six dots (60 degrees apart) the dot after the active
      one is reached by turning 60 degrees back, and dot 4 (240 degrees away)
      by turning 120 degrees forward; with four dots the opposite dot, exactly
      180 degrees away, takes the non-clockwise branch. */
  lemma PlanExamples()
    ensures PlanSelection(0, 1, 6) == Rotate(Plan(false, 1)) && Degrees(1, 6) == 60.0
    ensures PlanSelection(0, 4, 6) == Rotate(Plan(true, 2)) && Degrees(4, 6) == 240.0 && Degrees(2, 6) == 120.0
    ensures PlanSelection(0, 2, 4) == Rotate(Plan(false, 2)) && Degrees(2, 4) == 180.0
  {
    PlanSelectionCases(0, 1, 6);
    PlanSelectionCases(0, 4, 6);
    PlanSelectionCases(0, 2, 4);
  }

  /** What `rotateCircle(clockwise, v)` adds to the ring's rotation: `+v` or
      `-v`. Every dot container receives the opposite amount. */
  function CircleDelta(s: Selection): (delta: int)
  {
    match s
    case Rotate(p) => if p.clockwise then p.magnitude else -p.magnitude
    case _ => 0
  }

  /** The signed turn of selecting `t` while `a` is active, in closed form:
      nothing for the active dot; with `k` the offset of the target, `+(n - k)`
      past half a turn and `-k` otherwise. */
  function Turn(a: int, t: int, n: nat): (delta: int)
    requires 0 <= a < n && 0 <= t < n
  {
    if t == a then 0
    else if 2 * Offset(a, t, n) > n then n - Offset(a, t, n)
    else -Offset(a, t, n)
  }

  /** The turn that the dot-list lookup plans is the closed-form turn. */
  lemma DeltaOfSelection(a: int, t: int, n: nat)
    requires 0 <= a < n && 0 <= t < n
    ensures CircleDelta(PlanSelection(a, t, n)) == Turn(a, t, n)
  {
    PlanSelectionCases(a, t, n);
  }

  /** The lookup and decision inside `setActiveDot`: build the dot list of the
      active dot `a`, find the target `t` in it, and turn by `360 - deg` when
      `deg > 180`, by `deg` otherwise. */
  method PlanTurn(a: int, t: int, n: nat) returns (clockwise: bool, rotateValue: int)
    requires 0 <= a < n && 0 <= t < n && t != a
    ensures PlanSelection(a, t, n) == Rotate(Plan(clockwise, rotateValue))
    ensures clockwise <==> Degrees(Offset(a, t, n), n) > 180.0
    ensures (if clockwise then rotateValue else -rotateValue) == Turn(a, t, n)
  {
    var dots := GetDotsDegrees(a, n);
    FindOffset(a, n, t);
    PlanSelectionCases(a, t, n);
    var dot := Find(dots, t).value;
    DegreesAbove180(dot.steps, n);
    clockwise := Degrees(dot.steps, n) > 180.0;
    rotateValue := dot.steps;
    if clockwise {
      rotateValue := n - dot.steps;
    }
  }

  /** The previous dot is n - 1 steps away, so reaching it turns the ring one
      step forward (or one step back when n is 2); the next dot is one step
      away and is reached by turning one step back. */
  lemma NeighbourTurns(a: int, n: nat)
    requires 0 <= a < n
    ensures a > 0 ==> CircleDelta(PlanSelection(a, a - 1, n)) == if n > 2 then 1 else -1
    ensures a < n - 1 ==> CircleDelta(PlanSelection(a, a + 1, n)) == -1
  {
    if a > 0 {
      DeltaOfSelection(a, a - 1, n);
    }
    if a < n - 1 {
      DeltaOfSelection(a, a + 1, n);
    }
  }

  /** A selection turns the ring by at most half a turn, and by nothing
      exactly when the target is already active. */
  lemma TurnBounded(a: int, t: int, n: nat)
    requires 0 <= a < n && 0 <= t < n
    ensures -(n as int) <= 2 * CircleDelta(PlanSelection(a, t, n)) <= n
    ensures CircleDelta(PlanSelection(a, t, n)) == 0 <==> t == a
  {
    PlanSelectionCases(a, t, n);
    if t != a {
      DecideBounded(Offset(a, t, n), n);
    }
  }

  /** The ring turns by `a - t` steps up to one whole turn, which is what brings
      dot `t` to the place dot `a` held. */
  lemma TurnAligns(a: int, t: int, n: nat)
    requires 0 <= a < n && 0 <= t < n
    ensures exists e :: -1 <= e <= 1 && Turn(a, t, n) == a - t + e * n
  {
    var d := Turn(a, t, n);
    if t == a {
      assert d == a - t + 0 * n;
    } else if t > a {
      if 2 * (t - a) > n {
        assert d == a - t + 1 * n;
      } else {
        assert d == a - t + 0 * n;
      }
    } else {
      if 2 * (t - a + n) > n {
        assert d == a - t + 0 * n;
      } else {
        assert d == a - t + (-1) * n;
      }
    }
  }

  /** If the active dot `a` sits at the reference axis (the ring is turned by
      `-a` steps up to whole turns), then after selecting `t` the new active
      dot `t` does. */
  lemma SelectionKeepsAligned(c: int, a: int, t: int, n: nat)
    requires 0 <= a < n && 0 <= t < n && (c + a) % n == 0
    ensures (c + Turn(a, t, n) + t) % n == 0
  {
    TurnAligns(a, t, n);
    var e :| -1 <= e <= 1 && Turn(a, t, n) == a - t + e * n;
    MultipleShift(c + a, e, n);
  }

  /** Selecting `t` and then the previously active `a` turns the ring back to
      where it was, except for the dot diametrically opposite: both moves then
      take the non-clockwise branch and the ring ends one full turn (-360
      degrees) further. */
  lemma RoundTrip(a: int, t: int, n: nat)
    requires 0 <= a < n && 0 <= t < n
    ensures CircleDelta(PlanSelection(a, t, n)) + CircleDelta(PlanSelection(t, a, n))
      == if 2 * Offset(a, t, n) == n then -(n as int) else 0
  {
    if t == a {
      PlanSelectionCases(a, t, n);
    } else {
      DeltaOfSelection(a, t, n);
      DeltaOfSelection(t, a, n);
    }
  }

  /** The ring's rotation and active dot after a run of selections, starting
      from active dot `a` and ring rotation `c`. */
  function Replay(n: nat, a: int, c: int, targets: seq<int>): (r: (int, int))
    requires 0 <= a < n
    requires forall i :: 0 <= i < |targets| ==> 0 <= targets[i] < n
    decreases |targets|
  {
    if targets == [] then (a, c)
    else Replay(n, targets[0], c + Turn(a, targets[0], n), targets[1..])
  }

  /** If the active dot sits at the reference axis (the ring's rotation is
      `-a` steps up to whole turns), it still does after any run of selections,
      and the last target is then the active dot. */
  lemma {:induction false} ReplayAligned(n: nat, a: int, c: int, targets: seq<int>)
    requires 0 <= a < n
    requires forall i :: 0 <= i < |targets| ==> 0 <= targets[i] < n
    requires (c + a) % n == 0
    ensures (Replay(n, a, c, targets).1 + Replay(n, a, c, targets).0) % n == 0
    ensures 0 <= Replay(n, a, c, targets).0 < n
    ensures targets != [] ==> Replay(n, a, c, targets).0 == targets[|targets| - 1]
    decreases |targets|
  {
    if targets != [] {
      var t := targets[0];
      var c' := c + Turn(a, t, n);
      var rest := targets[1..];
      SelectionKeepsAligned(c, a, t, n);
      assert (c' + t) % n == 0;
      assert Replay(n, a, c, targets) == Replay(n, t, c', rest);
      ReplayAligned(n, t, c', rest);
      if rest != [] {
        assert rest[|rest| - 1] == targets[|targets| - 1];
      }
    }
  }
}
