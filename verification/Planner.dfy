// The CSP setpoint generator of the rover's motion program, with `real` for double.
module Planner {

  const INT32_MIN := -0x8000_0000
  const INT32_MAX := 0x7fff_ffff

  const MAX_VELOCITY: real := 50000.0
  const MAX_ACCELERATION: real := 50000.0
  const BRAKE_DECEL: real := 5000.0

  /** The PDO period of the program, one millisecond. */
  const PERIOD: real := 0.001

  predicate Int32(n: int) {
    INT32_MIN <= n <= INT32_MAX
  }

  ghost predicate IsSqrt(sqrt: real -> real) {
    forall x: real :: x >= 0.0 ==> sqrt(x) >= 0.0 && sqrt(x) * sqrt(x) == x
  }

  function Fabs(x: real): real {
    if x < 0.0 then -x else x
  }

  function Fmin(x: real, y: real): real {
    if x < y then x else y
  }

  function Fmax(x: real, y: real): real {
    if x < y then y else x
  }

  function Copysign(x: real, y: real): real {
    if y < 0.0 then -Fabs(x) else Fabs(x)
  }

  /** Nearest integer, halves away from zero. */
  function Llround(x: real): int {
    if x < 0.0 then -(-x + 0.5).Floor else (x + 0.5).Floor
  }

  datatype Motion = Motion(position: real, velocity: real)

  /** One call of the planner. */
  function Advance(target: int, m: Motion, dt: real, sqrt: real -> real): Motion {
    var error := target as real - m.position;
    if Fabs(error) < 0.5 && Fabs(m.velocity) <= MAX_ACCELERATION * dt then Motion(target as real, 0.0)
    else
      var velocity := NextVelocity(error, m.velocity, dt, sqrt);
      Motion(NextPosition(m.position, m.velocity, velocity, dt), velocity)
  }

  /** Towards the speed from which braking still ends at the target, as fast as allowed. */
  function NextVelocity(error: real, velocity: real, dt: real, sqrt: real -> real): real {
    var desired := Copysign(Fmin(MAX_VELOCITY, sqrt(2.0 * BRAKE_DECEL * Fabs(error))), error);
    var change := MAX_ACCELERATION * dt;
    velocity + Fmax(-change, Fmin(change, desired - velocity))
  }

  /** Trapezoidal motion, kept inside the signed 32-bit range. */
  function NextPosition(position: real, before: real, after: real, dt: real): (p: real)
    ensures INT32_MIN as real <= p <= INT32_MAX as real
  {
    Fmax(INT32_MIN as real, Fmin(INT32_MAX as real, position + Travel(before, after, dt)))
  }

  function Travel(before: real, after: real, dt: real): real {
    0.5 * (before + after) * dt
  }

  class MotionPlanner {
    var initialized: bool
    var targetPosition: int
    var currentPosition: real
    var currentVelocity: real

    constructor ()
      ensures !initialized && targetPosition == 0
    {
      initialized, targetPosition, currentPosition, currentVelocity := false, 0, 0.0, 0.0;
    }

    /** Where the next call starts from. */
    function Now(actualPosition: int): Motion
      reads this
    {
      if initialized then Motion(currentPosition, currentVelocity) else Motion(actualPosition as real, 0.0)
    }

    method PlanTrajectory(actualPosition: int, dt: real, sqrt: real -> real) returns (setpoint: int)
      requires Int32(targetPosition)
      modifies this
      ensures initialized && targetPosition == old(targetPosition)
      ensures Motion(currentPosition, currentVelocity) == Advance(targetPosition, old(Now(actualPosition)), dt, sqrt)
      ensures setpoint == Llround(currentPosition) && Int32(setpoint)
    {
      hide Llround, Fabs, Fmin, Fmax, Copysign, IsSqrt, Travel;
      if !initialized {
        currentPosition := actualPosition as real;
        currentVelocity := 0.0;
        initialized := true;
      }
      var error := targetPosition as real - currentPosition;
      if Fabs(error) < 0.5 && Fabs(currentVelocity) <= MAX_ACCELERATION * dt {
        currentPosition := targetPosition as real;
        currentVelocity := 0.0;
        RoundInteger(targetPosition);
        return targetPosition;
      }
      var allowedSpeed := sqrt(2.0 * BRAKE_DECEL * Fabs(error));
      var desiredVelocity := Copysign(Fmin(MAX_VELOCITY, allowedSpeed), error);
      var velocityError := desiredVelocity - currentVelocity;
      var maxVelocityChange := MAX_ACCELERATION * dt;
      var previousVelocity := currentVelocity;
      currentVelocity := currentVelocity + Fmax(-maxVelocityChange, Fmin(maxVelocityChange, velocityError));
      assert currentVelocity == NextVelocity(error, previousVelocity, dt, sqrt);
      ghost var previousPosition := currentPosition;
      currentPosition := currentPosition + Travel(previousVelocity, currentVelocity, dt);
      currentPosition := Fmax(INT32_MIN as real, Fmin(INT32_MAX as real, currentPosition));
      assert currentPosition == NextPosition(previousPosition, previousVelocity, currentVelocity, dt);
      setpoint := Llround(currentPosition);
      RoundInRange(currentPosition);
    }
  }

  lemma {:induction false} RoundInteger(n: int)
    ensures Llround(n as real) == n
  {
  }

  lemma {:induction false} RoundMonotone(x: real, y: real)
    requires x <= y
    ensures Llround(x) <= Llround(y)
  {
  }

  lemma {:induction false} RoundInRange(x: real)
    requires INT32_MIN as real <= x <= INT32_MAX as real
    ensures Int32(Llround(x))
  {
    RoundInteger(INT32_MIN);
    RoundInteger(INT32_MAX);
    RoundMonotone(INT32_MIN as real, x);
    RoundMonotone(x, INT32_MAX as real);
  }

  // ---------------------------------------------------------------- distance and speed

  /** The planner seen from the target: distance to go and speed towards it. */
  datatype Approach = Approach(distance: real, speed: real)

  /** One period at 1 ms: at most 50 counts/s of change, at most the root of 10000 times the distance. */
  function Near(a: Approach, sqrt: real -> real): Approach {
    if a.distance < 0.5 && a.speed <= 50.0 then Approach(0.0, 0.0)
    else
      var desired := Fmin(50000.0, sqrt(10000.0 * a.distance));
      var speed := a.speed + Fmax(-50.0, Fmin(50.0, desired - a.speed));
      Approach(a.distance - 0.5 * (a.speed + speed) * 0.001, speed)
  }

  /** The target is ahead and the speed is at most 10 counts/s above what braking allows. */
  ghost predicate OnCourse(a: Approach, sqrt: real -> real) {
    && 0.0 <= a.distance && 0.0 <= a.speed <= 50000.0
    && a.speed <= sqrt(10000.0 * a.distance) + 10.0
  }

  lemma {:induction false} SquaresGrow(x: real, y: real)
    requires 0.0 <= y < x
    ensures y * y < x * x
  {
    var less, more := x - y, x + y;
    assert less * more > 0.0;
    assert less * more == x * x - y * y;
  }

  lemma {:induction false} RootMonotone(x: real, y: real)
    requires y >= 0.0 && x * x <= y * y
    ensures x <= y
  {
    if x > y {
      SquaresGrow(x, y);
    }
  }

  /** A step that does not end the move starts far enough away to stay clear of the target. */
  lemma {:induction false} SpeedBounds(a: Approach, sqrt: real -> real)
    requires IsSqrt(sqrt) && OnCourse(a, sqrt)
    requires !(a.distance < 0.5 && a.speed <= 50.0)
    ensures var s, v := sqrt(10000.0 * a.distance), Near(a, sqrt).speed;
            s >= 40.0 && s * s == 10000.0 * a.distance && 40.0 <= v <= s && v <= 50000.0
  {
    var s := sqrt(10000.0 * a.distance);
    if a.distance >= 0.5 {
      RootMonotone(40.0, s);
    }
  }

  lemma {:induction false} RootStaysClose(s: real, root: real, moved: real)
    requires s >= 40.0 && root >= 0.0 && 0.0 <= moved <= 10.0 * s + 50.0
    requires root * root == s * s - moved
    ensures root >= s - 10.0
  {
    assert (s - 10.0) * (s - 10.0) == s * s - 20.0 * s + 100.0;
    RootMonotone(s - 10.0, root);
  }

  lemma {:induction false} NoOvershoot(s: real)
    requires s >= 40.0
    ensures s * s >= 10.0 * s + 50.0
  {
    assert s * s >= 40.0 * s;
  }

  /** Every step keeps the course, never passes the target, and moves at least 1/50 count or
      arrives exactly with zero speed. */
  lemma {:induction false} StepKeepsCourse(a: Approach, sqrt: real -> real)
    requires IsSqrt(sqrt) && OnCourse(a, sqrt)
    ensures var n := Near(a, sqrt);
            && OnCourse(n, sqrt) && n.distance <= a.distance
            && (n == Approach(0.0, 0.0) || n.distance <= a.distance - 0.02)
  {
    if !(a.distance < 0.5 && a.speed <= 50.0) {
      SpeedBounds(a, sqrt);
      var s, n := sqrt(10000.0 * a.distance), Near(a, sqrt);
      var moved := 5.0 * (a.speed + n.speed);
      assert 10000.0 * n.distance == s * s - moved;
      NoOvershoot(s);
      RootStaysClose(s, sqrt(10000.0 * n.distance), moved);
    } else {
      assert sqrt(10000.0 * 0.0) >= 0.0;
    }
  }

  function Nearing(a: Approach, sqrt: real -> real, n: nat): Approach {
    if n == 0 then a else Near(Nearing(a, sqrt, n - 1), sqrt)
  }

  lemma {:induction false} NearingKeepsCourse(a: Approach, sqrt: real -> real, n: nat)
    requires IsSqrt(sqrt) && OnCourse(a, sqrt)
    ensures OnCourse(Nearing(a, sqrt, n), sqrt) && Nearing(a, sqrt, n).distance <= a.distance
  {
    if n > 0 {
      NearingKeepsCourse(a, sqrt, n - 1);
      StepKeepsCourse(Nearing(a, sqrt, n - 1), sqrt);
    }
  }

  /** After n steps the move is over or 1/50 count shorter per step. */
  lemma {:induction false} NearingMakesProgress(a: Approach, sqrt: real -> real, n: nat)
    requires IsSqrt(sqrt) && OnCourse(a, sqrt)
    ensures Nearing(a, sqrt, n) == Approach(0.0, 0.0) || Nearing(a, sqrt, n).distance <= a.distance - 0.02 * n as real
  {
    if n > 0 {
      NearingMakesProgress(a, sqrt, n - 1);
      NearingKeepsCourse(a, sqrt, n - 1);
      StepKeepsCourse(Nearing(a, sqrt, n - 1), sqrt);
    }
  }

  /** The step after n steps of a move from rest, in terms of distance and speed. */
  lemma {:induction false} StepOfMove(a: Approach, sqrt: real -> real, n: nat)
    requires IsSqrt(sqrt) && OnCourse(a, sqrt)
    ensures var p, q := Nearing(a, sqrt, n), Nearing(a, sqrt, n + 1);
            && 0.0 <= q.distance <= p.distance <= a.distance && q.speed >= 0.0
            && (n as real >= 50.0 * a.distance ==> q == Approach(0.0, 0.0))
  {
    hide Near, IsSqrt;
    NearingKeepsCourse(a, sqrt, n);
    StepKeepsCourse(Nearing(a, sqrt, n), sqrt);
    NearingMakesProgress(a, sqrt, n + 1);
  }

  // ---------------------------------------------------------------- both directions

  /** The approach `a` of a target from below (`up`) or from above. */
  function Seen(target: int, a: Approach, up: bool): Motion {
    if up then Motion(target as real - a.distance, a.speed)
    else Motion(target as real + a.distance, -a.speed)
  }

  /** Both directions behave alike as long as the range of the PDO is not left. */
  lemma {:induction false} AdvanceIsNear(target: int, a: Approach, up: bool, sqrt: real -> real)
    requires IsSqrt(sqrt) && OnCourse(a, sqrt)
    requires Int32(target)
    requires INT32_MIN as real <= Seen(target, a, up).position <= INT32_MAX as real
    ensures Advance(target, Seen(target, a, up), PERIOD, sqrt) == Seen(target, Near(a, sqrt), up)
  {
    StepKeepsCourse(a, sqrt);
    var m := Seen(target, a, up);
    var error := target as real - m.position;
    assert Fabs(error) == a.distance && Fabs(m.velocity) == a.speed;
    assert MAX_ACCELERATION * PERIOD == 50.0;
    assert 2.0 * BRAKE_DECEL * a.distance == 10000.0 * a.distance;
  }

  function Planned(target: int, m: Motion, sqrt: real -> real, n: nat): Motion {
    if n == 0 then m else Advance(target, Planned(target, m, sqrt, n - 1), PERIOD, sqrt)
  }

  ghost predicate Between(x: real, y: real, z: real) {
    x <= y <= z || z <= y <= x
  }

  lemma {:induction false} PlannedIsNearing(target: int, start: int, sqrt: real -> real, n: nat)
    requires IsSqrt(sqrt) && Int32(target) && Int32(start)
    ensures var a := Approach(Fabs(target as real - start as real), 0.0);
            && OnCourse(a, sqrt) && OnCourse(Nearing(a, sqrt, n), sqrt)
            && Nearing(a, sqrt, n).distance <= a.distance
            && Planned(target, Motion(start as real, 0.0), sqrt, n) == Seen(target, Nearing(a, sqrt, n), start <= target)
  {
    var a := Approach(Fabs(target as real - start as real), 0.0);
    assert OnCourse(a, sqrt);
    NearingKeepsCourse(a, sqrt, n);
    if n > 0 {
      PlannedIsNearing(target, start, sqrt, n - 1);
      NearingKeepsCourse(a, sqrt, n - 1);
      AdvanceIsNear(target, Nearing(a, sqrt, n - 1), start <= target, sqrt);
    }
  }

  /** Total correctness of a move: from rest at any position to any fixed target the planned
      position moves monotonically and never passes the target (the setpoints likewise), and
      within 50 calls per count plus one it rests exactly on the target and stays there. */
  lemma {:induction false} MoveIsCorrect(target: int, start: int, sqrt: real -> real, n: nat)
    requires IsSqrt(sqrt) && Int32(target) && Int32(start)
    ensures var m0 := Motion(start as real, 0.0);
            var p, q := Planned(target, m0, sqrt, n), Planned(target, m0, sqrt, n + 1);
            && Between(start as real, p.position, q.position) && Between(p.position, q.position, target as real)
            && (if start <= target then Llround(p.position) <= Llround(q.position) <= target && q.velocity >= 0.0
                else target <= Llround(q.position) <= Llround(p.position) && q.velocity <= 0.0)
            && (n >= 50 * (if start <= target then target - start else start - target) ==> q == Motion(target as real, 0.0))
  {
    hide Near, Nearing, Advance, Planned, OnCourse, Llround, IsSqrt;
    var a := Approach(Fabs(target as real - start as real), 0.0);
    var up := start <= target;
    PlannedIsNearing(target, start, sqrt, n);
    PlannedIsNearing(target, start, sqrt, n + 1);
    StepOfMove(a, sqrt, n);
    var p, q := Seen(target, Nearing(a, sqrt, n), up).position, Seen(target, Nearing(a, sqrt, n + 1), up).position;
    RoundInteger(target);
    if up {
      RoundMonotone(p, q);
      RoundMonotone(q, target as real);
    } else {
      RoundMonotone(q, p);
      RoundMonotone(target as real, q);
    }
  }

  // ---------------------------------------------------------------- one call every cycle

  /** The motion after `n` cycles, the destination being replaced in every one. */
  function Followed(commands: seq<int>, m: Motion, sqrt: real -> real, n: nat): Motion
    requires n <= |commands|
  {
    if n == 0 then m else Advance(commands[n - 1], Followed(commands, m, sqrt, n - 1), PERIOD, sqrt)
  }

  /** The planner in the cyclic thread while commands are there: each cycle sets the destination and sends the next setpoint. */
  method Follow(planner: MotionPlanner, commands: seq<int>, actual: seq<int>, sqrt: real -> real)
    returns (setpoints: seq<int>)
    requires |commands| == |actual| > 0 && forall i :: 0 <= i < |commands| ==> Int32(commands[i])
    modifies planner
    ensures |setpoints| == |commands|
    ensures var m := old(planner.Now(actual[0]));
            && (forall i :: 0 <= i < |commands| ==> setpoints[i] == Llround(Followed(commands, m, sqrt, i + 1).position))
            && planner.Now(0) == Followed(commands, m, sqrt, |commands|)
  {
    hide Advance, Llround;
    ghost var m := planner.Now(actual[0]);
    setpoints := [];
    while |setpoints| < |commands|
      invariant |setpoints| <= |commands|
      invariant planner.Now(if |setpoints| == 0 then actual[0] else 0) == Followed(commands, m, sqrt, |setpoints|)
      invariant |setpoints| > 0 ==> planner.initialized
      invariant forall i :: 0 <= i < |setpoints| ==> setpoints[i] == Llround(Followed(commands, m, sqrt, i + 1).position)
    {
      var i := |setpoints|;
      planner.targetPosition := commands[i];
      var setpoint := planner.PlanTrajectory(actual[i], PERIOD, sqrt);
      setpoints := setpoints + [setpoint];
    }
  }

  /** As long as the destination stays the same these are the steps of one move. */
  lemma {:induction false} SteadyCommand(target: int, commands: seq<int>, m: Motion, sqrt: real -> real, n: nat)
    requires n <= |commands| && forall i :: 0 <= i < n ==> commands[i] == target
    ensures Followed(commands, m, sqrt, n) == Planned(target, m, sqrt, n)
  {
    hide Advance;
    if n > 0 {
      SteadyCommand(target, commands, m, sqrt, n - 1);
    }
  }

  /** The speed limit, and the range of the PDO. */
  predicate Permitted(m: Motion) {
    Fabs(m.velocity) <= MAX_VELOCITY && INT32_MIN as real <= m.position <= INT32_MAX as real
  }

  lemma {:induction false} SpeedTowards(error: real, velocity: real, sqrt: real -> real)
    requires IsSqrt(sqrt) && Fabs(velocity) <= MAX_VELOCITY
    ensures var v := NextVelocity(error, velocity, PERIOD, sqrt);
            Fabs(v) <= MAX_VELOCITY && Fabs(v - velocity) <= MAX_ACCELERATION * PERIOD
  {
    var x := 2.0 * BRAKE_DECEL * Fabs(error);
    assert sqrt(x) >= 0.0;
    hide IsSqrt;
  }

  lemma {:induction false} StaysWithinLimits(target: int, m: Motion, sqrt: real -> real)
    requires IsSqrt(sqrt) && Int32(target) && Permitted(m)
    ensures var n := Advance(target, m, PERIOD, sqrt);
            && Permitted(n) && Fabs(n.velocity - m.velocity) <= MAX_ACCELERATION * PERIOD
            && Fabs(n.position - m.position) <= MAX_VELOCITY * PERIOD
  {
    hide IsSqrt, NextVelocity;
    SpeedTowards(target as real - m.position, m.velocity, sqrt);
  }

  /** Speed, acceleration and the distance of one cycle stay within their limits whatever destinations come, also when one is
      replaced in the middle of a move. */
  lemma {:induction false} LimitsHold(commands: seq<int>, m: Motion, sqrt: real -> real, n: nat)
    requires IsSqrt(sqrt) && Permitted(m) && n <= |commands| && forall i :: 0 <= i < |commands| ==> Int32(commands[i])
    ensures var p := Followed(commands, m, sqrt, n);
            Permitted(p) && (n < |commands| ==>
              var q := Followed(commands, m, sqrt, n + 1);
              Fabs(q.velocity - p.velocity) <= MAX_ACCELERATION * PERIOD && Fabs(q.position - p.position) <= MAX_VELOCITY * PERIOD)
  {
    hide Advance, Permitted, IsSqrt;
    if n > 0 {
      LimitsHold(commands, m, sqrt, n - 1);
      StaysWithinLimits(commands[n - 1], Followed(commands, m, sqrt, n - 1), sqrt);
    }
    if n < |commands| {
      StaysWithinLimits(commands[n], Followed(commands, m, sqrt, n), sqrt);
    }
  }
}
