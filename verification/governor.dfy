/**
 * The motor governor of the differential-drive controller: two wheels, each with a
 * commanded (target) and applied (actual) speed in percent, a watchdog clock, and
 * the PWM duty / DIR level last written to each motor driver.
 *
 * Every entry point is a pure transition over an immutable `State`; the timer
 * reading that the firmware takes from the system clock is the `now` parameter
 * (microseconds).
 */
module Governor {
  import opened Common

  /** Watchdog window: silence after which the targets are forced to zero. */
  const DecayMs: int := 300
  /** Period of the control timer. */
  const TaskPeriodMs: int := 10
  /** The watchdog compares ages in microseconds. */
  const WatchdogUs: int := DecayMs * 1000
  /** Commanded and applied speeds are percentages in -MaxSpeed .. MaxSpeed. */
  const MaxSpeed: int := 100
  /** Largest PWM duty, (1 << 10) - 1 for the driver's 10-bit resolution. */
  const MaxDuty: int := 1023
  /** Largest change of the applied speed per tick, 100 * 10 / 300 percent, kept exact. */
  const SlewDelta: real := 100.0 * (TaskPeriodMs as real) / (DecayMs as real)

  /** Level of a motor's DIR pin: 0 drives forward, 1 drives in reverse. */
  datatype Direction = Forward | Reverse

  /** What is written to one motor driver: PWM duty and direction. */
  datatype Drive = Drive(duty: int, dir: Direction)

  datatype State = State(
    targetLeft: int, targetRight: int,   // last commanded speed per wheel
    actualLeft: int, actualRight: int,   // speed currently applied per wheel
    lastCmdUs: int,                      // timer reading of the last accepted command
    driveLeft: Drive, driveRight: Drive) // output last written to each driver

  predicate InSpeedRange(v: int)
  {
    -MaxSpeed <= v <= MaxSpeed
  }

  /** The governor's invariant: every speed is a valid percentage (so each fits an
      int16) and the drivers show exactly the mapping of the applied speeds. */
  predicate Valid(s: State)
  {
    && InSpeedRange(s.targetLeft) && InSpeedRange(s.targetRight)
    && InSpeedRange(s.actualLeft) && InSpeedRange(s.actualRight)
    && s.driveLeft == Actuate(s.actualLeft) && s.driveRight == Actuate(s.actualRight)
  }

  predicate AtRest(s: State)
  {
    && s.targetLeft == 0 && s.targetRight == 0
    && s.actualLeft == 0 && s.actualRight == 0
    && s.driveLeft.duty == 0 && s.driveRight.duty == 0
  }

  // ------------------------------------------------------------------
  // Actuation: signed percentage -> (duty, direction)
  // ------------------------------------------------------------------

  lemma {:induction false} FloorOfQuotient(x: nat, k: nat)
    requires k > 0
    ensures (x as real / k as real).Floor == x / k
  {
    var q, r := x / k, x % k;
    assert x == q * k + r;
    assert x as real / k as real == q as real + r as real / k as real;
    assert 0.0 <= r as real / k as real < 1.0;
  }

  /** Duty is the magnitude scaled to full scale and truncated (not rounded); the
      direction is reverse exactly for negative speeds. */
  function Actuate(v: int): (d: Drive)
    ensures d.dir == Reverse <==> v < 0
    ensures d.duty == Abs(v) * MaxDuty / 100
    ensures InSpeedRange(v) ==> 0 <= d.duty <= MaxDuty
    ensures InSpeedRange(v) ==> (d.duty == 0 <==> v == 0)
    ensures InSpeedRange(v) ==> (d.duty == MaxDuty <==> Abs(v) == MaxSpeed)
  {
    FloorOfQuotient(Abs(v) * MaxDuty, 100);
    DutyBounds(Abs(v));
    Drive(((Abs(v) * MaxDuty) as real / 100.0).Floor, if v < 0 then Reverse else Forward)
  }

  lemma DutyBounds(m: nat)
    ensures m <= MaxSpeed ==> 0 <= m * MaxDuty / 100 <= MaxDuty
    ensures m * MaxDuty / 100 == 0 <==> m == 0
    ensures m <= MaxSpeed ==> (m * MaxDuty / 100 == MaxDuty <==> m == MaxSpeed)
  {
    if m < MaxSpeed {
      assert m * MaxDuty <= 99 * MaxDuty;
    }
    if m > 0 {
      assert m * MaxDuty >= MaxDuty;
    }
  }

  /** Half of full reverse: the truncated duty is 511, not the rounded 512. */
  lemma HalfReverseDuty()
    ensures Actuate(-50) == Drive(511, Reverse)
  {
  }

  // ------------------------------------------------------------------
  // Slew limiter
  // ------------------------------------------------------------------

  function RealAbs(x: real): real
  {
    if x < 0.0 then -x else x
  }

  /** C `roundf`: nearest integer, halfway cases away from zero. */
  function RoundHalfAway(x: real): (n: int)
    ensures x >= 0.0 ==> x - 0.5 < n as real <= x + 0.5
    ensures x < 0.0 ==> x - 0.5 <= n as real < x + 0.5
  {
    if x >= 0.0 then (x + 0.5).Floor else -((-x + 0.5).Floor)
  }

  /** One slew step: snap to the target when within `delta`, otherwise move `delta`
      toward it and round. It never passes the target, whatever `delta >= 0`. */
  function Slew(cur: int, tgt: int, delta: real): (next: int)
    ensures delta >= 0.0 ==> Between(cur, next, tgt)
    ensures delta >= 0.0 ==> RealAbs((next - cur) as real) <= delta + 0.5
  {
    var diff := (tgt - cur) as real;
    if RealAbs(diff) <= delta then tgt
    else if diff > 0.0 then RoundHalfAway(cur as real + delta)
    else RoundHalfAway(cur as real - delta)
  }

  /** Integer reference for the governor's slew: with the exact delta 10/3 the
      step that actually happens is 3. */
  function StepToward(cur: int, tgt: int): int
  {
    if Abs(tgt - cur) <= 3 then tgt
    else if tgt > cur then cur + 3
    else cur - 3
  }

  lemma SlewIsStepOfThree(cur: int, tgt: int)
    ensures Slew(cur, tgt, SlewDelta) == StepToward(cur, tgt)
  {
    assert SlewDelta == 10.0 / 3.0;
    var diff := (tgt - cur) as real;
    if RealAbs(diff) <= SlewDelta {
      assert Abs(tgt - cur) <= 3;
    } else {
      assert Abs(tgt - cur) > 3;
      if diff > 0.0 {
        assert RoundHalfAway(cur as real + SlewDelta) == cur + 3;
      } else {
        assert RoundHalfAway(cur as real - SlewDelta) == cur - 3;
      }
    }
  }

  /** The slew snaps to the target exactly when the gap is at most delta
      (which for integer gaps means at most 3). */
  lemma SlewSnapsIff(cur: int, tgt: int)
    ensures Slew(cur, tgt, SlewDelta) == tgt <==> RealAbs((tgt - cur) as real) <= SlewDelta
    ensures Slew(cur, tgt, SlewDelta) == tgt <==> Abs(tgt - cur) <= 3
  {
    SlewIsStepOfThree(cur, tgt);
    assert SlewDelta == 10.0 / 3.0;
  }

  /** The slew never overshoots, moves at most delta, and shrinks the gap by
      exactly 3 until it closes. */
  lemma SlewBounded(cur: int, tgt: int)
    ensures Between(cur, Slew(cur, tgt, SlewDelta), tgt)
    ensures RealAbs((Slew(cur, tgt, SlewDelta) - cur) as real) <= SlewDelta
    ensures Abs(tgt - Slew(cur, tgt, SlewDelta)) == Max(0, Abs(tgt - cur) - 3)
  {
    SlewIsStepOfThree(cur, tgt);
    assert SlewDelta == 10.0 / 3.0;
  }

  /** A settled channel stays settled. */
  lemma SlewSettled(v: int, delta: real)
    requires delta >= 0.0
    ensures Slew(v, v, delta) == v
  {
  }

  // ------------------------------------------------------------------
  // Entry points
  // ------------------------------------------------------------------

  /** Clip a commanded speed to the nearest valid percentage. */
  function Clamp(x: int): (r: int)
    ensures InSpeedRange(r)
    ensures InSpeedRange(x) ==> r == x
    ensures forall y :: InSpeedRange(y) ==> Abs(r - x) <= Abs(y - x)
  {
    if x > MaxSpeed then MaxSpeed else if x < -MaxSpeed then -MaxSpeed else x
  }

  /** Values of the statics before initialisation; the drivers start at duty 0. */
  const Boot: State := State(0, 0, 0, 0, 0, Drive(0, Forward), Drive(0, Forward))

  /** Set the wheels' targets (clipped) and stamp the command time. Nothing is
      driven until the next tick. */
  function SetSpeeds(s: State, left: int, right: int, now: int): (s': State)
    ensures InSpeedRange(s'.targetLeft) && InSpeedRange(s'.targetRight)
    ensures InSpeedRange(left) ==> s'.targetLeft == left
    ensures InSpeedRange(right) ==> s'.targetRight == right
    ensures left > MaxSpeed ==> s'.targetLeft == MaxSpeed
    ensures left < -MaxSpeed ==> s'.targetLeft == -MaxSpeed
    ensures right > MaxSpeed ==> s'.targetRight == MaxSpeed
    ensures right < -MaxSpeed ==> s'.targetRight == -MaxSpeed
    ensures s'.lastCmdUs == now
    ensures s'.actualLeft == s.actualLeft && s'.actualRight == s.actualRight
    ensures s'.driveLeft == s.driveLeft && s'.driveRight == s.driveRight
    ensures Valid(s) ==> Valid(s')
  {
    s.(targetLeft := Clamp(left), targetRight := Clamp(right), lastCmdUs := now)
  }

  /** Telemetry read: the speeds actually applied, never the targets. */
  function GetSpeeds(s: State): (r: (int, int))
    ensures Valid(s) ==> InSpeedRange(r.0) && InSpeedRange(r.1)
    ensures Valid(s) ==> (r.0 < 0 <==> s.driveLeft.dir == Reverse)
    ensures Valid(s) ==> (r.1 < 0 <==> s.driveRight.dir == Reverse)
  {
    (s.actualLeft, s.actualRight)
  }

  /** Immediate brake: targets and actuals to zero, clock refreshed, zero duty
      written at once without waiting for a tick. */
  function EStop(s: State, now: int): (s': State)
    ensures AtRest(s') && Valid(s')
    ensures s'.lastCmdUs == now
  {
    State(0, 0, 0, 0, now, Actuate(0), Actuate(0))
  }

  /** Start-up: the statics, then an emergency stop at the start-up time. */
  function Init(now: int): (s: State)
    ensures Valid(s) && AtRest(s) && s.lastCmdUs == now
  {
    EStop(Boot, now)
  }

  predicate Stale(s: State, now: int)
  {
    now - s.lastCmdUs >= WatchdogUs
  }

  /** The watchdog step of a tick: stale commands are replaced by zero targets. */
  function Watchdog(s: State, now: int): (s': State)
    ensures Stale(s, now) ==> s'.targetLeft == 0 && s'.targetRight == 0
    ensures !Stale(s, now) ==> s' == s
    ensures s'.actualLeft == s.actualLeft && s'.actualRight == s.actualRight
    ensures s'.lastCmdUs == s.lastCmdUs && s'.driveLeft == s.driveLeft && s'.driveRight == s.driveRight
  {
    if Stale(s, now) then s.(targetLeft := 0, targetRight := 0) else s
  }

  /** One 10 ms timer tick: watchdog, then one slew step per wheel, then the
      applied speeds are written to the drivers. */
  function Tick(s: State, now: int): (s': State)
    ensures Stale(s, now) ==> s'.targetLeft == 0 && s'.targetRight == 0
    ensures !Stale(s, now) ==> s'.targetLeft == s.targetLeft && s'.targetRight == s.targetRight
    ensures s'.lastCmdUs == s.lastCmdUs
    ensures Between(s.actualLeft, s'.actualLeft, s'.targetLeft)
    ensures Between(s.actualRight, s'.actualRight, s'.targetRight)
    ensures Abs(s'.actualLeft - s.actualLeft) <= 3 && Abs(s'.actualRight - s.actualRight) <= 3
    ensures s'.driveLeft == Actuate(s'.actualLeft) && s'.driveRight == Actuate(s'.actualRight)
    ensures Valid(s) ==> Valid(s')
  {
    var w := Watchdog(s, now);
    var al := Slew(w.actualLeft, w.targetLeft, SlewDelta);
    var ar := Slew(w.actualRight, w.targetRight, SlewDelta);
    SlewBounded(w.actualLeft, w.targetLeft);
    SlewBounded(w.actualRight, w.targetRight);
    w.(actualLeft := al, actualRight := ar, driveLeft := Actuate(al), driveRight := Actuate(ar))
  }

  // ------------------------------------------------------------------
  // Properties relating several entry points
  // ------------------------------------------------------------------

  /** Emergency stop forgets everything but the time: twice is the same as once. */
  lemma EStopIdempotent(s: State, t1: int, t2: int)
    ensures EStop(EStop(s, t1), t2) == EStop(s, t2)
    ensures EStop(s, t1).driveLeft == Drive(0, Forward) == EStop(s, t1).driveRight
  {
  }

  /** The watchdog fires exactly when the command is 300 ms old. */
  lemma WatchdogIff(s: State, now: int)
    requires Valid(s)
    requires s.targetLeft != 0 || s.targetRight != 0
    ensures Tick(s, now).targetLeft == 0 && Tick(s, now).targetRight == 0
        <==> now - s.lastCmdUs >= 300000
  {
  }

  /** A rest state stays at rest under any tick. */
  lemma TickKeepsRest(s: State, now: int)
    requires AtRest(s)
    ensures AtRest(Tick(s, now))
  {
  }

  /** Within one tick the gap between applied and effective target shrinks by 3
      or closes; a settled wheel stays settled. */
  lemma TickClosesGap(s: State, now: int)
    ensures var s' := Tick(s, now);
      && Abs(s'.targetLeft - s'.actualLeft) == Max(0, Abs(s'.targetLeft - s.actualLeft) - 3)
      && Abs(s'.targetRight - s'.actualRight) == Max(0, Abs(s'.targetRight - s.actualRight) - 3)
  {
    var w := Watchdog(s, now);
    SlewBounded(w.actualLeft, w.targetLeft);
    SlewBounded(w.actualRight, w.targetRight);
  }

  /** Set-speeds followed by a read returns the previous applied speeds. */
  lemma ReadAfterSetIsActual(s: State, l: int, r: int, now: int)
    ensures GetSpeeds(SetSpeeds(s, l, r, now)) == GetSpeeds(s)
  {
  }

  /** The first tick after commanding full forward / full reverse from rest
      applies (3, -3). */
  lemma FirstTickRamp(t0: int, t1: int, t2: int)
    requires t2 - t1 < 300000
    ensures var s := Tick(SetSpeeds(Init(t0), 100, -100, t1), t2);
      GetSpeeds(s) == (3, -3) && s.driveLeft == Drive(30, Forward) && s.driveRight == Drive(30, Reverse)
  {
    var s1 := SetSpeeds(Init(t0), 100, -100, t1);
    SlewIsStepOfThree(0, 100);
    SlewIsStepOfThree(0, -100);
  }
}
