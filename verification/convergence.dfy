/**
 * Guarantees of the governor over many timer ticks: how fast an applied speed
 * reaches its target, and how long after the last command the wheels are stopped.
 */
module Convergence {
  import opened Common
  import opened Governor

  /** Applied speed after `n` slew steps toward a fixed target. */
  function SlewN(cur: int, tgt: int, n: nat): int
    decreases n
  {
    if n == 0 then cur else SlewN(Slew(cur, tgt, SlewDelta), tgt, n - 1)
  }

  /** After n steps the gap has shrunk by 3n (or closed), never passing the target. */
  lemma {:induction false} SlewNGap(cur: int, tgt: int, n: nat)
    ensures Abs(tgt - SlewN(cur, tgt, n)) == Max(0, Abs(tgt - cur) - 3 * n)
    ensures Between(cur, SlewN(cur, tgt, n), tgt)
    decreases n
  {
    if n > 0 {
      var next := Slew(cur, tgt, SlewDelta);
      SlewBounded(cur, tgt);
      SlewNGap(next, tgt, n - 1);
    }
  }

  /** The target is reached exactly after ceil(gap / 3) steps and not before. */
  lemma SettleTime(cur: int, tgt: int, n: nat)
    ensures SlewN(cur, tgt, n) == tgt <==> 3 * n >= Abs(tgt - cur)
    ensures SlewN(cur, tgt, n) == tgt <==> n >= (Abs(tgt - cur) + 2) / 3
  {
    SlewNGap(cur, tgt, n);
  }

  /** Full speed (either way) to standstill takes 34 ticks (340 ms), not 30:
      after 33 the wheel still turns at 1 %. */
  lemma FullStopTakes34Ticks(v: int, n: nat)
    requires v == MaxSpeed || v == -MaxSpeed
    ensures SlewN(v, 0, n) == 0 <==> n >= 34
    ensures n == 33 ==> SlewN(v, 0, n) == v / MaxSpeed
  {
    SlewNGap(v, 0, n);
  }

  /** Ticks at the given timer readings, in order, with no command in between. */
  function Ticks(s: State, times: seq<int>): State
    decreases |times|
  {
    if |times| == 0 then s else Ticks(Tick(s, times[0]), times[1..])
  }

  lemma {:induction false} TicksAppend(s: State, a: seq<int>, b: seq<int>)
    ensures Ticks(s, a + b) == Ticks(Ticks(s, a), b)
    decreases |a|
  {
    if |a| > 0 {
      var t := Tick(s, a[0]);
      assert (a + b)[0] == a[0];
      assert (a + b)[1..] == a[1..] + b;
      assert Ticks(s, a + b) == Ticks(t, a[1..] + b);
      TicksAppend(t, a[1..], b);
    } else {
      assert a + b == b;
    }
  }

  /** Ticks never touch the clock and keep the invariant. */
  lemma {:induction false} TicksKeepClock(s: State, times: seq<int>)
    ensures Ticks(s, times).lastCmdUs == s.lastCmdUs
    ensures Valid(s) ==> Valid(Ticks(s, times))
    decreases |times|
  {
    if |times| > 0 {
      TicksKeepClock(Tick(s, times[0]), times[1..]);
    }
  }

  predicate AllFresh(s: State, times: seq<int>)
  {
    forall i :: 0 <= i < |times| ==> !Stale(s, times[i])
  }

  predicate AllStale(s: State, times: seq<int>)
  {
    forall i :: 0 <= i < |times| ==> Stale(s, times[i])
  }

  /** While the command is fresh, each wheel slews toward its commanded target. */
  lemma {:induction false} FreshTicksFollowTarget(s: State, times: seq<int>)
    requires AllFresh(s, times)
    ensures var s' := Ticks(s, times);
      && s'.targetLeft == s.targetLeft && s'.targetRight == s.targetRight
      && s'.actualLeft == SlewN(s.actualLeft, s.targetLeft, |times|)
      && s'.actualRight == SlewN(s.actualRight, s.targetRight, |times|)
    decreases |times|
  {
    if |times| > 0 {
      var s1 := Tick(s, times[0]);
      assert AllFresh(s1, times[1..]) by {
        forall i | 0 <= i < |times[1..]|
          ensures !Stale(s1, times[1..][i])
        {
          assert times[1..][i] == times[i + 1];
        }
      }
      FreshTicksFollowTarget(s1, times[1..]);
    }
  }

  /** Once the command is stale, every tick slews both wheels toward zero. */
  lemma {:induction false} StaleTicksSlewToZero(s: State, times: seq<int>)
    requires AllStale(s, times)
    ensures var s' := Ticks(s, times);
      && (|times| > 0 ==> s'.targetLeft == 0 && s'.targetRight == 0)
      && s'.actualLeft == SlewN(s.actualLeft, 0, |times|)
      && s'.actualRight == SlewN(s.actualRight, 0, |times|)
    decreases |times|
  {
    if |times| > 0 {
      var s1 := Tick(s, times[0]);
      assert AllStale(s1, times[1..]) by {
        forall i | 0 <= i < |times[1..]|
          ensures Stale(s1, times[1..][i])
        {
          assert times[1..][i] == times[i + 1];
        }
      }
      StaleTicksSlewToZero(s1, times[1..]);
    }
  }

  /** A fresh command in range is reached exactly after ceil(gap / 3) ticks. */
  lemma CommandReached(s: State, l: int, r: int, now: int, times: seq<int>)
    requires InSpeedRange(l) && InSpeedRange(r)
    requires forall i :: 0 <= i < |times| ==> times[i] - now < WatchdogUs
    ensures var s' := Ticks(SetSpeeds(s, l, r, now), times);
      && (s'.actualLeft == l <==> 3 * |times| >= Abs(l - s.actualLeft))
      && (s'.actualRight == r <==> 3 * |times| >= Abs(r - s.actualRight))
  {
    var s0 := SetSpeeds(s, l, r, now);
    FreshTicksFollowTarget(s0, times);
    SettleTime(s.actualLeft, l, |times|);
    SettleTime(s.actualRight, r, |times|);
  }

  /** The timer readings of the n ticks that follow a tick at time `start`. */
  function Periodic(start: int, n: nat): (ts: seq<int>)
    ensures |ts| == n
    ensures forall k :: 0 <= k < n ==> ts[k] == start + TaskPeriodMs * 1000 * (k + 1)
  {
    seq(n, k => start + TaskPeriodMs * 1000 * (k + 1))
  }

  /** The control timer runs freely, so the last command falls somewhere in a
      timer period: `start` is the reading of the last tick at or before it. */
  predicate InPhase(s: State, start: int)
  {
    start <= s.lastCmdUs < start + TaskPeriodMs * 1000
  }

  /** How many ticks after the command still see it fresh: 29 when the command
      coincides with a tick reading (the 30th tick is then exactly 300 ms later),
      30 otherwise. */
  function FreshTicks(s: State, start: int): nat
  {
    if start == s.lastCmdUs then 29 else 30
  }

  /** The first FreshTicks ticks see the command fresh. */
  lemma FreshPrefix(s: State, start: int, n: nat)
    requires InPhase(s, start)
    requires n <= FreshTicks(s, start)
    ensures AllFresh(s, Periodic(start, n))
  {
  }

  /** Splitting the ticks after a command into the fresh ones and the stale ones:
      every tick after the first FreshTicks sees the command stale. */
  lemma WatchdogSplit(s: State, start: int, n: nat)
    requires InPhase(s, start)
    requires n >= FreshTicks(s, start)
    ensures var ts, f := Periodic(start, n), FreshTicks(s, start);
      && AllFresh(s, ts[..f])
      && Ticks(s, ts) == Ticks(Ticks(s, ts[..f]), ts[f..])
      && Ticks(s, ts[..f]).lastCmdUs == s.lastCmdUs
      && (Valid(s) ==> Valid(Ticks(s, ts[..f])))
      && AllStale(Ticks(s, ts[..f]), ts[f..])
  {
    var ts, f := Periodic(start, n), FreshTicks(s, start);
    var a, b := ts[..f], ts[f..];
    assert a + b == ts;
    FreshPrefix(s, start, f);
    assert a == Periodic(start, f);
    TicksAppend(s, a, b);
    TicksKeepClock(s, a);
    var m := Ticks(s, a);
    assert AllStale(m, b);
  }

  /** 34 stale ticks bring any valid state to rest. */
  lemma StaleTicksStop(m: State, b: seq<int>)
    requires Valid(m) && AllStale(m, b)
    requires |b| >= 34
    ensures AtRest(Ticks(m, b))
  {
    var r := Ticks(m, b);
    StaleTicksSlewToZero(m, b);
    SlewNGap(m.actualLeft, 0, |b|);
    SlewNGap(m.actualRight, 0, |b|);
    TicksKeepClock(m, b);
  }

  /** Stopping latency after the last command, for every timer phase: the watchdog
      fires at the 30th tick (31st when the command fell between tick readings) and
      the slew then needs at most 34 ticks. So both wheels are at rest, whatever
      speeds they had, from the 64th tick on (under 640 ms), and from the 63rd
      (630 ms) when the command coincided with a tick reading. */
  lemma StopWithin64Ticks(s: State, start: int, n: nat)
    requires Valid(s) && InPhase(s, start)
    requires n >= 64 || (n >= 63 && start == s.lastCmdUs)
    ensures AtRest(Ticks(s, Periodic(start, n)))
  {
    var ts, f := Periodic(start, n), FreshTicks(s, start);
    WatchdogSplit(s, start, n);
    StaleTicksStop(Ticks(s, ts[..f]), ts[f..]);
  }

  /** The bound is exact for every phase: a vehicle cruising at full speed (either
      way) whose last command came at `t0` stops at precisely the 63rd tick when the
      command coincided with a tick reading, and at the 64th otherwise. */
  lemma CruiseStopsExactly(t0: int, v: int, start: int, n: nat)
    requires v == MaxSpeed || v == -MaxSpeed
    requires start <= t0 < start + TaskPeriodMs * 1000
    ensures var s := State(v, v, v, v, t0, Actuate(v), Actuate(v));
      && Valid(s)
      && (Ticks(s, Periodic(start, n)).actualLeft == 0 <==> n >= (if start == t0 then 63 else 64))
  {
    var s := State(v, v, v, v, t0, Actuate(v), Actuate(v));
    var ts, f := Periodic(start, n), FreshTicks(s, start);
    if n < f {
      FreshPrefix(s, start, n);
      FreshTicksFollowTarget(s, ts);
      SlewNGap(v, v, n);
    } else {
      WatchdogSplit(s, start, n);
      var a, b := ts[..f], ts[f..];
      FreshTicksFollowTarget(s, a);
      SlewNGap(v, v, f);
      var m := Ticks(s, a);
      StaleTicksSlewToZero(m, b);
      FullStopTakes34Ticks(v, |b|);
    }
  }
}
