/** Properties of uninterrupted runs of ticks: what the device reports
    while a motion is under way with no command in between, how long the
    settling delay holds the estimate, and when a run ends. */
module EstimatorRuns {
  import opened MotorTypes
  import opened Conversions
  import opened Actuator
  import opened Estimator

  /** The state after `n` ticks with no command in between. */
  function Run(s: Settings, m: Motor, n: nat): (r: Motor)
    requires ValidSettings(s) && ValidMotor(m)
    ensures ValidMotor(r)
    ensures r.pending == m.pending && r.stopRelays == m.stopRelays
    ensures Engaged(m) ==> Engaged(r)
    ensures !m.timer ==> r == m
    decreases n
  {
    if n == 0 then m else Run(s, Tick(s, m).next, n - 1)
  }

  /** The snapshots reported during those `n` ticks, in order. */
  function RunReports(s: Settings, m: Motor, n: nat): (rep: seq<Snapshot>)
    requires ValidSettings(s) && ValidMotor(m)
    ensures |rep| <= n
    ensures !m.timer ==> rep == []
    ensures m.timer ==> |rep| == n || !Run(s, m, n).timer
    decreases n
  {
    if n == 0 then [] else Tick(s, m).snapshots + RunReports(s, Tick(s, m).next, n - 1)
  }

  /** The reports of a run are one snapshot per tick taken while the
      timer ran, each of the state that tick left; they stop only at the
      end of the `n` ticks or at the first tick that finds no timer. */
  lemma {:induction false} RunReportsAreSnapshots(s: Settings, m: Motor, n: nat)
    requires ValidSettings(s) && ValidMotor(m)
    ensures var rep := RunReports(s, m, n);
      (forall k :: 0 <= k < |rep| ==> Run(s, m, k).timer && rep[k] == SnapshotOf(Run(s, m, k + 1))) &&
      (|rep| < n ==> !Run(s, m, |rep|).timer)
    decreases n
  {
    if n > 0 && m.timer {
      var next := Tick(s, m).next;
      var rest := RunReports(s, next, n - 1);
      var rep := RunReports(s, m, n);
      assert rep == [SnapshotOf(next)] + rest;
      RunReportsAreSnapshots(s, next, n - 1);
      forall k | 0 <= k < |rep|
        ensures Run(s, m, k).timer && rep[k] == SnapshotOf(Run(s, m, k + 1))
      {
        if k > 0 {
          assert rep[k] == rest[k - 1];
          assert Run(s, m, k) == Run(s, next, k - 1);
        }
      }
      if |rep| < n {
        assert Run(s, m, |rep|) == Run(s, next, |rest|);
      }
    }
  }

  /** Ticking `a` times and then `b` times is ticking `a + b` times. */
  lemma {:induction false} RunSplit(s: Settings, m: Motor, a: nat, b: nat)
    requires ValidSettings(s) && ValidMotor(m)
    ensures Run(s, m, a + b) == Run(s, Run(s, m, a), b)
    decreases a
  {
    if a > 0 {
      RunSplit(s, Tick(s, m).next, a - 1, b);
    }
  }

  /** A closing run, or a state whose timer has already stopped. */
  predicate ClosingRun(m: Motor)
  {
    m.status == Closing || !m.timer
  }

  predicate OpeningRun(m: Motor)
  {
    m.status == Opening || !m.timer
  }

  /** Reported positions that never rise, each at most `bound`. */
  predicate FallingFrom(rep: seq<Snapshot>, bound: int)
  {
    (forall i :: 0 <= i < |rep| ==> rep[i].currentPercent <= bound) &&
    (forall i, j :: 0 <= i < j < |rep| ==> rep[j].currentPercent <= rep[i].currentPercent)
  }

  /** Reported positions that never fall, each at least `bound`. */
  predicate RisingFrom(rep: seq<Snapshot>, bound: int)
  {
    (forall i :: 0 <= i < |rep| ==> rep[i].currentPercent >= bound) &&
    (forall i, j :: 0 <= i < j < |rep| ==> rep[j].currentPercent >= rep[i].currentPercent)
  }

  /** Prefixing a report at or below `bound` to reports falling from it. */
  lemma FallingCons(x: Snapshot, rest: seq<Snapshot>, bound: int)
    requires x.currentPercent <= bound && FallingFrom(rest, x.currentPercent)
    ensures FallingFrom([x] + rest, bound)
  {
    var rep := [x] + rest;
    forall i, j | 0 <= i < j < |rep| ensures rep[j].currentPercent <= rep[i].currentPercent {
      assert rep[j] == rest[j - 1];
      if i > 0 {
        assert rep[i] == rest[i - 1];
      }
    }
  }

  lemma RisingCons(x: Snapshot, rest: seq<Snapshot>, bound: int)
    requires x.currentPercent >= bound && RisingFrom(rest, x.currentPercent)
    ensures RisingFrom([x] + rest, bound)
  {
    var rep := [x] + rest;
    forall i, j | 0 <= i < j < |rep| ensures rep[j].currentPercent >= rep[i].currentPercent {
      assert rep[j] == rest[j - 1];
      if i > 0 {
        assert rep[i] == rest[i - 1];
      }
    }
  }

  /** During a closing run the reported position never rises: every report
      is at most the starting position and at most every earlier report. */
  lemma {:induction false} ClosingReportsNeverRise(s: Settings, m: Motor, n: nat)
    requires ValidSettings(s) && ValidMotor(m) && ClosingRun(m)
    ensures Run(s, m, n).current <= m.current
    ensures FallingFrom(RunReports(s, m, n), m.current)
    decreases n
  {
    if n > 0 && m.timer {
      var t := Tick(s, m);
      assert t.next.current <= m.current && t.snapshots == [SnapshotOf(t.next)];
      ClosingReportsNeverRise(s, t.next, n - 1);
      FallingCons(SnapshotOf(t.next), RunReports(s, t.next, n - 1), m.current);
    }
  }

  /** During an opening run the reported position never falls. */
  lemma {:induction false} OpeningReportsNeverFall(s: Settings, m: Motor, n: nat)
    requires ValidSettings(s) && ValidMotor(m) && OpeningRun(m)
    ensures Run(s, m, n).current >= m.current
    ensures RisingFrom(RunReports(s, m, n), m.current)
    decreases n
  {
    if n > 0 && m.timer {
      var t := Tick(s, m);
      assert t.next.current >= m.current && t.snapshots == [SnapshotOf(t.next)];
      OpeningReportsNeverFall(s, t.next, n - 1);
      RisingCons(SnapshotOf(t.next), RunReports(s, t.next, n - 1), m.current);
    }
  }

  /** While settling time is left, `k` ticks consume `k` samples of it and
      change nothing else. */
  lemma {:induction false} SettlingRun(s: Settings, m: Motor, k: nat)
    requires ValidSettings(s) && ValidMotor(m) && m.timer
    requires k * s.sampleMs <= m.settleMs
    ensures Run(s, m, k) == m.(settleMs := m.settleMs - k * s.sampleMs)
    decreases k
  {
    if k > 0 {
      assert k * s.sampleMs == s.sampleMs + (k - 1) * s.sampleMs;
      var next := Tick(s, m).next;
      assert next == m.(settleMs := m.settleMs - s.sampleMs);
      SettlingRun(s, next, k - 1);
    }
  }

  /** After settling, an opening run advances one sample per tick for as
      long as it stays short of both 100 and its target. */
  lemma {:induction false} OpeningProgress(s: Settings, m: Motor, k: nat)
    requires ValidSettings(s) && ValidMotor(m)
    requires m.timer && m.status == Opening && m.settleMs == 0
    requires m.current + k * SamplePercent(s) < 100 && m.current + k * SamplePercent(s) < m.pending
    ensures var n := Run(s, m, k);
      n.current == m.current + k * SamplePercent(s) && n.status == Opening && n.timer && n.settleMs == 0
    decreases k
  {
    if k > 0 {
      var sp := SamplePercent(s);
      MulStep(k, sp);
      var next := Tick(s, m).next;
      assert next.current == m.current + sp && next.status == Opening && next.timer && next.settleMs == 0 by {
        assert m.current + sp < 100 && m.current + sp < m.pending;
        OpeningTickOutcome(s, m);
      }
      OpeningProgress(s, next, k - 1);
      assert Run(s, m, k) == Run(s, next, k - 1);
    }
  }

  /** The mirror image of `OpeningProgress` for closing. */
  lemma {:induction false} ClosingProgress(s: Settings, m: Motor, k: nat)
    requires ValidSettings(s) && ValidMotor(m)
    requires m.timer && m.status == Closing && m.settleMs == 0
    requires m.current - k * SamplePercent(s) > 0 && m.current - k * SamplePercent(s) > m.pending
    ensures var n := Run(s, m, k);
      n.current == m.current - k * SamplePercent(s) && n.status == Closing && n.timer && n.settleMs == 0
    decreases k
  {
    if k > 0 {
      var sp := SamplePercent(s);
      MulStep(k, sp);
      var next := Tick(s, m).next;
      assert next.current == m.current - sp && next.status == Closing && next.timer && next.settleMs == 0 by {
        assert m.current - sp > 0 && m.current - sp > m.pending;
        ClosingTickOutcome(s, m);
      }
      ClosingProgress(s, next, k - 1);
      assert Run(s, m, k) == Run(s, next, k - 1);
    }
  }

  /** Peeling one factor off a product. */
  lemma MulStep(k: nat, x: int)
    requires k > 0 && x >= 0
    ensures k * x == x + (k - 1) * x && (k - 1) * x >= 0
  {
  }

  /** When a tick covers at least one percent, a closing run releases its
      timer within one tick more than its settling time plus its distance
      from 0. */
  lemma {:induction false} ClosingRunEnds(s: Settings, m: Motor, n: nat)
    requires ValidSettings(s) && ValidMotor(m) && ClosingRun(m)
    requires SamplePercent(s) >= 1
    requires n > m.settleMs + m.current
    ensures !Run(s, m, n).timer
    decreases n
  {
    if m.timer {
      var next := Tick(s, m).next;
      if m.settleMs == 0 {
        ClosingTickOutcome(s, m);
      }
      if next.timer {
        assert next.settleMs + next.current < m.settleMs + m.current;
        ClosingRunEnds(s, next, n - 1);
      }
    }
  }

  /** When a tick covers at least one percent, an opening run releases its
      timer within one tick more than its settling time plus its distance
      from 100. */
  lemma {:induction false} OpeningRunEnds(s: Settings, m: Motor, n: nat)
    requires ValidSettings(s) && ValidMotor(m) && OpeningRun(m)
    requires SamplePercent(s) >= 1
    requires n > m.settleMs + (100 - m.current)
    ensures !Run(s, m, n).timer
    decreases n
  {
    if m.timer {
      var next := Tick(s, m).next;
      if m.settleMs == 0 {
        OpeningTickOutcome(s, m);
      }
      if next.timer {
        assert next.settleMs + (100 - next.current) < m.settleMs + (100 - m.current);
        OpeningRunEnds(s, next, n - 1);
      }
    }
  }

  /** When the tick period is under one percent of the travel time the
      sample percent truncates to 0, and an opening run short of its target
      never moves and never ends. */
  lemma {:induction false} StalledWhenSampleRoundsToZero(s: Settings, m: Motor, n: nat)
    requires ValidSettings(s) && ValidMotor(m) && SamplePercent(s) == 0
    requires m.timer && m.status == Opening && m.settleMs == 0
    requires m.current < 100 && m.current < m.pending
    ensures Run(s, m, n).timer && Run(s, m, n).current == m.current && Run(s, m, n).status == Opening
    decreases n
  {
    if n > 0 {
      OpeningTickOutcome(s, m);
      StalledWhenSampleRoundsToZero(s, Tick(s, m).next, n - 1);
    }
  }

  /** With a tick under one percent of the travel, nothing left at rest
      fails: open from closed, wait out the settling delay, let one stalled
      tick set the time left, then close twice. The motor reports closed
      with the whole travel time still left. */
  lemma StalledRunClosesWithTimeLeft(s: Settings, m: Motor)
    requires ValidSettings(s) && SamplePercent(s) == 0 && s.directionChangeMs % s.sampleMs == 0
    requires ValidMotor(m) && m.current == 0 && m.status == Closed && !m.timer && NothingLeftAtRest(m)
    ensures var started := SetPositionStep(s, m, 100).next;
      var stalled := Run(s, started, s.directionChangeMs / s.sampleMs + 1);
      var closed := SetPositionStep(s, SetPositionStep(s, stalled, 0).next, 0).next;
      stalled.current == 0 && stalled.status == Opening && stalled.remainingMs == s.travelMs &&
      closed.status == Closed && !closed.timer && closed.current == 0 && closed.remainingMs == s.travelMs &&
      !NothingLeftAtRest(closed)
  {
    var started := SetPositionStep(s, m, 100).next;
    var k := s.directionChangeMs / s.sampleMs;
    assert k * s.sampleMs == s.directionChangeMs;
    SettlingRun(s, started, k);
    var settled := Run(s, started, k);
    assert settled == started.(settleMs := 0);
    RunSplit(s, started, k, 1);
    OpeningTickOutcome(s, settled);
    var stalled := Tick(s, settled).next;
    assert Run(s, started, k + 1) == Run(s, stalled, 0);
    assert PercentToMs(s.travelMs, 100) == s.travelMs;
    assert stalled.remainingMs == s.travelMs;
  }

  /** A ten-second travel ticked every 100 ms with the default 500 ms
      settling delay: one percent per tick. */
  predicate Nominal(s: Settings)
  {
    s.travelMs == 10000 && s.sampleMs == 100 && s.directionChangeMs == 500
  }

  /** Opening fully from closed: one report and one open pulse at the
      start, five settling ticks, then one percent per tick until the
      hundredth moving tick reports open, with nothing left to go and the
      timer released. */
  lemma FullOpenScenario(s: Settings, stopRelays: Option<seq<Relay>>)
    requires Nominal(s) && s.stopMethod != OppositeDirection
    ensures ValidSettings(s) && SamplePercent(s) == 1
    ensures var start := SetPositionStep(s, Motor(0, 0, 0, Closed, 0, false, stopRelays), 100);
      start.next == Motor(0, 100, 0, Opening, 500, true, stopRelays) &&
      start.pulses == Pulse(OpenRelay, s.pulseMs) &&
      start.snapshots == [Snapshot(Opening, 0, 100, 0)] &&
      Run(s, start.next, 104).current == 99 &&
      Run(s, start.next, 105) == Motor(100, 100, 0, Open, 0, false, stopRelays)
  {
    assert SamplePercent(s) == 1;
    var m1 := Motor(0, 100, 0, Opening, 500, true, stopRelays);
    var settled := m1.(settleMs := 0);
    SettlingRun(s, m1, 5);
    OpeningProgress(s, settled, 99);
    RunSplit(s, m1, 5, 99);
    var almost := Run(s, m1, 104);
    assert almost == Motor(99, 100, almost.remainingMs, Opening, 0, true, stopRelays);
    RunSplit(s, m1, 104, 1);
    OpeningTickOutcome(s, almost);
  }

  /** Reversing while opening: the close starts with twice the settling
      delay, so the next ten ticks leave the position where it was and the
      eleventh is the first to move it. */
  lemma ReversalScenario(s: Settings, remainingMs: nat, stopRelays: Option<seq<Relay>>)
    requires Nominal(s)
    ensures ValidSettings(s)
    ensures var n := SetPositionStep(s, Motor(30, 80, remainingMs, Opening, 0, true, stopRelays), 20).next;
      n.status == Closing && n.settleMs == 1000 && n.timer &&
      (forall k :: 0 <= k <= 10 ==> Run(s, n, k).current == 30 && Run(s, n, k).status == Closing) &&
      Run(s, n, 11).current == 29 && Run(s, n, 11).remainingMs == 900
  {
    assert SamplePercent(s) == 1;
    var n := SetPositionStep(s, Motor(30, 80, remainingMs, Opening, 0, true, stopRelays), 20).next;
    forall k | 0 <= k <= 10
      ensures Run(s, n, k).current == 30 && Run(s, n, k).status == Closing
    {
      SettlingRun(s, n, k);
    }
    SettlingRun(s, n, 10);
    RunSplit(s, n, 10, 1);
    ClosingTickOutcome(s, Run(s, n, 10));
  }

  /** Which relays a mid-travel stop energises, and for how long: none for
      the stop method; the relay opposite the motion for
      `OppositeDirection` (or, when nothing was moving, whatever the
      previous stop left in the list); both relays for `OpenAndClose`,
      whichever way the motor was going. Each for exactly one pulse
      width. */
  lemma {:induction false} StopEnergises(s: Settings, m: Motor, relay: Relay, t: int)
    requires ValidSettings(s) && ValidMotor(m) && StopRelaysFit(s, m) && s.pulseMs > 0
    requires 0 < m.current < 100
    ensures var r := SetPositionStep(s, m, m.current);
      var on := Energised(r.pulses, relay, t);
      !r.next.timer && r.next.remainingMs == 0 && |r.snapshots| == 1 &&
      (s.stopMethod == StopRelay ==> r.pulses == [] && !on) &&
      (s.stopMethod == OppositeDirection && Moving(m.status) ==>
         (on <==> relay == (if m.status == Opening then CloseRelay else OpenRelay) && 0 <= t < s.pulseMs)) &&
      (s.stopMethod == OppositeDirection && !Moving(m.status) ==>
         (on <==> m.stopRelays.Some? && relay in m.stopRelays.value && 0 <= t < s.pulseMs)) &&
      (s.stopMethod == OpenAndClose ==> (on <==> 0 <= t < s.pulseMs))
  {
    var relays := StopRelaysFor(s, m);
    if relays.Some? {
      PulseAllLevels(relays.value, s.pulseMs, relay, t, false);
    }
  }

  /** A stop request at an end of travel is not a stop: at 0 it is a close
      to 0, which, unless the motor is already closing, pulses the close
      relay and starts a closing run. */
  lemma StopAtClosedEndDrives(s: Settings, m: Motor)
    requires ValidSettings(s) && ValidMotor(m)
    requires m.current == 0 && m.status != Closing
    ensures CommandTarget(Stop, m.current, m.pending) == Some(0)
    ensures var r := SetPositionStep(s, m, 0);
      r.next.status == Closing && r.next.timer && r.pulses == DrivePulse(s, CloseRelay)
  {
  }
}
