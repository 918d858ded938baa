/** The position-estimation state machine of one relay-controlled motor,
    as functions on a value of its state. The `Device` class runs the same
    steps in place; these functions are what its methods are proved
    against, and what the lemmas about longer runs are stated over. */
module Estimator {
  import opened MotorTypes
  import opened Conversions
  import opened Actuator

  /** The device's fixed parameters: full travel time, tick period, relay
      pulse width, base settling delay after a direction change and the
      configured stop method. */
  datatype Settings = Settings(travelMs: int, sampleMs: int, pulseMs: int, directionChangeMs: int, stopMethod: StopMethod)

  predicate ValidSettings(s: Settings)
  {
    s.travelMs > 0 && s.sampleMs > 0 && s.directionChangeMs >= 0
  }

  /** The fields the device updates: `PercentOpenCurrent`,
      `PercentOpenPending`, `RemainingMilliseconds`, `StatusCurrent`,
      `directionChangeMillisecondsRemaining`, whether `positionTimer`
      exists, and the `StopRelays` list (None while it is null). */
  datatype Motor = Motor(
    current: int,
    pending: int,
    remainingMs: int,
    status: PositionStates,
    settleMs: int,
    timer: bool,
    stopRelays: Option<seq<Relay>>)

  /** The estimate stays within the travel; the target is whatever
      `ushort` was last requested, which is not clamped to 100. */
  predicate ValidMotor(m: Motor)
  {
    0 <= m.current <= 100 && 0 <= m.pending < 0x1_0000 && m.remainingMs >= 0 && m.settleMs >= 0
  }

  predicate Moving(status: PositionStates)
  {
    status == Opening || status == Closing
  }

  /** The tick timer only ever runs while the motor is opening or closing. */
  predicate Engaged(m: Motor)
  {
    m.timer ==> Moving(m.status)
  }

  /** The stop list only ever holds what the configured stop method puts
      in it. */
  predicate StopRelaysFit(s: Settings, m: Motor)
  {
    match s.stopMethod
    case StopRelay => m.stopRelays == None
    case OppositeDirection => m.stopRelays in {None, Some([OpenRelay]), Some([CloseRelay])}
    case OpenAndClose => m.stopRelays in {None, Some([OpenRelay, CloseRelay])}
  }

  /** `PositionMilliseconds` is declared but never assigned, so it keeps
      its default value. */
  const PositionMilliseconds: int := 0

  function SnapshotOf(m: Motor): Snapshot
  {
    Snapshot(m.status, m.current, m.pending, m.remainingMs)
  }

  /** The outcome of one operation: the new state, the relay events it
      issued and the snapshots it reported, in order. */
  datatype Step = Step(next: Motor, pulses: seq<PulseEvent>, snapshots: seq<Snapshot>)

  /** The percent of travel covered in one tick. */
  function SamplePercent(s: Settings): (p: int)
    requires ValidSettings(s)
    ensures p >= 0
    ensures p * s.travelMs <= 100 * s.sampleMs < (p + 1) * s.travelMs
  {
    MsToPercent(s.travelMs, s.sampleMs)
  }

  /** `PositionTimerExpired`: one tick of the position timer. */
  function Tick(s: Settings, m: Motor): (r: Step)
    requires ValidSettings(s) && ValidMotor(m)
    ensures ValidMotor(r.next) && r.pulses == []
    ensures r.next.pending == m.pending && r.next.stopRelays == m.stopRelays
    // without a timer nothing happens; with one, exactly one report
    ensures !m.timer ==> r.next == m && r.snapshots == []
    ensures m.timer ==> r.snapshots == [SnapshotOf(r.next)]
    // a settling tick only consumes settling time
    ensures m.timer && m.settleMs > 0 ==>
              r.next == m.(settleMs := if m.settleMs < s.sampleMs then 0 else m.settleMs - s.sampleMs)
    // position only moves in the direction of travel
    ensures m.status == Closing ==> r.next.current <= m.current
    ensures m.status == Opening ==> r.next.current >= m.current
    // the direction never changes while the timer keeps running
    ensures r.next.timer ==> r.next.status == m.status
    // releasing the timer from a run ends in a terminal status with nothing left to go
    ensures m.timer && Moving(m.status) && !r.next.timer ==>
              r.next.remainingMs == 0 && r.next.status in {Closed, Open, Stop}
    // any other status while the timer runs only releases the timer
    ensures m.timer && m.settleMs == 0 && !Moving(m.status) ==> r.next == m.(timer := false)
    ensures Engaged(m) ==> Engaged(r.next)
  {
    if !m.timer then Step(m, [], [])
    else
      var n :=
        if m.settleMs > 0 then
          m.(settleMs := if m.settleMs < s.sampleMs then 0 else m.settleMs - s.sampleMs)
        else if m.status == Closing then ClosingSample(s, m)
        else if m.status == Opening then OpeningSample(s, m)
        else
          m.(timer := false);
      Step(n, [], [SnapshotOf(n)])
  }

  /** The closing branch of a tick: one sample down, floored at 0. */
  function ClosingSample(s: Settings, m: Motor): Motor
    requires ValidSettings(s)
  {
    var sp := SamplePercent(s);
    var c := if m.current >= sp then m.current - sp else 0;
    if c == 0 then m.(current := c, remainingMs := 0, status := Closed, timer := false)
    else if c <= m.pending then m.(current := c, remainingMs := 0, status := Stop, timer := false)
    else m.(current := c, remainingMs := PercentToMs(s.travelMs, c - m.pending))
  }

  /** The opening branch of a tick: one sample up, capped at 100. */
  function OpeningSample(s: Settings, m: Motor): Motor
    requires ValidSettings(s)
  {
    var sp := SamplePercent(s);
    var c := if m.current <= 100 - sp then m.current + sp else 100;
    if c == 100 then m.(current := c, remainingMs := 0, status := Open, timer := false)
    else if c >= m.pending then m.(current := c, remainingMs := 0, status := Stop, timer := false)
    else m.(current := c, remainingMs := PercentToMs(s.travelMs, m.pending - c))
  }

  /** A closing tick after settling: the position drops by one sample,
      floored at 0; reaching 0 closes, reaching the target stops, and
      otherwise the time left is the remaining distance converted back to
      milliseconds. */
  lemma ClosingTickOutcome(s: Settings, m: Motor)
    requires ValidSettings(s) && ValidMotor(m)
    requires m.timer && m.settleMs == 0 && m.status == Closing
    ensures var n := Tick(s, m).next;
      var c := if m.current >= SamplePercent(s) then m.current - SamplePercent(s) else 0;
      n.current == c && n.settleMs == 0 &&
      (c == 0 ==> n.status == Closed && n.remainingMs == 0 && !n.timer) &&
      (0 < c <= m.pending ==> n.status == Stop && n.remainingMs == 0 && !n.timer) &&
      (c > m.pending ==> n.status == Closing && n.timer && n.remainingMs == PercentToMs(s.travelMs, c - m.pending))
  {
  }

  /** The mirror image of `ClosingTickOutcome` for opening, capped at 100. */
  lemma OpeningTickOutcome(s: Settings, m: Motor)
    requires ValidSettings(s) && ValidMotor(m)
    requires m.timer && m.settleMs == 0 && m.status == Opening
    ensures var n := Tick(s, m).next;
      var c := if m.current <= 100 - SamplePercent(s) then m.current + SamplePercent(s) else 100;
      n.current == c && n.settleMs == 0 &&
      (c == 100 ==> n.status == Open && n.remainingMs == 0 && !n.timer) &&
      (m.pending <= c < 100 ==> n.status == Stop && n.remainingMs == 0 && !n.timer) &&
      (c < 100 && c < m.pending ==> n.status == Opening && n.timer && n.remainingMs == PercentToMs(s.travelMs, m.pending - c))
  {
  }

  /** `SetPosition(ushort)` heads for 0 when the target is 0 or below the
      current position ... */
  predicate WantsClose(pending: int, current: int)
  {
    pending == 0 || pending < current
  }

  /** ... and for 100 when the target is 100 or above it. */
  predicate WantsOpen(pending: int, current: int)
  {
    pending == 100 || pending > current
  }

  /** The drive pulse that starts a motion: a double pulse when the stop
      method is `OppositeDirection`, a single pulse otherwise. */
  function DrivePulse(s: Settings, relay: Relay): seq<PulseEvent>
  {
    if s.stopMethod == OppositeDirection then DoublePulse(relay, s.pulseMs) else Pulse(relay, s.pulseMs)
  }

  /** The stop list after a stop request, by stop method. */
  function StopRelaysFor(s: Settings, m: Motor): Option<seq<Relay>>
  {
    match s.stopMethod
    case StopRelay => m.stopRelays
    case OppositeDirection =>
      if m.status == Opening then Some([CloseRelay])
      else if m.status == Closing then Some([OpenRelay])
      else m.stopRelays
    case OpenAndClose => Some([OpenRelay, CloseRelay])
  }

  /** The pulses issued for a stop list; a null list issues none. */
  function StopPulses(s: Settings, relays: Option<seq<Relay>>): seq<PulseEvent>
  {
    match relays
    case None => []
    case Some(rs) => PulseAll(rs, s.pulseMs)
  }

  /** The status a stop request settles on, judged from
      `PositionMilliseconds`. */
  function StopStatus(s: Settings): (st: PositionStates)
    requires ValidSettings(s)
    ensures st == Closed
  {
    if PositionMilliseconds <= s.sampleMs then Closed
    else if PositionMilliseconds >= s.travelMs - s.sampleMs then Open
    else Stop
  }

  /** `SetPosition(ushort)`: record the target, then start, continue or
      stop a motion. */
  function SetPositionStep(s: Settings, m: Motor, percent: UShort): (r: Step)
    requires ValidSettings(s) && ValidMotor(m)
    ensures ValidMotor(r.next)
    // a command records its target and never moves the estimate
    ensures r.next.pending == percent && r.next.current == m.current
    // at most one report per command
    ensures |r.snapshots| <= 1
    // a timer still running afterwards drives toward the new target
    ensures r.next.timer ==> r.next.status == (if WantsClose(percent, m.current) then Closing else Opening)
    // a command that is neither a close nor an open ends every motion
    ensures !WantsClose(percent, m.current) && !WantsOpen(percent, m.current) ==>
              0 < m.current < 100 && !r.next.timer && r.next.remainingMs == 0
    ensures Engaged(m) ==> Engaged(r.next)
    ensures StopRelaysFit(s, m) ==> StopRelaysFit(s, r.next)
  {
    var m := m.(pending := percent);
    if WantsClose(percent, m.current) then
      if m.status != Closing then
        var n := m.(settleMs := if m.status == Opening then 2 * s.directionChangeMs else s.directionChangeMs,
                    status := Closing, timer := true);
        Step(n, DrivePulse(s, CloseRelay), [SnapshotOf(n)])
      else if m.pending == 0 && m.current == 0 && m.status != Closed then
        var n := m.(status := Closed, timer := false);
        Step(n, [], [SnapshotOf(n)])
      else
        Step(m, [], [])
    else if WantsOpen(percent, m.current) then
      if m.status != Opening then
        var n := m.(settleMs := if m.status == Closing then 2 * s.directionChangeMs else s.directionChangeMs,
                    status := Opening, timer := true);
        Step(n, DrivePulse(s, OpenRelay), [SnapshotOf(n)])
      else if m.pending == 100 && m.current == 100 && m.status != Open then
        var n := m.(status := Open, timer := false);
        Step(n, [], [SnapshotOf(n)])
      else
        Step(m, [], [])
    else
      var relays := StopRelaysFor(s, m);
      var n := m.(current := m.pending, remainingMs := 0, stopRelays := relays, status := StopStatus(s), timer := false);
      Step(n, StopPulses(s, relays), [SnapshotOf(n)])
  }

  /** Starting to close from any other status: the settling delay is
      doubled after opening, the status becomes closing, exactly the close
      relay is driven and the timer runs. */
  lemma StartClosing(s: Settings, m: Motor, percent: UShort)
    requires ValidSettings(s) && ValidMotor(m)
    requires WantsClose(percent, m.current) && m.status != Closing
    ensures var r := SetPositionStep(s, m, percent);
      r.next == m.(pending := percent, status := Closing, timer := true,
                   settleMs := if m.status == Opening then 2 * s.directionChangeMs else s.directionChangeMs) &&
      r.pulses == DrivePulse(s, CloseRelay) && r.snapshots == [SnapshotOf(r.next)]
  {
  }

  /** The mirror image of `StartClosing`. */
  lemma StartOpening(s: Settings, m: Motor, percent: UShort)
    requires ValidSettings(s) && ValidMotor(m)
    requires WantsOpen(percent, m.current) && !WantsClose(percent, m.current) && m.status != Opening
    ensures var r := SetPositionStep(s, m, percent);
      r.next == m.(pending := percent, status := Opening, timer := true,
                   settleMs := if m.status == Closing then 2 * s.directionChangeMs else s.directionChangeMs) &&
      r.pulses == DrivePulse(s, OpenRelay) && r.snapshots == [SnapshotOf(r.next)]
  {
  }

  /** A starting motion energises exactly the relay of its direction: for
      one pulse width, and again in the third width when double pulsing. */
  lemma {:induction false} StartEnergisesDriveRelay(s: Settings, m: Motor, percent: UShort, relay: Relay, t: int)
    requires ValidSettings(s) && ValidMotor(m) && s.pulseMs > 0
    requires m.status != (if WantsClose(percent, m.current) then Closing else Opening)
    requires WantsClose(percent, m.current) || WantsOpen(percent, m.current)
    ensures var w := s.pulseMs;
      var drive := if WantsClose(percent, m.current) then CloseRelay else OpenRelay;
      Energised(SetPositionStep(s, m, percent).pulses, relay, t) <==>
        relay == drive && 0 <= t && (t < w || (s.stopMethod == OppositeDirection && 2 * w <= t < 3 * w))
  {
    var drive := if WantsClose(percent, m.current) then CloseRelay else OpenRelay;
    if s.stopMethod == OppositeDirection {
      DoublePulseLevels(drive, s.pulseMs, relay, t, false);
    } else {
      PulseLevels(drive, s.pulseMs, relay, t, false);
    }
  }

  /** A repeated command in the direction already running only moves the
      target: no pulse, no report, the timer untouched; except that a
      close to 0 already at 0 (or an open to 100 already at 100) collapses
      to the end status, reports once and releases the timer. */
  lemma SameDirection(s: Settings, m: Motor, percent: UShort)
    requires ValidSettings(s) && ValidMotor(m)
    requires (WantsClose(percent, m.current) && m.status == Closing) ||
             (!WantsClose(percent, m.current) && WantsOpen(percent, m.current) && m.status == Opening)
    ensures var r := SetPositionStep(s, m, percent);
      var end := if m.status == Closing then 0 else 100;
      r.pulses == [] &&
      (if percent == end && m.current == end then
         r.next == m.(pending := percent, status := if end == 0 then Closed else Open, timer := false) &&
         r.snapshots == [SnapshotOf(r.next)]
       else
         r.next == m.(pending := percent) && r.snapshots == [])
  {
  }

  /** The stop path is taken exactly when the target equals an interior
      position. It releases the timer, zeroes the time left, reports once
      and pulses the relays the stop method selects; because
      `PositionMilliseconds` is never set, the status is always closed. */
  lemma StopPath(s: Settings, m: Motor, percent: UShort)
    requires ValidSettings(s) && ValidMotor(m)
    ensures !WantsClose(percent, m.current) && !WantsOpen(percent, m.current) <==> percent == m.current && 0 < m.current < 100
    ensures !WantsClose(percent, m.current) && !WantsOpen(percent, m.current) ==>
      var r := SetPositionStep(s, m, percent);
      r.next == m.(pending := percent, remainingMs := 0, status := Closed, timer := false, stopRelays := StopRelaysFor(s, m)) &&
      r.pulses == StopPulses(s, StopRelaysFor(s, m)) && r.snapshots == [SnapshotOf(r.next)]
  {
  }

  /** `SetPosition(PositionStates)`: the percentage a symbolic command
      stands for when toggling, which always heads away from where the
      motor last was or was going. */
  function ToggleTarget(current: int, pending: int): (t: int)
    ensures t == 0 || t == 100
    ensures current == 0 ==> t == 100
    ensures current == 100 ==> t == 0
    ensures 0 < current < 100 && pending != current ==> (pending < current <==> t > current)
    ensures 0 < current < 100 && pending == current ==> t == 100
  {
    if current == 0 then 100
    else if current == 100 then 0
    else if pending == 0 then 100
    else if pending == 100 then 0
    else if pending < current then 100
    else if pending > current then 0
    else 100
  }

  /** The `SetPosition(ushort)` call a symbolic command makes, if any:
      closed, open and stop go to 0, 100 and the current position, toggle
      as above, and every other state does nothing. */
  function CommandTarget(state: PositionStates, current: int, pending: int): (t: Option<UShort>)
    requires 0 <= current <= 100
    ensures t.Some? <==> state in {Closed, Open, Stop, Toggle}
    ensures state == Stop ==> t == Some(current)
    ensures state == Toggle ==> t == Some(ToggleTarget(current, pending))
    ensures state == Open || state == Closed ==> t == Some(if state == Open then 100 else 0)
  {
    match state
    case Closed => Some(0)
    case Open => Some(100)
    case Stop => Some(current)
    case Toggle => Some(ToggleTarget(current, pending))
    case _ => None
  }

  /** Toggling an interior motion reverses it: the new target lies on the
      other side, the motor heads that way and pays the doubled settling
      delay. */
  lemma ToggleReverses(s: Settings, m: Motor)
    requires ValidSettings(s) && ValidMotor(m)
    requires Moving(m.status) && 0 < m.current < 100
    requires m.status == (if WantsClose(m.pending, m.current) then Closing else Opening)
    requires m.pending != m.current
    ensures var t := ToggleTarget(m.current, m.pending);
      var n := SetPositionStep(s, m, t).next;
      n.status != m.status && Moving(n.status) && n.timer && n.settleMs == 2 * s.directionChangeMs
  {
  }

  /** Nothing is left to go at either end of travel, nor in a status
      that says the motor has come to rest. */
  predicate NothingLeftAtRest(m: Motor)
  {
    (m.current == 0 || m.current == 100 ==> m.remainingMs == 0) &&
    (m.status == Closed || m.status == Open || m.status == Stop ==> m.remainingMs == 0)
  }

  /** When a tick covers at least one percent, a tick keeps nothing left
      at rest: a moving tick that sets a time left has moved off both
      ends. */
  lemma TickKeepsNothingLeftAtRest(s: Settings, m: Motor)
    requires ValidSettings(s) && ValidMotor(m) && SamplePercent(s) >= 1
    requires NothingLeftAtRest(m)
    ensures NothingLeftAtRest(Tick(s, m).next)
  {
    if m.timer && m.settleMs == 0 {
      if m.status == Closing {
        ClosingTickOutcome(s, m);
      } else if m.status == Opening {
        OpeningTickOutcome(s, m);
      }
    }
  }

  /** Every command keeps nothing left at rest: the collapse to an end
      keeps the time left, which is already 0 there. */
  lemma SetPositionKeepsNothingLeftAtRest(s: Settings, m: Motor, percent: UShort)
    requires ValidSettings(s) && ValidMotor(m)
    requires NothingLeftAtRest(m)
    ensures NothingLeftAtRest(SetPositionStep(s, m, percent).next)
  {
  }

  /** The status names the feedback reports (the enum's member names). */
  function StatusName(status: PositionStates): string
  {
    match status
    case Unknown => "unknown"
    case Closed => "closed"
    case Open => "open"
    case Opening => "opening"
    case Closing => "closing"
    case Stop => "stop"
    case Toggle => "toggle"
    case Preset => "preset"
    case Error => "error"
  }

  /** The values the device publishes. The raise/lower flags follow the
      device's own wiring: "lowering" reports opening and "raising"
      reports closing. */
  datatype Feedbacks = Feedbacks(
    isOpen: bool, isClosed: bool, isLowering: bool, isRaising: bool, isStopped: bool,
    percentOpen: int, remainingMs: int, status: string)

  function FeedbackOf(m: Motor): (f: Feedbacks)
    ensures f.isOpen <==> m.status == Open
    ensures f.isClosed <==> m.status == Closed
    ensures f.isLowering <==> m.status == Opening
    ensures f.isRaising <==> m.status == Closing
    ensures f.status == StatusName(m.status)
    ensures f.isStopped <==> !Moving(m.status)
    ensures f.isStopped <==> !f.isLowering && !f.isRaising
    ensures !(f.isLowering && f.isRaising) && !(f.isOpen && f.isClosed)
    ensures f.isOpen || f.isClosed ==> f.isStopped
    ensures f.percentOpen == m.current && f.remainingMs == m.remainingMs
  {
    Feedbacks(
      m.status == Open, m.status == Closed, m.status == Opening, m.status == Closing,
      m.status != Closing && m.status != Opening,
      m.current, m.remainingMs, StatusName(m.status))
  }

  /** Distinct statuses are published under distinct names. */
  lemma StatusNameInjective(a: PositionStates, b: PositionStates)
    ensures StatusName(a) == StatusName(b) ==> a == b
  {
  }
}
