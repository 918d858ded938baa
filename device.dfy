/** The relay-controlled motor device: its fields are updated in place by
    the commands and by each tick of the position timer, exactly as the
    functions of `Estimator` describe. Relay pulses are appended to a log
    of switchings and every `PositionChange` report to a log of
    snapshots. */
module RelayMotor {
  import opened MotorTypes
  import opened Conversions
  import opened Actuator
  import opened Estimator

  class Device {
    const settings: Settings

    var percentOpenCurrent: int
    var percentOpenPending: int
    var remainingMilliseconds: int
    var statusCurrent: PositionStates
    var directionChangeRemaining: int
    /** Whether `positionTimer` exists. */
    var timerActive: bool
    var stopRelays: Option<seq<Relay>>
    /** Every relay switching issued so far, each offset from its pulse. */
    var pulses: seq<PulseEvent>
    /** Every `PositionChange` report so far. */
    var snapshots: seq<Snapshot>

    function State(): Motor
      reads this
    {
      Motor(percentOpenCurrent, percentOpenPending, remainingMilliseconds, statusCurrent,
            directionChangeRemaining, timerActive, stopRelays)
    }

    ghost predicate Valid()
      reads this
    {
      ValidSettings(settings) && ValidMotor(State()) && StopRelaysFit(settings, State())
    }

    /** A new device: the pulse width and tick period fall back to 500 ms
        and 100 ms when configured as 0, the settling delay is 500 ms, and
        the motor starts at 0 percent with an unknown status and no timer. */
    constructor (travelMs: int, relayPulseTime: int, minimumChange: nat, stopMethod: StopMethod)
      requires travelMs > 0
      ensures Valid() && Engaged(State())
      ensures settings == Settings(travelMs, if minimumChange == 0 then 100 else minimumChange,
                                   if relayPulseTime == 0 then 500 else relayPulseTime, 500, stopMethod)
      ensures State() == Motor(0, 0, 0, Unknown, 0, false, None)
      ensures pulses == [] && snapshots == []
    {
      settings := Settings(travelMs, if minimumChange == 0 then 100 else minimumChange,
                           if relayPulseTime == 0 then 500 else relayPulseTime, 500, stopMethod);
      percentOpenCurrent, percentOpenPending, remainingMilliseconds := 0, 0, 0;
      statusCurrent := Unknown;
      directionChangeRemaining := 0;
      timerActive := false;
      stopRelays := None;
      pulses, snapshots := [], [];
    }

    method PulseOutput(relay: Relay, width: int)
      modifies this`pulses
      ensures pulses == old(pulses) + Pulse(relay, width)
    {
      pulses := pulses + [PulseEvent(relay, On, 0)];
      pulses := pulses + [PulseEvent(relay, Off, width)];
    }

    method DoublePulseOutput(relay: Relay, width: int)
      modifies this`pulses
      ensures pulses == old(pulses) + DoublePulse(relay, width)
    {
      pulses := pulses + [PulseEvent(relay, On, 0)];
      pulses := pulses + [PulseEvent(relay, Off, width * 1)];
      pulses := pulses + [PulseEvent(relay, On, width * 2)];
      pulses := pulses + [PulseEvent(relay, Off, width * 3)];
    }

    /** Creates the position timer, or restarts the one that exists. */
    method StartPositionTimer()
      modifies this`timerActive
      ensures timerActive
    {
      timerActive := true;
    }

    /** Releases the position timer, if there is one. */
    method Dispose()
      modifies this`timerActive
      ensures !timerActive
    {
      if timerActive {
        timerActive := false;
      }
    }

    method OnPositionChange()
      modifies this`snapshots
      ensures snapshots == old(snapshots) + [SnapshotOf(State())]
    {
      snapshots := snapshots + [Snapshot(statusCurrent, percentOpenCurrent, percentOpenPending, remainingMilliseconds)];
    }

    /** One expiry of the position timer. */
    method PositionTimerExpired()
      requires Valid()
      modifies this
      ensures Valid()
      ensures State() == Tick(settings, old(State())).next
      ensures snapshots == old(snapshots) + Tick(settings, old(State())).snapshots
      ensures pulses == old(pulses)
    {
      if timerActive {
        if directionChangeRemaining > 0 {
          if directionChangeRemaining < settings.sampleMs {
            directionChangeRemaining := 0;
          } else {
            directionChangeRemaining := directionChangeRemaining - settings.sampleMs;
          }
        } else if statusCurrent == Closing {
          ClosingSample();
        } else if statusCurrent == Opening {
          OpeningSample();
        } else {
          Dispose();
        }
        OnPositionChange();
      }
    }

    /** The closing branch of a tick. */
    method ClosingSample()
      requires ValidSettings(settings)
      modifies this`percentOpenCurrent, this`remainingMilliseconds, this`statusCurrent, this`timerActive
      ensures State() == Estimator.ClosingSample(settings, old(State()))
    {
      var samplePercent := MsToPercent(settings.travelMs, settings.sampleMs);
      if percentOpenCurrent >= samplePercent {
        percentOpenCurrent := percentOpenCurrent - samplePercent;
      } else {
        percentOpenCurrent := 0;
      }
      if percentOpenCurrent == 0 {
        remainingMilliseconds := 0;
        statusCurrent := Closed;
        Dispose();
      } else if percentOpenCurrent <= percentOpenPending {
        remainingMilliseconds := 0;
        statusCurrent := PositionStates.Stop;
        Dispose();
      } else {
        remainingMilliseconds := PercentToMs(settings.travelMs, percentOpenCurrent - percentOpenPending);
      }
    }

    /** The opening branch of a tick. */
    method OpeningSample()
      requires ValidSettings(settings)
      modifies this`percentOpenCurrent, this`remainingMilliseconds, this`statusCurrent, this`timerActive
      ensures State() == Estimator.OpeningSample(settings, old(State()))
    {
      var samplePercent := MsToPercent(settings.travelMs, settings.sampleMs);
      if percentOpenCurrent <= 100 - samplePercent {
        percentOpenCurrent := percentOpenCurrent + samplePercent;
      } else {
        percentOpenCurrent := 100;
      }
      if percentOpenCurrent == 100 {
        remainingMilliseconds := 0;
        statusCurrent := PositionStates.Open;
        Dispose();
      } else if percentOpenCurrent >= percentOpenPending {
        remainingMilliseconds := 0;
        statusCurrent := PositionStates.Stop;
        Dispose();
      } else {
        remainingMilliseconds := PercentToMs(settings.travelMs, percentOpenPending - percentOpenCurrent);
      }
    }

    /** Pulses each relay of the stop list once, in order; a null list
        pulses nothing. */
    method PulseStopRelays()
      modifies this`pulses
      ensures pulses == old(pulses) + StopPulses(settings, stopRelays)
    {
      if stopRelays.Some? {
        var relays := stopRelays.value;
        for i := 0 to |relays|
          invariant pulses == old(pulses) + PulseAll(relays[..i], settings.pulseMs)
        {
          assert relays[..i + 1][..i] == relays[..i];
          PulseOutput(relays[i], settings.pulseMs);
        }
        assert relays[..|relays|] == relays;
      }
    }

    /** Moves toward `percent`: starts a motion (or reverses one), updates
        the target of the motion already running, or stops at once. */
    method SetPosition(percent: UShort)
      requires Valid()
      modifies this
      ensures Valid()
      ensures var r := SetPositionStep(settings, old(State()), percent);
        State() == r.next && pulses == old(pulses) + r.pulses && snapshots == old(snapshots) + r.snapshots
    {
      percentOpenPending := percent;
      if percentOpenPending == 0 || percentOpenPending < percentOpenCurrent {
        if statusCurrent != Closing {
          StartMotion(CloseRelay);
        } else if percentOpenPending == 0 && percentOpenCurrent == 0 && statusCurrent != Closed {
          ArriveAt(Closed);
        }
      } else if percentOpenPending == 100 || percentOpenPending > percentOpenCurrent {
        if statusCurrent != Opening {
          StartMotion(OpenRelay);
        } else if percentOpenPending == 100 && percentOpenCurrent == 100 && statusCurrent != PositionStates.Open {
          ArriveAt(PositionStates.Open);
        }
      } else {
        StopAtTarget();
      }
    }

    /** The start of a motion in `SetPosition`: the settling delay is
        doubled when the motor was running the other way, the status
        becomes the direction of `relay`, the relay is driven and the timer
        runs. */
    method StartMotion(relay: Relay)
      modifies this
      ensures var m := old(State());
        var opposite := if relay == CloseRelay then Opening else Closing;
        var n := m.(settleMs := if m.status == opposite then 2 * settings.directionChangeMs else settings.directionChangeMs,
                    status := if relay == CloseRelay then Closing else Opening, timer := true);
        State() == n && pulses == old(pulses) + DrivePulse(settings, relay) &&
        snapshots == old(snapshots) + [SnapshotOf(n)]
    {
      var direction, opposite := Opening, Closing;
      if relay == CloseRelay {
        direction, opposite := Closing, Opening;
      }
      directionChangeRemaining :=
        if statusCurrent == opposite then 2 * settings.directionChangeMs else settings.directionChangeMs;
      statusCurrent := direction;
      if settings.stopMethod == OppositeDirection {
        DoublePulseOutput(relay, settings.pulseMs);
      } else {
        PulseOutput(relay, settings.pulseMs);
      }
      StartPositionTimer();
      OnPositionChange();
    }

    /** A repeated command to the end the motor has already reached:
        the status becomes that end, it is reported and the timer is
        released. */
    method ArriveAt(end: PositionStates)
      modifies this
      ensures State() == old(State()).(status := end, timer := false)
      ensures pulses == old(pulses) && snapshots == old(snapshots) + [SnapshotOf(old(State()).(status := end))]
    {
      statusCurrent := end;
      OnPositionChange();
      Dispose();
    }

    /** The stop branch of `SetPosition`: the estimate jumps to the
        target, the stop method chooses the relays to pulse, and the timer
        is released. */
    method StopAtTarget()
      requires ValidSettings(settings)
      modifies this
      ensures var m := old(State());
        var relays := StopRelaysFor(settings, m);
        State() == m.(current := m.pending, remainingMs := 0, stopRelays := relays,
                      status := StopStatus(settings), timer := false) &&
        pulses == old(pulses) + StopPulses(settings, relays) &&
        snapshots == old(snapshots) + [SnapshotOf(State())]
    {
      percentOpenCurrent := percentOpenPending;
      remainingMilliseconds := 0;
      match settings.stopMethod {
        case StopRelay =>
        case OppositeDirection =>
          if statusCurrent == Opening {
            stopRelays := Some([CloseRelay]);
          } else if statusCurrent == Closing {
            stopRelays := Some([OpenRelay]);
          }
        case OpenAndClose =>
          stopRelays := Some([OpenRelay, CloseRelay]);
      }
      statusCurrent := StopStatus(settings);
      PulseStopRelays();
      OnPositionChange();
      Dispose();
    }

    /** Carries out a symbolic command: closed, open, stop and toggle
        become a percentage, anything else is ignored. */
    method SetPositionState(state: PositionStates)
      requires Valid()
      modifies this
      ensures Valid()
      ensures match CommandTarget(state, old(percentOpenCurrent), old(percentOpenPending))
        case None => State() == old(State()) && pulses == old(pulses) && snapshots == old(snapshots)
        case Some(t) =>
          var r := SetPositionStep(settings, old(State()), t);
          State() == r.next && pulses == old(pulses) + r.pulses && snapshots == old(snapshots) + r.snapshots
      decreases if state == Toggle then 1 else 0
    {
      match state
      case Closed => SetPosition(0);
      case Open => SetPosition(100);
      case Stop => SetPosition(percentOpenCurrent);
      case Toggle =>
        if percentOpenCurrent == 0 {
          SetPositionState(PositionStates.Open);
        } else if percentOpenCurrent == 100 {
          SetPositionState(Closed);
        } else if percentOpenPending == 0 {
          SetPositionState(PositionStates.Open);
        } else if percentOpenPending == 100 {
          SetPositionState(Closed);
        } else if percentOpenPending < percentOpenCurrent {
          SetPositionState(PositionStates.Open);
        } else if percentOpenPending > percentOpenCurrent {
          SetPositionState(Closed);
        } else {
          SetPositionState(PositionStates.Open);
        }
      case _ =>
    }

    method Open()
      requires Valid()
      modifies this
      ensures Valid()
      ensures var r := SetPositionStep(settings, old(State()), 100);
        State() == r.next && pulses == old(pulses) + r.pulses && snapshots == old(snapshots) + r.snapshots
    {
      SetPosition(100);
    }

    method Close()
      requires Valid()
      modifies this
      ensures Valid()
      ensures var r := SetPositionStep(settings, old(State()), 0);
        State() == r.next && pulses == old(pulses) + r.pulses && snapshots == old(snapshots) + r.snapshots
    {
      SetPosition(0);
    }

    method Stop()
      requires Valid()
      modifies this
      ensures Valid()
      ensures var r := SetPositionStep(settings, old(State()), old(percentOpenCurrent));
        State() == r.next && pulses == old(pulses) + r.pulses && snapshots == old(snapshots) + r.snapshots
    {
      SetPosition(percentOpenCurrent);
    }

    /** The values the device publishes to its feedbacks. */
    function Feedback(): (f: Feedbacks)
      reads this
      ensures f.isOpen <==> statusCurrent == PositionStates.Open
      ensures f.isClosed <==> statusCurrent == Closed
      ensures f.isLowering <==> statusCurrent == Opening
      ensures f.isRaising <==> statusCurrent == Closing
      ensures f.isStopped <==> !f.isLowering && !f.isRaising
      ensures f.percentOpen == percentOpenCurrent && f.remainingMs == remainingMilliseconds
      ensures f.status == StatusName(statusCurrent)
    {
      FeedbackOf(State())
    }
  }
}
