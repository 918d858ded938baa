# Relay-controlled motor: position estimation and relay actuation

A model of the device class of the relay-controlled motor plugin. The plugin drives a shade, blind or screen motor through two relays, one for open and one for close. It has no position sensor. It estimates the position, from 0 (closed) to 100 (open) percent, by counting ticks of a periodic timer against a known full-travel time. It also decides which relays to pulse when a motion starts, reverses or stops.

Modules:

- `MotorTypes` (`types.dfy`): the statuses (`PositionStates`), the configured stop method, relay roles, pulse events and the snapshot that each `PositionChange` report carries.
- `Conversions` (`conversions.dfy`): `PositionMillisecondsToPercent` and `PositionPercentToMilliseconds`. Both use C#'s truncating integer division, written out as `TruncDiv`.
- `Actuator` (`actuator.dfy`): single pulses, double pulses and the pulse loop over the stop relays. Each pulse is a log of on/off events with offsets. `LevelAfter` reads a log back as the relay's level at a given time, and the pulse lemmas are stated against that reading.
- `Estimator` (`estimator.dfy`): the state machine as functions on a value `Motor` of the device's fields. It has one tick of the position timer (`Tick`), `SetPosition(ushort)` (`SetPositionStep`), the symbolic commands (`CommandTarget`, `ToggleTarget`) and the published feedbacks (`FeedbackOf`).
- `EstimatorRuns` (`runs.dfy`): uninterrupted runs of ticks. It covers reports that move in one direction only, the settling delay, progress, the bound on how long a run lasts, and worked scenarios.
- `RelayMotor` (`device.dfy`): the class `Device`. Its fields are the source's fields. Its methods update them statement by statement as the source does, and each is proved to produce exactly the state, pulses and reports of the matching `Estimator` function.

Relays are identified by role (`OpenRelay`, `CloseRelay`). The `StopRelays` list is an `Option`, where `None` stands for the null it starts as. `TravelMilliseconds` is a constructor parameter; the source sets it to 10000 before anything else can set it. `positionTimer` is a boolean that says whether the timer exists.

Behaviour of the code that a reader might not expect, which the model keeps:

- A stop request ends in status `closed`, never `stop` or `open`. The stop path chooses the status from `PositionMilliseconds`, which is never assigned and so stays 0 (`Estimator.StopStatus`, `Estimator.StopPath`).
- Reversing direction sets the settling delay to twice `DirectionChangeMilliseconds`, which is 1000 ms by default, not 500 (`EstimatorRuns.ReversalScenario`).
- `RemainingMilliseconds` is not recomputed when a motion starts. It keeps its old value until the first moving tick, so it is not always `travel * |current - pending| / 100` while moving.
- `SetPosition(ushort)` stores its argument unclamped. The target can therefore exceed 100, and the position still never does (`Estimator.Tick`).
- A stop request at 0 or 100 percent does not stop anything. It is a close to 0 or an open to 100, and it pulses the drive relay unless that direction is already running (`EstimatorRuns.StopAtClosedEndDrives`).
- A relay that cannot be resolved is not a no-op in the code: `PulseOutput` calls `On()` on it without a null check.

Behaviour as written that the model proves:

- One tick covers `100 * SampleMillisecs / TravelMilliseconds` percent, truncated. When the tick period is under 1% of the travel time this is 0. An opening run short of its target then never moves and never releases its timer (`EstimatorRuns.StalledWhenSampleRoundsToZero`). At 1% or more, every run ends within a bounded number of ticks (`EstimatorRuns.ClosingRunEnds`, `EstimatorRuns.OpeningRunEnds`).
- Nothing is left to go at either end of travel or in a resting status (`closed`, `open`, `stop`) as long as a tick covers at least 1% (`Estimator.TickKeepsNothingLeftAtRest`, `Estimator.SetPositionKeepsNothingLeftAtRest`). Under 1% per tick this fails. A repeated close to 0 at 0 sets `closed` but keeps the old `RemainingMilliseconds`, and a stalled opening tick has set that to the whole travel time (`EstimatorRuns.StalledRunClosesWithTimeLeft`).
- Under `OppositeDirection`, a stop request while nothing is moving pulses again whatever relay the previous stop chose (`EstimatorRuns.StopEnergises`).

## Model

| member | source | states |
|---|---|---|
| Conversions.TruncDiv | relay-controlled-motor-epi/relay-controlled-motor-epi/Device.cs:130-135 | C# `int` division: the remainder is smaller than the divisor and has the dividend's sign; it agrees with Euclidean division for non-negative operands |
| Conversions.MsToPercent | relay-controlled-motor-epi/relay-controlled-motor-epi/Device.cs:128-132 | for a non-negative time, the result is the largest percent whose share of the travel does not exceed it (rounded toward zero for negative times) |
| Conversions.PercentToMs | relay-controlled-motor-epi/relay-controlled-motor-epi/Device.cs:133-137 | for a non-negative percent, the result is the whole milliseconds that share of the travel spans, rounded down |
| Conversions.MsToPercentToMs | relay-controlled-motor-epi/relay-controlled-motor-epi/Device.cs:128-137 | time to percent and back never gains time |
| Conversions.PercentToMsToPercent | relay-controlled-motor-epi/relay-controlled-motor-epi/Device.cs:128-137 | with a travel time in whole hundredths, percent to time and back is exact |
| Conversions.MsToPercentMonotone | relay-controlled-motor-epi/relay-controlled-motor-epi/Device.cs:128-132 | a longer time never converts to a smaller percent |
| Actuator.PulseAll | relay-controlled-motor-epi/relay-controlled-motor-epi/Device.cs:411-416 | the stop loop issues an on at 0 and an off at the width for each listed relay, in list order |
| Actuator.PulseLevels | relay-controlled-motor-epi/relay-controlled-motor-epi/Device.cs:159-164 | a pulse energises its relay for exactly the first `width` ms and touches no other relay |
| Actuator.DoublePulseLevels | relay-controlled-motor-epi/relay-controlled-motor-epi/Device.cs:166-172 | a double pulse energises its relay during `[0, w)` and `[2w, 3w)` only, and touches no other relay |
| Actuator.PulseAllLevels | relay-controlled-motor-epi/relay-controlled-motor-epi/Device.cs:411-416 | pulsing a stop list energises exactly the listed relays, each for one width |
| Estimator.SamplePercent | relay-controlled-motor-epi/relay-controlled-motor-epi/Device.cs:228 | the percent covered per tick is non-negative and is the truncated share of the tick period in the travel |
| Estimator.Tick | relay-controlled-motor-epi/relay-controlled-motor-epi/Device.cs:208-295 | a tick keeps the position in 0..100 whatever the target. Without a timer it changes nothing. With one it reports exactly once. A settling tick only consumes settling time. Closing never raises the position and opening never lowers it. The direction holds while the timer runs. Releasing the timer from a run leaves a terminal status with nothing remaining. Any other status only releases the timer. "Timer implies moving" is preserved |
| Estimator.ClosingTickOutcome | relay-controlled-motor-epi/relay-controlled-motor-epi/Device.cs:226-249 | after settling, a closing tick floors the position at 0. Reaching 0 closes. Otherwise reaching the target stops. Otherwise the remaining time is the remaining distance converted to ms |
| Estimator.OpeningTickOutcome | relay-controlled-motor-epi/relay-controlled-motor-epi/Device.cs:251-278 | the mirror image for opening, capped at 100 |
| Estimator.StopStatus | relay-controlled-motor-epi/relay-controlled-motor-epi/Device.cs:404-409 | with the never-assigned `PositionMilliseconds`, the stop status is always `closed` |
| Estimator.SetPositionStep | relay-controlled-motor-epi/relay-controlled-motor-epi/Device.cs:322-420 | a command records its target, never moves the estimate and reports at most once. Any timer still running drives toward the target. The stop branch is taken only at an interior position and ends every motion. Both invariants are preserved |
| Estimator.StartClosing | relay-controlled-motor-epi/relay-controlled-motor-epi/Device.cs:326-341 | starting to close sets the settling delay (doubled after opening) and the status, pulses the close relay by stop method, runs the timer and reports once |
| Estimator.StartOpening | relay-controlled-motor-epi/relay-controlled-motor-epi/Device.cs:354-369 | the mirror image for opening |
| Estimator.StartEnergisesDriveRelay | relay-controlled-motor-epi/relay-controlled-motor-epi/Device.cs:334-337 | a starting motion energises exactly the relay of its direction: once, or twice for `OppositeDirection` |
| Estimator.SameDirection | relay-controlled-motor-epi/relay-controlled-motor-epi/Device.cs:342-351 | a repeat in the running direction only moves the target, with no pulse or report. The exception is an endpoint already reached, which collapses to closed/open, reports once and releases the timer |
| Estimator.StopPath | relay-controlled-motor-epi/relay-controlled-motor-epi/Device.cs:382-419 | the stop branch is taken exactly when the target equals an interior position. It zeroes the remaining time, releases the timer, sets `closed`, pulses the stop method's selection and reports once |
| Estimator.ToggleTarget | relay-controlled-motor-epi/relay-controlled-motor-epi/Device.cs:429-444 | toggle goes to an endpoint: the other endpoint when at one; otherwise the side of the current position away from the target; and open on a tie |
| Estimator.CommandTarget | relay-controlled-motor-epi/relay-controlled-motor-epi/Device.cs:421-446 | closed, open, stop and toggle map to 0, 100, the current position and the toggle target; every other state does nothing |
| Estimator.ToggleReverses | relay-controlled-motor-epi/relay-controlled-motor-epi/Device.cs:429-444 | toggling an interior motion reverses its direction, with the doubled settling delay |
| Estimator.FeedbackOf | relay-controlled-motor-epi/relay-controlled-motor-epi/Device.cs:98-105 | "open", "closed", "lowering" and "raising" hold exactly when the status is open, closed, opening and closing respectively. "stopped" holds exactly when the motor is neither opening nor closing. The status is published under its enum name, and position and remaining time are published as they are |
| Estimator.StatusNameInjective | relay-controlled-motor-epi/relay-controlled-motor-epi/Device.cs:105 | distinct statuses publish distinct names |
| Estimator.TickKeepsNothingLeftAtRest | relay-controlled-motor-epi/relay-controlled-motor-epi/Device.cs:226-278 | when a tick covers at least 1%, a tick keeps nothing left to go at 0, at 100 and in `closed`, `open` or `stop` |
| Estimator.SetPositionKeepsNothingLeftAtRest | relay-controlled-motor-epi/relay-controlled-motor-epi/Device.cs:322-420 | every command keeps nothing left to go at 0, at 100 and in `closed`, `open` or `stop` |
| EstimatorRuns.Run | relay-controlled-motor-epi/relay-controlled-motor-epi/Device.cs:208-295 | any number of ticks keeps the state valid, keeps the target and stop list, preserves "timer implies moving", and does nothing without a timer |
| EstimatorRuns.RunReports | relay-controlled-motor-epi/relay-controlled-motor-epi/Device.cs:284 | a run reports once per tick while its timer lasts, and never without a timer |
| EstimatorRuns.RunReportsAreSnapshots | relay-controlled-motor-epi/relay-controlled-motor-epi/Device.cs:214-284 | report `k` of a run is taken at a tick that finds the timer running, and is the snapshot of the state that tick leaves. Fewer than `n` reports means the timer was gone at the first tick that did not report |
| EstimatorRuns.ClosingReportsNeverRise | relay-controlled-motor-epi/relay-controlled-motor-epi/Device.cs:226-249 | through a closing run the reported positions never rise and stay at or below the start |
| EstimatorRuns.OpeningReportsNeverFall | relay-controlled-motor-epi/relay-controlled-motor-epi/Device.cs:251-278 | through an opening run the reported positions never fall and stay at or above the start |
| EstimatorRuns.SettlingRun | relay-controlled-motor-epi/relay-controlled-motor-epi/Device.cs:218-224 | while settling time lasts, `k` ticks consume `k` samples of it and change nothing else |
| EstimatorRuns.OpeningProgress | relay-controlled-motor-epi/relay-controlled-motor-epi/Device.cs:251-277 | an opening run advances one sample per tick while short of 100 and of its target |
| EstimatorRuns.ClosingProgress | relay-controlled-motor-epi/relay-controlled-motor-epi/Device.cs:226-248 | a closing run retreats one sample per tick while above 0 and its target |
| EstimatorRuns.ClosingRunEnds | relay-controlled-motor-epi/relay-controlled-motor-epi/Device.cs:218-249 | with at least 1% per tick, a closing run releases its timer within settling time + position + 1 ticks |
| EstimatorRuns.OpeningRunEnds | relay-controlled-motor-epi/relay-controlled-motor-epi/Device.cs:251-278 | with at least 1% per tick, an opening run releases its timer within settling time + (100 - position) + 1 ticks |
| EstimatorRuns.StalledWhenSampleRoundsToZero | relay-controlled-motor-epi/relay-controlled-motor-epi/Device.cs:253-277 | when the per-tick percent truncates to 0, an opening run short of its target never moves and never ends |
| EstimatorRuns.StalledRunClosesWithTimeLeft | relay-controlled-motor-epi/relay-controlled-motor-epi/Device.cs:253-351 | under 1% per tick: opening from closed, settling, one stalled tick and then two closes to 0 leaves status `closed` at 0 with the whole travel time still reported as remaining |
| EstimatorRuns.FullOpenScenario | relay-controlled-motor-epi/relay-controlled-motor-epi/Device.cs:354-368 | with a 10 s travel and 100 ms ticks, opening from closed pulses the open relay once and reports opening at 0. After 5 settling ticks and 100 moving ticks it is open at 100, with nothing remaining and the timer released |
| EstimatorRuns.ReversalScenario | relay-controlled-motor-epi/relay-controlled-motor-epi/Device.cs:326-340 | reversing an opening at 30% toward 20% holds the position for 10 ticks (1000 ms), then the 11th tick moves it to 29% with 900 ms left |
| EstimatorRuns.StopEnergises | relay-controlled-motor-epi/relay-controlled-motor-epi/Device.cs:387-416 | a mid-travel stop energises no relay under `Stop`. Under `OppositeDirection` it energises the relay opposite the motion, or the previous stop list when nothing moves. Under `OpenAndClose` it energises both relays, each for one width |
| EstimatorRuns.StopAtClosedEndDrives | relay-controlled-motor-epi/relay-controlled-motor-epi/Device.cs:458-462 | a stop at 0% is a close to 0, which starts a closing run and pulses the close relay |
| RelayMotor.Device.constructor | relay-controlled-motor-epi/relay-controlled-motor-epi/Device.cs:87-96 | pulse width and tick period default to 500 and 100 ms when configured as 0. The settling delay is 500 ms. The motor starts at 0%, status unknown, no timer and a null stop list |
| RelayMotor.Device.PulseOutput | relay-controlled-motor-epi/relay-controlled-motor-epi/Device.cs:159-164 | appends an on at 0 and an off at the width |
| RelayMotor.Device.DoublePulseOutput | relay-controlled-motor-epi/relay-controlled-motor-epi/Device.cs:166-172 | appends on, off, on, off at 0, w, 2w, 3w |
| RelayMotor.Device.StartPositionTimer | relay-controlled-motor-epi/relay-controlled-motor-epi/Device.cs:297-310 | the timer exists afterwards |
| RelayMotor.Device.Dispose | relay-controlled-motor-epi/relay-controlled-motor-epi/Device.cs:311-320 | the timer does not exist afterwards |
| RelayMotor.Device.OnPositionChange | relay-controlled-motor-epi/relay-controlled-motor-epi/Device.cs:138-142 | appends a snapshot of status, current, pending and remaining |
| RelayMotor.Device.PositionTimerExpired | relay-controlled-motor-epi/relay-controlled-motor-epi/Device.cs:208-295 | the in-place tick leaves exactly the state and reports of `Estimator.Tick`, with no pulses |
| RelayMotor.Device.ClosingSample | relay-controlled-motor-epi/relay-controlled-motor-epi/Device.cs:226-249 | the closing branch of a tick leaves exactly the state of the closing case of `Estimator.Tick` |
| RelayMotor.Device.OpeningSample | relay-controlled-motor-epi/relay-controlled-motor-epi/Device.cs:251-278 | the opening branch of a tick leaves exactly the state of the opening case of `Estimator.Tick` |
| RelayMotor.Device.StartMotion | relay-controlled-motor-epi/relay-controlled-motor-epi/Device.cs:328-340 | starting a motion sets the settling delay (doubled after running the other way) and the status, drives the relay by stop method, runs the timer and reports once |
| RelayMotor.Device.ArriveAt | relay-controlled-motor-epi/relay-controlled-motor-epi/Device.cs:345-350 | a repeat to an end already reached sets that status, reports it and releases the timer, with no pulse |
| RelayMotor.Device.StopAtTarget | relay-controlled-motor-epi/relay-controlled-motor-epi/Device.cs:382-419 | the stop branch sets the position to the target, zeroes the remaining time, chooses the stop list, sets the stop status, pulses the list, reports once and releases the timer |
| RelayMotor.Device.PulseStopRelays | relay-controlled-motor-epi/relay-controlled-motor-epi/Device.cs:411-416 | the `foreach` appends one single pulse per listed relay, and nothing for a null list |
| RelayMotor.Device.SetPosition | relay-controlled-motor-epi/relay-controlled-motor-epi/Device.cs:322-420 | the in-place command leaves exactly the state, pulses and reports of `Estimator.SetPositionStep` |
| RelayMotor.Device.SetPositionState | relay-controlled-motor-epi/relay-controlled-motor-epi/Device.cs:421-446 | a symbolic command acts as `SetPosition` of its `CommandTarget`, or changes nothing |
| RelayMotor.Device.Open | relay-controlled-motor-epi/relay-controlled-motor-epi/Device.cs:448-452 | acts as `SetPosition(100)` |
| RelayMotor.Device.Close | relay-controlled-motor-epi/relay-controlled-motor-epi/Device.cs:453-457 | acts as `SetPosition(0)` |
| RelayMotor.Device.Stop | relay-controlled-motor-epi/relay-controlled-motor-epi/Device.cs:458-462 | acts as `SetPosition` of the current position |
| RelayMotor.Device.Feedback | relay-controlled-motor-epi/relay-controlled-motor-epi/Device.cs:98-105 | the published flags read the device's status field: open, closed, lowering = opening, raising = closing, stopped = neither moving; the position, remaining time and status name are the fields' values |

## Left out

- Conversions.MsToPercent: does not model 32-bit overflow of `100 * ms`. It needs a tick period above 21474836 ms.
- Conversions.PercentToMs: does not model 32-bit overflow of `travel * percent`. With the 10000 ms travel the code always uses and a `ushort` target, it cannot overflow.
- RelayMotor.Device.StartPositionTimer: restarting an existing timer resets its phase. Time is not modelled, so only the timer's existence is.
- Timer scheduling and real time: a tick is an explicit call (`PositionTimerExpired`). Pulse timers are logged events with offsets from the pulse, not callbacks run later.
- Concurrency: races between pulse callbacks, ticks and commands are out of scope. The code has no locking.
- Relay resolution (`GetSwitchedOutputFromDevice`, a lookup in the host's device registry): relays are identified by role and assumed resolved.
- Feedback delivery (`FireUpdate` and its per-feedback try/catch), the host `PositionChange` subscribers, the catch-all around the tick, and all logging. These are host side effects and exception plumbing. The published values are modelled (`FeedbackOf`, `Device.Feedback`), and reports are logged as snapshots.
- The program-stop handler that calls `Dispose`: host runtime wiring. `Dispose` itself is modelled.
- `PositionEventArgs.id` is never set, so it is not modelled.
- `DirectionChangeMilliseconds` is a public mutable field that nothing in the device changes. It is a fixed setting (500 ms).
- Configuration: only the stop method is carried over. Values outside the three named ones cannot be represented; the code would treat them like `OpenAndClose`. `StartDelayMilliseconds` and the delay-times configuration are unused in the code.
- The plugin factory, JSON configuration classes and interface declarations are not part of this model; they hold no logic.
