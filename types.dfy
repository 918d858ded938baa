/** Values shared by the relay-controlled motor model: statuses, the stop
    method from the configuration, relay roles, pulse events and the
    position snapshots handed to subscribers. */
module MotorTypes {

  /** A nullable reference; used for the device's list of stop relays,
      which starts out null. */
  datatype Option<+T> = None | Some(value: T)

  /** Motor status and command intents (`PositionStates`). `Toggle` and
      `Preset` are commands only; the device never takes them as status. */
  datatype PositionStates =
    | Unknown | Closed | Open | Opening | Closing | Stop | Toggle | Preset | Error

  /** How a motor is halted mid-travel (`eRelayControlledMotorStopMethod`). */
  datatype StopMethod = StopRelay | OppositeDirection | OpenAndClose

  /** The two drive relays of one device, by role. */
  datatype Relay = OpenRelay | CloseRelay

  datatype Level = On | Off

  /** One switching of a relay, `offsetMs` after the pulse was issued. */
  datatype PulseEvent = PulseEvent(relay: Relay, level: Level, offsetMs: int)

  /** The payload of one `PositionChange` event (`PositionEventArgs`). */
  datatype Snapshot = Snapshot(status: PositionStates, currentPercent: int, pendingPercent: int, remainingMs: int)

  /** The C# `ushort` accepted by `SetPosition`. */
  type UShort = x: int | 0 <= x < 0x1_0000
}
