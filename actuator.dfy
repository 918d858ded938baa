/** Relay pulses. A pulse switches a relay on at once and schedules it off
    later; the model records each switching as an event with its offset
    from the moment the pulse was issued. `Energised` reads such a log
    back as the relay's level at a given offset, which is what the
    patterns are specified against. */
module Actuator {
  import opened MotorTypes

  /** `PulseOutput`: on now, off after `width` ms. */
  function Pulse(relay: Relay, width: int): seq<PulseEvent>
  {
    [PulseEvent(relay, On, 0), PulseEvent(relay, Off, width)]
  }

  /** `DoublePulseOutput`: on, off at `width`, on at `2 * width`, off at
      `3 * width`, all on the same relay. */
  function DoublePulse(relay: Relay, width: int): seq<PulseEvent>
  {
    [PulseEvent(relay, On, 0), PulseEvent(relay, Off, width),
     PulseEvent(relay, On, 2 * width), PulseEvent(relay, Off, 3 * width)]
  }

  /** The `foreach` over the stop relays: one single pulse per relay, in
      list order. */
  function PulseAll(relays: seq<Relay>, width: int): (r: seq<PulseEvent>)
    ensures |r| == 2 * |relays|
    ensures forall i :: 0 <= i < |relays| ==> r[2 * i] == PulseEvent(relays[i], On, 0)
    ensures forall i :: 0 <= i < |relays| ==> r[2 * i + 1] == PulseEvent(relays[i], Off, width)
  {
    if relays == [] then [] else PulseAll(relays[..|relays| - 1], width) + Pulse(relays[|relays| - 1], width)
  }

  /** The level of `relay` at offset `t` once every event of `events`
      that is due by then has been applied, in order, to `level`. */
  function LevelAfter(events: seq<PulseEvent>, relay: Relay, t: int, level: bool): bool
  {
    if events == [] then level
    else
      var e := events[0];
      LevelAfter(events[1..], relay, t, if e.relay == relay && e.offsetMs <= t then e.level == On else level)
  }

  /** Whether `relay` is energised at offset `t`, starting from off. */
  function Energised(events: seq<PulseEvent>, relay: Relay, t: int): bool
  {
    LevelAfter(events, relay, t, false)
  }

  /** Applying two logs one after the other is applying their
      concatenation. */
  lemma {:induction false} LevelAfterConcat(a: seq<PulseEvent>, b: seq<PulseEvent>, relay: Relay, t: int, level: bool)
    ensures LevelAfter(a + b, relay, t, level) == LevelAfter(b, relay, t, LevelAfter(a, relay, t, level))
  {
    if a == [] {
      assert a + b == b;
    } else {
      var e := a[0];
      assert (a + b)[1..] == a[1..] + b;
      LevelAfterConcat(a[1..], b, relay, t, if e.relay == relay && e.offsetMs <= t then e.level == On else level);
    }
  }

  /** A pulse of positive width energises its relay for exactly the
      first `width` ms and leaves every other relay alone. */
  lemma PulseLevels(relay: Relay, width: int, other: Relay, t: int, level: bool)
    requires width > 0
    ensures LevelAfter(Pulse(relay, width), other, t, level) ==
            if other != relay || t < 0 then level else t < width
  {
    var p := Pulse(relay, width);
    var l1 := if other == relay && 0 <= t then true else level;
    var l2 := if other == relay && width <= t then false else l1;
    assert LevelAfter(p, other, t, level) == LevelAfter(p[1..], other, t, l1);
    assert LevelAfter(p[1..], other, t, l1) == LevelAfter(p[2..], other, t, l2);
    assert p[2..] == [];
  }

  /** A double pulse energises its relay during the first and the third
      `width`-long window and leaves every other relay alone. */
  lemma DoublePulseLevels(relay: Relay, width: int, other: Relay, t: int, level: bool)
    requires width > 0
    ensures LevelAfter(DoublePulse(relay, width), other, t, level) ==
            if other != relay || t < 0 then level else t < width || 2 * width <= t < 3 * width
  {
    var p := DoublePulse(relay, width);
    var l1 := if other == relay && 0 <= t then true else level;
    var l2 := if other == relay && width <= t then false else l1;
    var l3 := if other == relay && 2 * width <= t then true else l2;
    var l4 := if other == relay && 3 * width <= t then false else l3;
    assert LevelAfter(p, other, t, level) == LevelAfter(p[1..], other, t, l1);
    assert LevelAfter(p[1..], other, t, l1) == LevelAfter(p[2..], other, t, l2);
    assert LevelAfter(p[2..], other, t, l2) == LevelAfter(p[3..], other, t, l3);
    assert LevelAfter(p[3..], other, t, l3) == LevelAfter(p[4..], other, t, l4);
    assert p[4..] == [];
  }

  /** Pulsing a list of relays energises each listed relay for the first
      `width` ms, and no other relay, however often a relay is listed. */
  lemma {:induction false} PulseAllLevels(relays: seq<Relay>, width: int, other: Relay, t: int, level: bool)
    requires width > 0
    ensures LevelAfter(PulseAll(relays, width), other, t, level) ==
            if other !in relays || t < 0 then level else t < width
  {
    if relays != [] {
      var init, last := relays[..|relays| - 1], relays[|relays| - 1];
      assert relays == init + [last];
      LevelAfterConcat(PulseAll(init, width), Pulse(last, width), other, t, level);
      PulseAllLevels(init, width, other, t, level);
      PulseLevels(last, width, other, t, LevelAfter(PulseAll(init, width), other, t, level));
    }
  }
}
