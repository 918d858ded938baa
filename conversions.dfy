/** The device's integer conversions between elapsed travel time and
    percent open. Both use C#'s `int` division, which truncates toward
    zero. */
module Conversions {

  function Abs(x: int): nat { if x < 0 then -x else x }

  /** C# `a / b` on `int`: the quotient truncated toward zero, so the
      remainder takes the sign of the dividend. */
  function TruncDiv(a: int, b: int): (q: int)
    requires b != 0
    ensures a >= 0 ==> 0 <= a - q * b < Abs(b)
    ensures a <= 0 ==> 0 <= q * b - a < Abs(b)
    ensures a >= 0 && b > 0 ==> q == a / b
  {
    var d := (Abs(a) as int) / (Abs(b) as int);
    TruncDivRemainder(a, b, d);
    if (a >= 0) == (b > 0) then d else -d
  }

  /** The quotient of the magnitudes, given the sign of the quotient,
      leaves a remainder that carries the dividend's sign. */
  lemma TruncDivRemainder(a: int, b: int, d: int)
    requires b != 0 && d == (Abs(a) as int) / (Abs(b) as int)
    ensures var q := if (a >= 0) == (b > 0) then d else -d;
      (a >= 0 ==> 0 <= a - q * b < Abs(b)) && (a <= 0 ==> 0 <= q * b - a < Abs(b)) &&
      (a >= 0 && b > 0 ==> q == a / b)
  {
    var q := if (a >= 0) == (b > 0) then d else -d;
    var r := Abs(a) - d * Abs(b);
    assert 0 <= r < Abs(b);
    if b > 0 {
      assert q * b == (if a >= 0 then d * Abs(b) else -(d * Abs(b)));
    } else {
      assert d * Abs(b) == -(d * b);
      assert q * b == (if a >= 0 then d * Abs(b) else -(d * Abs(b)));
    }
    if a == 0 {
      assert d * Abs(b) <= 0;
      assert r == 0;
    }
  }

  /** `PositionMillisecondsToPercent`: `100 * ms / travel`. For a
      non-negative time the result is the largest percent whose share of
      the travel time does not exceed `ms`. */
  function MsToPercent(travelMs: int, ms: int): (p: int)
    requires travelMs > 0
    ensures ms >= 0 ==> 0 <= p && p * travelMs <= 100 * ms < (p + 1) * travelMs
    ensures ms <= 0 ==> p <= 0 && (p - 1) * travelMs < 100 * ms <= p * travelMs
  {
    TruncDiv(100 * ms, travelMs)
  }

  /** `PositionPercentToMilliseconds`: `travel * percent / 100`. For a
      non-negative percent the result is the whole number of milliseconds
      that the percent of the travel time spans, rounded down. */
  function PercentToMs(travelMs: int, percent: int): (ms: int)
    requires travelMs > 0
    ensures percent >= 0 ==> 0 <= ms && 100 * ms <= travelMs * percent < 100 * (ms + 1)
    ensures percent <= 0 ==> ms <= 0 && 100 * (ms - 1) < travelMs * percent <= 100 * ms
  {
    TruncDiv(travelMs * percent, 100)
  }

  /** Converting a time to a percent and back never gives more time than
      was put in. */
  lemma MsToPercentToMs(travelMs: int, ms: int)
    requires travelMs > 0 && ms >= 0
    ensures 0 <= PercentToMs(travelMs, MsToPercent(travelMs, ms)) <= ms
  {
    var p := MsToPercent(travelMs, ms);
    var back := PercentToMs(travelMs, p);
    assert 100 * back <= travelMs * p <= 100 * ms;
  }

  /** When the travel time is a whole number of hundredths, a percent
      survives the round trip through milliseconds exactly. */
  lemma PercentToMsToPercent(travelMs: int, percent: int)
    requires travelMs > 0 && travelMs % 100 == 0
    ensures MsToPercent(travelMs, PercentToMs(travelMs, percent)) == percent
  {
    var k := travelMs / 100;
    var ms := k * percent;
    assert travelMs * percent == ms * 100 by {
      assert travelMs == k * 100;
    }
    TruncDivExact(ms, 100);
    assert 100 * ms == percent * travelMs by {
      assert travelMs == k * 100;
    }
    TruncDivExact(percent, travelMs);
  }

  /** An exact quotient is found whatever the rounding. */
  lemma TruncDivExact(q: int, b: int)
    requires b != 0
    ensures TruncDiv(q * b, b) == q
  {
    var r := TruncDiv(q * b, b);
    assert q * b - r * b == (q - r) * b;
    if q != r {
      MulAtLeast(q - r, b);
    }
  }

  /** A non-zero multiple of `b` is at least as large as `b`. */
  lemma MulAtLeast(x: int, b: int)
    requires x != 0
    ensures Abs(x * b) >= Abs(b)
  {
    var ax, ab := Abs(x), Abs(b);
    assert Abs(x * b) == ax * ab by {
      if x < 0 && b < 0 { assert x * b == (-x) * (-b); }
      else if x < 0 { assert x * b == -((-x) * b); }
      else if b < 0 { assert x * b == -(x * (-b)); }
    }
    MulMonotone(1, ax, ab);
  }

  /** Multiplying by a non-negative factor keeps order. */
  lemma MulMonotone(x: int, y: int, k: int)
    requires x <= y && k >= 0
    ensures x * k <= y * k
  {
    assert y * k - x * k == (y - x) * k;
  }

  /** A longer time never converts to a smaller percent. */
  lemma MsToPercentMonotone(travelMs: int, a: int, b: int)
    requires travelMs > 0 && 0 <= a <= b
    ensures MsToPercent(travelMs, a) <= MsToPercent(travelMs, b)
  {
    var pa, pb := MsToPercent(travelMs, a), MsToPercent(travelMs, b);
    if pa > pb {
      MulMonotone(pb + 1, pa, travelMs);
    }
  }
}
