/**
 The alert cooldown gate of the security camera. Timestamps are integer
 microseconds since `datetime.min` (0001-01-01 00:00:00), which is exactly
 the resolution of Python's `datetime`, so differences and comparisons are
 exact.
 */
module Throttle {

  /** One second in microseconds. */
  const Second: int := 1_000_000

  /** `timedelta(seconds=10)`: the minimum gap, exclusive, between two alerts. */
  const Cooldown: int := 10 * Second

  /** Days from 0001-01-01 to 2000-01-01 in the proleptic Gregorian calendar. */
  const DaysTo2000: int := 730119

  /** `datetime(2000, 1, 1)`: the "previous alert" time the camera starts with. */
  const Start2000: int := DaysTo2000 * 86400 * Second

  /** Result of one gate evaluation: whether to alert, and the new last-alert time. */
  datatype Gated = Gated(fire: bool, last: int)

  /**
   The cooldown gate: alert only when strictly more than the cooldown has
   passed since the last alert; the last-alert time moves only on an alert.
   */
  function Gate(now: int, last: int): (g: Gated)
    ensures g.fire ==> g.last == now && g.last - last > Cooldown
    ensures !g.fire ==> g.last == last && now - last <= Cooldown
  {
    if now - last > Cooldown then Gated(true, now) else Gated(false, last)
  }

  /** A gap of exactly the cooldown does not alert; one microsecond more does. */
  lemma GateBoundary(last: int)
    ensures !Gate(last + Cooldown, last).fire
    ensures Gate(last + Cooldown + 1, last).fire
  {
  }

  /** Once the gate would alert at some time, it would alert at every later time too. */
  lemma GateMonotone(now: int, later: int, last: int)
    requires now <= later
    requires Gate(now, last).fire
    ensures Gate(later, last).fire && Gate(later, last).last == later
  {
  }

  /**
   Evaluating the gate twice at the same instant alerts at most once:
   the first alert closes the gate for the following `Cooldown` microseconds.
   */
  lemma GateClosesAfterAlert(now: int, later: int, last: int)
    requires Gate(now, last).fire
    requires later - now <= Cooldown
    ensures !Gate(later, Gate(now, last).last).fire
  {
  }

  /**
   With the 2000-01-01 starting value, the first evaluation at any time more
   than ten seconds after it alerts immediately.
   */
  lemma FirstGateAfter2000Fires(now: int)
    requires now > Start2000 + Cooldown
    ensures Gate(now, Start2000) == Gated(true, now)
  {
  }
}
