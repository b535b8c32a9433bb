/** The per-target countdown ring: a repeating tick event adds the tick
    interval to the elapsed time, redraws the ring as an arc covering the
    remaining fraction of the duration, and destroys the ring graphics once
    the elapsed time reaches the duration. */
module Countdown {

  /** Countdown length in milliseconds; also the delay of the one-shot timeout. */
  const TimerDuration: nat := 3000

  /** Interval of the repeating redraw tick, in milliseconds. */
  const TickDelay: nat := 30

  /** The ring's state: time counted by the tick event, whether that event is
      still scheduled, and whether the ring graphics has been destroyed. */
  datatype Ring = Ring(elapsed: nat, ticking: bool, destroyed: bool)

  /** The ring as a spawn leaves it: nothing elapsed, tick event scheduled. */
  const FreshRing: Ring := Ring(0, true, false)

  /** Remaining fraction of the countdown; negative once the duration is
      exceeded, since the tick event keeps running. */
  function Percent(elapsed: nat): (p: real)
    ensures p == 1.0 <==> elapsed == 0
    ensures p == 0.0 <==> elapsed == TimerDuration
    ensures 0.0 <= p <= 1.0 <==> elapsed <= TimerDuration
  {
    1.0 - elapsed as real / TimerDuration as real
  }

  /** The end angle, in degrees, of the arc the ring is drawn with. */
  function SweepDegrees(elapsed: nat): (degrees: real)
    ensures degrees == 360.0 <==> elapsed == 0
    ensures degrees == 0.0 <==> elapsed == TimerDuration
    ensures 0.0 <= degrees <= 360.0 <==> elapsed <= TimerDuration
  {
    360.0 * Percent(elapsed)
  }

  /** One firing of the repeating tick event; a removed event no longer fires. */
  function Tick(r: Ring): (r': Ring)
    ensures r'.ticking == r.ticking
    ensures !r.ticking ==> r' == r
    ensures r.ticking ==> r'.elapsed == r.elapsed + TickDelay
    ensures r.destroyed ==> r'.destroyed
    ensures !r.destroyed && r'.destroyed ==> r'.elapsed >= TimerDuration
    ensures r.ticking && r'.elapsed >= TimerDuration ==> r'.destroyed
  {
    if !r.ticking then r
    else
      var elapsed := r.elapsed + TickDelay;
      r.(elapsed := elapsed, destroyed := r.destroyed || elapsed >= TimerDuration)
  }

  function Ticks(r: Ring, n: nat): Ring
    decreases n
  {
    if n == 0 then r else Tick(Ticks(r, n - 1))
  }

  /** After n ticks from spawn the ring has counted 30 n milliseconds, is
      still ticking, and has been destroyed exactly when 30 n >= 3000. */
  lemma {:induction false} TicksFromSpawn(n: nat)
    ensures Ticks(FreshRing, n) == Ring(TickDelay * n, true, n >= 100)
    decreases n
  {
    if n > 0 {
      TicksFromSpawn(n - 1);
    }
  }

  /** The ring is first destroyed on the 100th tick. */
  lemma FirstDestroyedOnTick100()
    ensures !Ticks(FreshRing, 99).destroyed
    ensures Ticks(FreshRing, 100).destroyed
  {
    TicksFromSpawn(99);
    TicksFromSpawn(100);
  }

  /** The arc drawn on the n-th tick ends at 360 - 3.6 n degrees: a full
      circle shrinking linearly, reaching nothing on the 100th tick and
      going negative after it. */
  lemma SweepAfterTicks(n: nat)
    ensures SweepDegrees(Ticks(FreshRing, n).elapsed) == 360.0 - 3.6 * n as real
    ensures SweepDegrees(Ticks(FreshRing, n).elapsed) >= 0.0 <==> n <= 100
  {
    TicksFromSpawn(n);
  }

  /** Halfway through the countdown the ring is a half circle. */
  lemma HalfwaySweep()
    ensures SweepDegrees(1500) == 180.0
    ensures SweepDegrees(Ticks(FreshRing, 50).elapsed) == 180.0
  {
    TicksFromSpawn(50);
  }

  /** The remaining fraction strictly decreases with elapsed time. */
  lemma PercentDecreasing(a: nat, b: nat)
    ensures a < b <==> Percent(b) < Percent(a)
  {
  }
}
