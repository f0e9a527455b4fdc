/**
 * The banner's countdown: a signal holding the remaining seconds, and an
 * interval that, once a second, replaces the value by the larger of the value
 * minus one and zero. The interval is only scheduled when the initial value is
 * positive, and it is cleared when the banner is torn down.
 *
 * Real-time scheduling is abstracted away: a `Tick` call stands for one
 * firing of the interval callback, `Teardown` for the effect's cleanup.
 */
module Countdown {

  /** The value after one firing of the interval callback: `Math.max(v - 1, 0)`. */
  function TickValue(v: int): (r: int)
    ensures r >= 0
    ensures v >= 0 ==> r <= v
    ensures v > 0 ==> r == v - 1
    ensures r == 0 <==> v <= 1
  {
    if v - 1 > 0 then v - 1 else 0
  }

  /** The value after `k` firings of the callback, starting from `v`. */
  function Ticks(v: int, k: nat): (r: int)
    ensures k > 0 ==> r >= 0
    ensures v >= 0 ==> 0 <= r <= v
  {
    if k == 0 then v else TickValue(Ticks(v, k - 1))
  }

  /** From a non-negative start, `k` ticks take `k` seconds off, down to zero and no further. */
  lemma {:induction false} TicksCountDown(v: int, k: nat)
    requires v >= 0
    ensures Ticks(v, k) == if k <= v then v - k else 0
  {
    if k > 0 {
      TicksCountDown(v, k - 1);
    }
  }

  /** Once the countdown reaches zero it stays there: every later tick is a no-op. */
  lemma {:induction false} ZeroIsFinal(v: int, k: nat, m: nat)
    requires v >= 0 && k >= v
    ensures Ticks(v, k) == 0 && Ticks(v, k + m) == 0
  {
    TicksCountDown(v, k);
    TicksCountDown(v, k + m);
  }

  /** More ticks never leave more seconds on the clock. */
  lemma {:induction false} TicksNeverIncrease(v: int, k: nat, m: nat)
    requires v >= 0
    ensures Ticks(v, k + m) <= Ticks(v, k)
  {
    TicksCountDown(v, k);
    TicksCountDown(v, k + m);
  }

  /** The timer signal together with whether its interval is scheduled. */
  class Countdown {
    /** The seconds shown on the banner. */
    var remaining: int
    /** Whether the interval is scheduled (started and not yet cleared). */
    var active: bool
    /** The configured duration the signal started from. */
    ghost var initial: int
    /** How many times the callback has fired. */
    ghost var elapsed: nat

    /**
     * The shown value is always the start value after `elapsed` ticks, and
     * nothing ever ran when the start value was not positive.
     */
    ghost predicate Valid()
      reads this
    {
      remaining == Ticks(initial, elapsed) &&
      (initial <= 0 ==> !active && elapsed == 0)
    }

    /** Mounting the banner: the signal holds the duration and the interval starts only if it is positive. */
    constructor (duration: int)
      ensures Valid()
      ensures initial == duration && elapsed == 0
      ensures remaining == duration
      ensures active <==> duration > 0
    {
      remaining := duration;
      initial := duration;
      elapsed := 0;
      active := duration > 0;
    }

    /** One second passes: a scheduled interval fires once; without one nothing happens. */
    method Tick()
      requires Valid()
      modifies this
      ensures Valid()
      ensures active == old(active) && initial == old(initial)
      ensures old(active) ==> remaining == TickValue(old(remaining)) && elapsed == old(elapsed) + 1
      ensures !old(active) ==> remaining == old(remaining) && elapsed == old(elapsed)
      ensures active ==> 0 <= remaining <= old(remaining)
    {
      if active {
        remaining := if remaining - 1 > 0 then remaining - 1 else 0;
        elapsed := elapsed + 1;
      }
    }

    /** The effect's cleanup: the interval is cleared and the value is left as it was. */
    method Teardown()
      requires Valid()
      modifies this
      ensures Valid()
      ensures !active
      ensures remaining == old(remaining) && initial == old(initial) && elapsed == old(elapsed)
    {
      active := false;
    }
  }
}
