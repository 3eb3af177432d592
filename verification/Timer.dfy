/**
 clock_time_exceed of firmware/drivers/8258/timer.h and sleep_us of timer.c: elapsed-time tests
 on a 32-bit tick counter that wraps, 16 ticks to the microsecond.
 */
module Timer {
  import opened Arith

  /** The tick register when ticks ticks have really passed. */
  function Register(ticks: nat): (r: nat)
    ensures r < U32
  {
    ticks % U32
  }

  /** clock_time_exceed, with the register value now: 32-bit subtraction and multiplication. */
  predicate ClockTimeExceed(now: nat, ref: nat, us: nat) {
    (now - ref) % U32 > us * 16 % U32
  }

  lemma DifferenceWraps(start: nat, ticks: nat)
    requires start <= ticks
    ensures (Register(ticks) - Register(start)) % U32 == (ticks - start) % U32
  {
    var p, q := start / U32, ticks / U32;
    assert Register(ticks) - Register(start) == (ticks - start) + (p - q) * U32;
  }

  /** The delay that 32-bit arithmetic really asks for: 16 ticks to the microsecond, wrapped. */
  function Delay(us: nat): (d: nat)
    ensures d < U32
    ensures d == 16 * us <==> us < 0x1000_0000
    ensures (16 * us - d) % U32 == 0
  {
    us * 16 % U32
  }

  /** After k turns of the counter it has not yet passed the delay again. */
  predicate Missed(start: nat, ticks: nat, k: nat, us: nat) {
    k * U32 <= ticks - start <= k * U32 + Delay(us)
  }

  /**
   When the test tells the truth: it agrees with the true elapsed time except after whole turns
   of the counter, until the delay has passed once more.
   */
  lemma ExceedExactly(start: nat, ticks: nat, us: nat)
    requires start <= ticks
    ensures (ClockTimeExceed(Register(ticks), Register(start), us) <==> ticks - start > Delay(us))
            <==> forall k: nat :: k >= 1 ==> !Missed(start, ticks, k, us)
  {
    var e := ticks - start;
    DifferenceWraps(start, ticks);
    if e >= U32 && e % U32 <= Delay(us) {
      assert Missed(start, ticks, e / U32, us);
    }
    forall k: nat | k >= 1 && Missed(start, ticks, k, us)
      ensures e >= U32 && e % U32 <= Delay(us)
    {
      assert k == e / U32;
    }
  }

  /** Within one turn it always does. */
  lemma ExceedWithinTurn(start: nat, ticks: nat, us: nat)
    requires start <= ticks < start + U32
    ensures ClockTimeExceed(Register(ticks), Register(start), us) <==> ticks - start > Delay(us)
  {
    DifferenceWraps(start, ticks);
  }

  /** The poll values of a clock that never stands still, nor jumps past the wrap window. */
  ghost predicate Ticking(clock: nat -> nat, us: nat) {
    forall k: nat :: clock(k) < clock(k + 1) < clock(k) + (U32 - Delay(us))
  }

  /**
   sleep_us on a clock given by the true tick count at each poll: it ends, at the first poll
   after more ticks than the delay have really elapsed. That is as long as was asked for exactly
   below 2^28 microseconds.
   */
  method SleepUs(clock: nat -> nat, us: nat) returns (polls: nat)
    requires Ticking(clock, us)
    ensures polls >= 1 && clock(polls) - clock(0) > Delay(us)
    ensures forall k: nat :: 1 <= k < polls ==> clock(k) - clock(0) <= Delay(us)
    ensures clock(polls) - clock(0) > 16 * us <==> us < 0x1000_0000
  {
    var t := Register(clock(0));
    polls := 1;
    ExceedWithinTurn(clock(0), clock(1), us);
    while !ClockTimeExceed(Register(clock(polls)), t, us)
      invariant polls >= 1
      invariant forall k: nat :: 1 <= k < polls ==> clock(k) - clock(0) <= Delay(us)
      invariant clock(0) < clock(polls) < clock(0) + U32
      decreases Delay(us) + 1 - (clock(polls) - clock(0))
    {
      ExceedWithinTurn(clock(0), clock(polls), us);
      polls := polls + 1;
    }
    ExceedWithinTurn(clock(0), clock(polls), us);
  }

  /** The bound on the jump is sharp: a clock that jumps by one tick more can be missed. */
  lemma JumpBoundIsSharp(us: nat)
    requires Delay(us) >= 1
    ensures var start, before, after := 0, Delay(us), Delay(us) + (U32 - Delay(us));
            && after - start > Delay(us)
            && !ClockTimeExceed(Register(before), Register(start), us)
            && !ClockTimeExceed(Register(after), Register(start), us)
  {
  }
}
