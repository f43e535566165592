/** The stopwatch over the repetitive interrupt timer: registers, elapsed time, polling
    delays and tick conversions.

    The timer counts true time modulo 2^32: StopWatch_Init makes it restart from 0 behind
    0xFFFFFFFF. A delay loop polls it at instants it does not control; all that is known is
    that time advances by at least one tick and at most `gap` ticks between two polls. */
module Stopwatch {
  import opened Bits

  const RIT_CTRL_ENCLR: nat := 2
  const RIT_CTRL_TEN: nat := 8
  const TWO_TO_64: nat := TWO_TO_32 * TWO_TO_32

  // ---------- values ----------

  /** The join that the 64-bit getters perform on a register pair. */
  function Join(high: nat, low: nat): nat { Or(Shl(high, 32), low) }

  /** The high register counts in units of 2^32. */
  lemma JoinIs(high: nat, low: nat)
    ensures low < TWO_TO_32 ==> Join(high, low) == high * TWO_TO_32 + low
  {
    hide Or, Pow2;
    Pow2Of32();
    if low < TWO_TO_32 {
      OrDisjoint(high, low, 32);
    }
  }

  /** Splitting a 64-bit value over a register pair and joining it again gives it back. */
  lemma SplitJoin(val: nat)
    requires val < TWO_TO_64
    ensures val / TWO_TO_32 < TWO_TO_32 && U32(val / TWO_TO_32) == val / TWO_TO_32
    ensures Join(U32(val / TWO_TO_32), U32(val)) == val
  {
    hide Join;
    JoinIs(U32(val / TWO_TO_32), U32(val));
  }

  /** A joined counter, cut to 32 bits, is its low register. */
  lemma JoinLow(high: nat, low: nat)
    requires low < TWO_TO_32
    ensures U32(Join(high, low)) == low
  {
    hide Join;
    JoinIs(high, low);
    ModMulRemoved(low, high, TWO_TO_32);
  }

  /** StopWatch_Elapsed. */
  function Elapsed(now: nat, start: nat): nat { U32(now - start) }

  /** On a counter of true time, the elapsed time is the true one modulo 2^32. */
  lemma ElapsedIs(t: nat, t0: nat)
    requires t0 <= t
    ensures Elapsed(U32(t), U32(t0)) == (t - t0) % TWO_TO_32 <= t - t0
    ensures t - t0 < TWO_TO_32 ==> Elapsed(U32(t), U32(t0)) == t - t0
  {
    var a, b := t / TWO_TO_32, t0 / TWO_TO_32;
    ModMulRemoved(U32(t) - U32(t0), a - b, TWO_TO_32);
    assert t - t0 == U32(t) - U32(t0) + (a - b) * TWO_TO_32;
  }

  // ---------- delay loops ----------

  /** The instants of the start and of the polls of a delay loop. */
  ghost predicate Polls(gap: nat, ts: seq<nat>)
  {
    ts != [] && forall i :: 0 < i < |ts| ==> ts[i - 1] < ts[i] <= ts[i - 1] + gap
  }

  /** No poll has found the delay over. */
  ghost predicate StillWaiting(ticks: nat, ts: seq<nat>)
    requires ts != []
  {
    forall i :: 0 < i < |ts| ==> Elapsed(U32(ts[i]), U32(ts[0])) < ticks
  }

  lemma {:induction false} PollsAdvance(gap: nat, ts: seq<nat>, i: nat)
    requires Polls(gap, ts) && i < |ts|
    ensures ts[0] + i <= ts[i]
  {
    if i > 0 {
      PollsAdvance(gap, ts, i - 1);
      assert ts[i - 1] < ts[i];
    }
  }

  /** A delay never ends early: a poll that finds it over happens at least `ticks` true
      ticks after the start, however often the counter has wrapped. */
  lemma NeverEarly(gap: nat, ticks: nat, ts: seq<nat>, i: nat)
    requires Polls(gap, ts) && i < |ts|
    requires Elapsed(U32(ts[i]), U32(ts[0])) >= ticks
    ensures ts[i] - ts[0] >= ticks
  {
    PollsAdvance(gap, ts, i);
    ElapsedIs(ts[i], ts[0]);
  }

  /** While the loop waits, and the gap cannot jump over the window, true time stays below
      the delay. */
  lemma {:induction false} WaitingIsShort(gap: nat, ticks: nat, ts: seq<nat>, i: nat)
    requires Polls(gap, ts) && StillWaiting(ticks, ts) && 0 < ticks && ticks + gap <= TWO_TO_32
    requires i < |ts|
    ensures ts[i] - ts[0] < ticks
  {
    if i > 0 {
      WaitingIsShort(gap, ticks, ts, i - 1);
      PollsAdvance(gap, ts, i);
      assert ts[i] <= ts[i - 1] + gap;
      ElapsedIs(ts[i], ts[0]);
    }
  }

  /** Every loop has ended after n polls. */
  ghost predicate EndsWithin(gap: nat, ticks: nat, n: nat)
  {
    forall ts: seq<nat> :: Polls(gap, ts) && |ts| > n ==> !StillWaiting(ticks, ts)
  }

  lemma EndsInTime(gap: nat, ticks: nat)
    requires 0 < ticks && ticks + gap <= TWO_TO_32
    ensures EndsWithin(gap, ticks, ticks)
  {
    forall ts: seq<nat> | Polls(gap, ts) && |ts| > ticks
      ensures !StillWaiting(ticks, ts)
    {
      if StillWaiting(ticks, ts) {
        WaitingIsShort(gap, ticks, ts, ticks);
        PollsAdvance(gap, ts, ticks);
      }
    }
  }

  /** An unlucky poll: one tick at a time up to ticks - 1, then over the whole window. */
  function Unlucky(ticks: nat, i: nat): nat
    requires 0 < ticks <= TWO_TO_32
  {
    if i == 0 then 0
    else if i % ticks == 0 then Unlucky(ticks, i - 1) + (TWO_TO_32 - (ticks - 1))
    else Unlucky(ticks, i - 1) + 1
  }

  lemma {:induction false} UnluckyIs(ticks: nat, i: nat)
    requires 0 < ticks <= TWO_TO_32
    ensures Unlucky(ticks, i) % TWO_TO_32 == i % ticks
  {
    if i > 0 {
      UnluckyIs(ticks, i - 1);
      StepModulo(ticks, i);
      var t, r := Unlucky(ticks, i - 1), (i - 1) % ticks;
      if i % ticks == 0 {
        ModAddAll(t, ticks - 1);
      } else {
        ModAddSmall(t, 1, TWO_TO_32);
      }
    }
  }

  lemma StepModulo(ticks: nat, i: nat)
    requires 0 < ticks && 0 < i
    ensures i % ticks == if (i - 1) % ticks == ticks - 1 then 0 else (i - 1) % ticks + 1
  {
    var q, r := (i - 1) / ticks, (i - 1) % ticks;
    assert i == q * ticks + r + 1;
    if r == ticks - 1 {
      assert (q + 1) * ticks == q * ticks + ticks;
      DivModUnique(i, ticks, q + 1, 0);
    } else {
      DivModUnique(i, ticks, q, r + 1);
    }
  }

  lemma ModAddAll(t: nat, r: nat)
    requires t % TWO_TO_32 == r
    ensures (t + (TWO_TO_32 - r)) % TWO_TO_32 == 0
  {
    ModFill(t, TWO_TO_32);
  }

  /** If the gap can jump over the window, some loop is still waiting after any number of
      polls. */
  lemma MayNeverEnd(gap: nat, ticks: nat, n: nat)
    requires 0 < ticks <= TWO_TO_32 && TWO_TO_32 < ticks + gap && 0 < gap
    ensures !EndsWithin(gap, ticks, n)
  {
    var ts := seq(n + 1, (i: nat) => Unlucky(ticks, i));
    assert Polls(gap, ts);
    forall i | 0 < i < |ts|
      ensures Elapsed(U32(ts[i]), U32(ts[0])) < ticks
    {
      UnluckyIs(ticks, i);
      ElapsedIs(ts[i], 0);
    }
    assert StillWaiting(ticks, ts);
  }

  /** A delay of `ticks` ends within a bounded number of polls, whatever the polls, exactly
      if no gap between two polls can jump over the part of the counter's cycle in which it
      is seen to be over. The bound is then `ticks`. */
  lemma DelayEndsIff(gap: nat, ticks: nat)
    requires 0 < ticks < TWO_TO_32 && 0 < gap
    ensures (exists n :: EndsWithin(gap, ticks, n)) <==> ticks + gap <= TWO_TO_32
  {
    if ticks + gap <= TWO_TO_32 {
      EndsInTime(gap, ticks);
    } else {
      forall n: nat
        ensures !EndsWithin(gap, ticks, n)
      {
        MayNeverEnd(gap, ticks, n);
      }
    }
  }

  // ---------- conversions ----------

  /** StopWatch_MsToTicks and StopWatch_UsToTicks, for `per` ticks in the unit. */
  function ToTicks(x: nat, per: nat): nat { U32(x * per) }

  /** StopWatch_TicksToMs and StopWatch_TicksToUs. */
  function FromTicks(ticks: nat, per: nat): nat
    requires 0 < per
  {
    DivNonNegative(ticks, per);
    ticks / per
  }

  /** Converting to ticks and back gives the value back exactly if it did not overflow. */
  lemma RoundTripIff(x: nat, per: nat)
    requires 0 < per
    ensures FromTicks(ToTicks(x, per), per) == x <==> x * per < TWO_TO_32
  {
    var y := x * per;
    var t := U32(y);
    DivBounds(t, per);
    DivModUnique(y, per, x, 0);
    if y < TWO_TO_32 {
      assert t == y;
    } else {
      assert t < y;
    }
  }

  /** A conversion that overflows: a minute at 72 MHz is cut to 25,032,704 ticks. */
  lemma MinuteInstance()
    ensures ToTicks(60_000, 72_000_000 / 1000) == 25_032_704
  {
  }

  /** Converting from ticks and back rounds down by less than one unit. */
  lemma RoundsDown(ticks: nat, per: nat)
    requires 0 < per && ticks < TWO_TO_32
    ensures ToTicks(FromTicks(ticks, per), per) <= ticks < ToTicks(FromTicks(ticks, per), per) + per
  {
    DivBounds(ticks, per);
    DivNonNegative(ticks, per);
    var x := ticks / per;
    assert (x + 1) * per == x * per + per;
    assert 0 <= x * per < TWO_TO_32;
  }

  /** The precomputed rate f / unit makes a conversion short by less than one tick for each
      unit of time. */
  lemma Accuracy(x: nat, f: nat, unit: nat)
    requires 0 < unit && 0 < x
    requires x * (f / unit) < TWO_TO_32
    ensures f / unit >= 0 && ToTicks(x, f / unit) * unit <= x * f < (ToTicks(x, f / unit) + x) * unit
  {
    var per := f / unit;
    DivBounds(f, unit);
    DivNonNegative(f, unit);
    MulLe(x, per * unit, f);
    MulLe(x, f + 1, (per + 1) * unit);
    Rearrange(x, per, unit, f);
    assert 0 <= x * per;
  }

  /** A delay of at least the converted ticks, and of at least one, is short of x units by
      less than x ticks. */
  lemma LongEnough(x: nat, f: nat, unit: nat, elapsed: nat)
    requires 0 < unit && 0 < elapsed && f / unit >= 0 && ToTicks(x, f / unit) <= elapsed
    ensures x * (f / unit) < TWO_TO_32 ==> x * f < (elapsed + x) * unit
  {
    if x == 0 {
      MulLe(unit, 1, elapsed);
    } else if x * (f / unit) < TWO_TO_32 {
      Accuracy(x, f, unit);
      MulLe(unit, ToTicks(x, f / unit) + x, elapsed + x);
    }
  }

  lemma Rearrange(x: int, per: int, unit: int, f: int)
    ensures x * (per * unit) == x * per * unit
    ensures x * ((per + 1) * unit) == (x * per + x) * unit
    ensures x * (f + 1) == x * f + x
  {
  }

  // ---------- the timer ----------

  /** LPC_RITIMER_T with the time behind it: `now` counts true ticks. */
  class RiTimer {
    var COMPVAL: nat
    var COMPVAL_H: nat
    var CTRL: nat
    var COUNTER: nat
    var COUNTER_H: nat
    var now: nat
    const gap: nat

    constructor (maxGap: nat)
      ensures gap == maxGap && Counts()
    {
      COMPVAL, COMPVAL_H, CTRL, COUNTER, COUNTER_H := 0xFFFF_FFFF, 0xFFFF_FFFF, 0, 0, 0;
      now, gap := 0, maxGap;
    }

    /** The counter shows true time modulo 2^32. */
    predicate Counts()
      reads this
    {
      COUNTER == U32(now)
    }

    /** The hardware between two polls: some time passes. */
    method Advance()
      requires Counts() && 0 < gap
      modifies this`now, this`COUNTER
      ensures Counts() && old(now) < now <= old(now) + gap
    {
      var step: int := *;
      if step < 1 || step > gap {
        step := 1;
      }
      now := now + step;
      COUNTER := U32(now);
    }

    /** Chip_RIT_SetCTRL: sets the bits of val, keeps the four control bits and drops
        everything else. */
    method SetCTRL(val: nat)
      modifies this`CTRL
      ensures forall i: nat :: Bit(CTRL, i) <==> Bit(val, i) || (i < 4 && Bit(old(CTRL), i))
    {
      var reg := And(CTRL, 0xF);
      CTRL := Or(reg, val);
      forall i: nat
        ensures Bit(CTRL, i) <==> Bit(val, i) || (i < 4 && Bit(old(CTRL), i))
      {
        OrBit(reg, val, i);
        AndBit(old(CTRL), 0xF, i);
        LowFour(i);
      }
    }

    /** The low half goes to COMPVAL, the high half to COMPVAL_H. */
    method SetCompareValue(val: nat)
      requires val < TWO_TO_64
      modifies this`COMPVAL, this`COMPVAL_H
      ensures COMPVAL == val % TWO_TO_32 && COMPVAL_H == val / TWO_TO_32
      ensures GetCompareValue() == val
    {
      SplitJoin(val);
      COMPVAL := U32(val);
      COMPVAL_H := U32(val / TWO_TO_32);
    }

    function GetCompareValue(): (val: nat)
      reads this
      ensures COMPVAL < TWO_TO_32 ==> val == COMPVAL_H * TWO_TO_32 + COMPVAL
    {
      JoinIs(COMPVAL_H, COMPVAL);
      Join(COMPVAL_H, COMPVAL)
    }

    function GetCounter(): (val: nat)
      reads this
      ensures COUNTER < TWO_TO_32 ==> val == COUNTER_H * TWO_TO_32 + COUNTER
    {
      JoinIs(COUNTER_H, COUNTER);
      Join(COUNTER_H, COUNTER)
    }
  }

  lemma {:induction false} MaskBit(k: nat, i: nat)
    ensures Bit(Pow2(k) - 1, i) <==> i < k
  {
    if k == 0 {
      ZeroBits(i);
    } else {
      var m := Pow2(k - 1);
      assert (2 * m - 1) / 2 == m - 1 && (2 * m - 1) % 2 == 1;
      if i > 0 {
        MaskBit(k - 1, i - 1);
      }
    }
  }

  lemma LowFour(i: nat)
    ensures Bit(0xF, i) <==> i < 4
  {
    assert Pow2(4) == 16;
    MaskBit(4, i);
  }

  class StopWatch {
    var ticksPerSecond: nat
    var ticksPerMs: nat
    var ticksPerUs: nat
    const timer: RiTimer

    constructor (t: RiTimer)
      ensures timer == t
    {
      timer, ticksPerSecond, ticksPerMs, ticksPerUs := t, 0, 0, 0;
    }

    /** StopWatch_Init, which makes the counter restart behind 0xFFFFFFFF, on a timer that
        Chip_RIT_Init has reset to CTRL = 4. */
    method Init(systemClock: nat)
      modifies this, timer`COMPVAL, timer`COMPVAL_H, timer`CTRL
      ensures ticksPerSecond == systemClock && Calibrated()
      ensures ticksPerMs == systemClock / 1000 && ticksPerUs == systemClock / 1000000
      ensures timer.COMPVAL == 0xFFFF_FFFF && timer.COMPVAL_H == 0
      ensures forall i: nat :: Bit(timer.CTRL, i) <==> i in {1, 2, 3}
    {
      timer.CTRL := 4;
      timer.SetCompareValue(0xFFFF_FFFF);
      timer.SetCTRL(RIT_CTRL_ENCLR);
      timer.SetCTRL(RIT_CTRL_TEN);
      forall i: nat
        ensures Bit(timer.CTRL, i) <==> i in {1, 2, 3}
      {
        SingleBits(i);
      }
      ticksPerSecond := systemClock;
      ticksPerMs := ticksPerSecond / 1000;
      ticksPerUs := ticksPerSecond / 1000000;
    }

    /** StopWatch_Start: true time modulo 2^32. */
    method Start() returns (t: nat)
      requires timer.Counts()
      ensures t == U32(timer.now)
    {
      JoinLow(timer.COUNTER_H, timer.COUNTER);
      t := U32(timer.GetCounter());
    }

    /** One evaluation of StopWatch_Elapsed in a polling loop, some time after the last. */
    method PollElapsed(startTime: nat) returns (e: nat)
      requires timer.Counts() && 0 < timer.gap
      modifies timer`now, timer`COUNTER
      ensures timer.Counts() && old(timer.now) < timer.now <= old(timer.now) + timer.gap
      ensures e == Elapsed(U32(timer.now), startTime)
    {
      timer.Advance();
      var now := Start();
      e := U32(now - startTime);
    }

    /** StopWatch_DelayTicks, under the exact condition of DelayEndsIff: it returns after at
        most max(ticks, 1) polls, never before `ticks` true ticks have passed, and less than
        one gap later than that. */
    method DelayTicks(ticks: nat) returns (ghost polls: nat)
      requires timer.Counts() && 0 < timer.gap
      requires 0 < ticks ==> ticks + timer.gap <= TWO_TO_32
      modifies timer`now, timer`COUNTER
      ensures timer.Counts() && polls <= (if ticks == 0 then 1 else ticks)
      ensures ticks <= timer.now - old(timer.now) && old(timer.now) < timer.now
      ensures 0 < ticks ==> timer.now - old(timer.now) < ticks + timer.gap
    {
      var startTime := Start();
      ghost var t0 := timer.now;
      var e := PollElapsed(startTime);
      polls := 1;
      ElapsedIs(timer.now, t0);
      while e < ticks
        invariant timer.Counts() && 0 < polls <= timer.now - t0
        invariant e <= timer.now - t0
        invariant polls <= (if ticks == 0 then 1 else ticks)
        invariant 0 < ticks ==> e == timer.now - t0 < ticks + timer.gap
        decreases ticks - e
      {
        e := PollElapsed(startTime);
        polls := polls + 1;
        ElapsedIs(timer.now, t0);
      }
    }

    /** StopWatch_DelayMs and StopWatch_DelayUs, for a unit of which a second has `parts`:
        if the conversion does not overflow, the delay is short of x units by less than x
        ticks, if at all. */
    method DelayUnits(x: nat, per: nat, ghost parts: nat)
      requires timer.Counts() && 0 < timer.gap
      requires 0 < parts && per == ticksPerSecond / parts
      requires 0 < ToTicks(x, per) ==> ToTicks(x, per) + timer.gap <= TWO_TO_32
      modifies timer`now, timer`COUNTER
      ensures timer.Counts() && ToTicks(x, per) <= timer.now - old(timer.now)
      ensures 0 < ToTicks(x, per) ==> timer.now - old(timer.now) < ToTicks(x, per) + timer.gap
      ensures x * per < TWO_TO_32 ==> x * ticksPerSecond < (timer.now - old(timer.now) + x) * parts
    {
      hide U32;
      var ticks := ToTicks(x, per);
      ghost var t0 := timer.now;
      ghost var polls := DelayTicks(ticks);
      LongEnough(x, ticksPerSecond, parts, timer.now - t0);
    }

    predicate Calibrated()
      reads this
    {
      ticksPerMs == ticksPerSecond / 1000 && ticksPerUs == ticksPerSecond / 1000000
    }

    method DelayMs(mS: nat)
      requires timer.Counts() && 0 < timer.gap && Calibrated()
      requires 0 < mS * ticksPerMs % TWO_TO_32 ==> mS * ticksPerMs % TWO_TO_32 + timer.gap <= TWO_TO_32
      modifies timer`now, timer`COUNTER
      ensures timer.Counts() && mS * ticksPerMs % TWO_TO_32 <= timer.now - old(timer.now)
      ensures 0 < mS * ticksPerMs % TWO_TO_32 ==> timer.now - old(timer.now) < mS * ticksPerMs % TWO_TO_32 + timer.gap
      ensures mS * ticksPerMs < TWO_TO_32 ==> mS * ticksPerSecond < (timer.now - old(timer.now) + mS) * 1000
    {
      DelayUnits(mS, ticksPerMs, 1000);
    }

    method DelayUs(uS: nat)
      requires timer.Counts() && 0 < timer.gap && Calibrated()
      requires 0 < uS * ticksPerUs % TWO_TO_32 ==> uS * ticksPerUs % TWO_TO_32 + timer.gap <= TWO_TO_32
      modifies timer`now, timer`COUNTER
      ensures timer.Counts() && uS * ticksPerUs % TWO_TO_32 <= timer.now - old(timer.now)
      ensures 0 < uS * ticksPerUs % TWO_TO_32 ==> timer.now - old(timer.now) < uS * ticksPerUs % TWO_TO_32 + timer.gap
      ensures uS * ticksPerUs < TWO_TO_32 ==> uS * ticksPerSecond < (timer.now - old(timer.now) + uS) * 1000000
    {
      DelayUnits(uS, ticksPerUs, 1000000);
    }
  }

  lemma SingleBits(i: nat)
    ensures Bit(2, i) <==> i == 1
    ensures Bit(4, i) <==> i == 2
    ensures Bit(8, i) <==> i == 3
  {
    PowerBit(1, i);
    PowerBit(2, i);
    PowerBit(3, i);
    assert Pow2(1) == 2 && Pow2(2) == 4 && Pow2(3) == 8;
  }

  lemma {:induction false} PowerBit(k: nat, i: nat)
    ensures Bit(Pow2(k), i) <==> i == k
  {
    if k == 0 {
      if i > 0 {
        ZeroBits(i - 1);
        assert Bit(1, i) <==> Bit(0, i - 1);
      }
    } else {
      assert Pow2(k) / 2 == Pow2(k - 1) && Pow2(k) % 2 == 0;
      if i > 0 {
        PowerBit(k - 1, i - 1);
      }
    }
  }
}
