/**
 * The tick-gating timer of src/engine/timer.cpp.
 *
 * `TickTimer::Now()` reads the wall clock; here every reading of the clock is
 * a parameter. `ShouldTick` reads the clock twice (once to measure the elapsed
 * time, once to stamp the new tick), so it takes two readings.
 */
module Timer {

  /** C++ `/` on integers: the quotient is truncated toward zero. */
  function TruncDiv(a: int, b: int): (q: int)
    requires b != 0
    ensures var m := a - b * q;
            (if m < 0 then -m else m) < (if b < 0 then -b else b) &&
            (m == 0 || (m < 0) == (a < 0))
  {
    if a >= 0 then
      if b > 0 then a / b else -(a / -b)
    else
      if b > 0 then -((-a) / b) else (-a) / (-b)
  }

  const INT32_MODULUS: int := 0x1_0000_0000

  /** `static_cast<int>` of a 64-bit value: keeps the low 32 bits, as two's complement. */
  function ToInt32(x: int): (r: int)
    ensures -0x8000_0000 <= r < 0x8000_0000
    ensures (r - x) % INT32_MODULUS == 0
  {
    (x + 0x8000_0000) % INT32_MODULUS - 0x8000_0000
  }

  /** The tick length, in milliseconds, the constructor derives from a rate. */
  function TickLength(ticksPerSecond: int): (t: int)
    requires ticksPerSecond != 0
    ensures ticksPerSecond > 0 ==> ticksPerSecond * t <= 1000 < ticksPerSecond * t + ticksPerSecond
  {
    TruncDiv(1000, ticksPerSecond)
  }

  /** One call of `ShouldTick` on the state `lastTick`: its answer and the new `lastTick`. */
  function Step(lastTick: int, tickTime: int, check: int, stamp: int): (r: (bool, int))
    ensures !r.0 ==> r.1 == lastTick
    ensures lastTick <= check <= stamp ==> lastTick <= r.1 <= stamp && (r.0 ==> r.1 - lastTick >= tickTime)
  {
    if check - lastTick >= tickTime then (true, stamp) else (false, lastTick)
  }

  /** The two clock readings one call of `ShouldTick` makes. */
  datatype Reading = Reading(check: int, stamp: int)

  /** A clock that never goes back: within each call and from one call to the next. */
  ghost predicate Monotone(from: int, readings: seq<Reading>)
  {
    && (|readings| > 0 ==> from <= readings[0].check)
    && (forall i :: 0 <= i < |readings| ==> readings[i].check <= readings[i].stamp)
    && (forall i :: 0 < i < |readings| ==> readings[i - 1].stamp <= readings[i].check)
  }

  /** Calls `ShouldTick` once per reading: how many calls answered true, and the final `lastTick`. */
  function Run(lastTick: int, tickTime: int, readings: seq<Reading>): (r: (nat, int))
    ensures r.0 <= |readings|
    decreases |readings|
  {
    if readings == [] then (0, lastTick)
    else
      var step := Step(lastTick, tickTime, readings[0].check, readings[0].stamp);
      var rest := Run(step.1, tickTime, readings[1..]);
      (if step.0 then rest.0 + 1 else rest.0, rest.1)
  }

  /** Example from src/main.cpp: 20 ticks per second is one tick every 50 ms. */
  lemma TwentyTicksPerSecond()
    ensures TickLength(20) == 50
  {
  }

  /** More than 1000 ticks per second truncates the tick length to zero. */
  lemma FastRateHasZeroTickLength(ticksPerSecond: int)
    requires ticksPerSecond > 1000
    ensures TickLength(ticksPerSecond) == 0
  {
    var q := 1000 / ticksPerSecond;
    assert ticksPerSecond * q <= 1000;
  }

  /** With a positive tick length and a clock that has not advanced, a true answer is followed by false. */
  lemma NoDoubleTick(lastTick: int, tickTime: int, now: int)
    requires tickTime > 0
    requires Step(lastTick, tickTime, now, now).0
    ensures Step(lastTick, tickTime, now, now).1 == now
    ensures !Step(now, tickTime, now, now).0
  {
  }

  /** Dropping the first reading keeps the clock monotone from any stamp up to that reading's own. */
  lemma MonotoneTail(from: int, readings: seq<Reading>, next: int)
    requires readings != [] && Monotone(from, readings)
    requires next <= readings[0].stamp
    ensures Monotone(next, readings[1..])
  {
    var rest := readings[1..];
    if rest != [] {
      assert rest[0] == readings[1];
    }
    forall i | 0 < i < |rest| ensures rest[i - 1].stamp <= rest[i].check {
      assert rest[i - 1] == readings[i] && rest[i] == readings[i + 1];
    }
  }

  /**
   * Rate limit: on a clock that never goes back, every tick consumes at least
   * one tick length, so the timer fires at most (elapsed / tickTime) times.
   */
  lemma {:induction false} RunRateLimited(lastTick: int, tickTime: int, readings: seq<Reading>)
    requires tickTime >= 0
    requires Monotone(lastTick, readings)
    ensures Run(lastTick, tickTime, readings).0 * tickTime <= Run(lastTick, tickTime, readings).1 - lastTick
    ensures readings != [] ==> Run(lastTick, tickTime, readings).1 <= readings[|readings| - 1].stamp
    decreases |readings|
  {
    if readings != [] {
      var r := readings[0];
      var step := Step(lastTick, tickTime, r.check, r.stamp);
      var rest := readings[1..];
      MonotoneTail(lastTick, readings, step.1);
      RunRateLimited(step.1, tickTime, rest);
      var n := Run(step.1, tickTime, rest).0;
      assert Run(lastTick, tickTime, readings).0 == if step.0 then n + 1 else n;
      assert Run(lastTick, tickTime, readings).1 == Run(step.1, tickTime, rest).1;
      if step.0 {
        assert (n + 1) * tickTime == n * tickTime + tickTime;
      }
      if rest != [] {
        assert rest[|rest| - 1] == readings[|readings| - 1];
      }
    }
  }

  /** The timer of src/engine/timer.cpp: the last tick's stamp and the tick length, in milliseconds. */
  class TickTimer {
    var lastTick: int
    var tickTime: int

    /** `TickTimer(ticksPerSecond)`: derives the tick length and resets to the current time. */
    constructor(ticksPerSecond: int, now: int)
      requires ticksPerSecond != 0
      ensures tickTime == TickLength(ticksPerSecond)
      ensures lastTick == now
    {
      tickTime := TruncDiv(1000, ticksPerSecond);
      lastTick := now;
    }

    /** `Reset()`: the last tick is now. */
    method Reset(now: int)
      modifies this`lastTick
      ensures lastTick == now
    {
      lastTick := now;
    }

    /** `GetElapsedMillis()`: milliseconds since the last tick. */
    function ElapsedMillis(now: int): (ms: int)
      reads this
      ensures lastTick + ms == now
    {
      now - lastTick
    }

    /** `ShouldTick()`: true when a tick is due; a due tick is stamped with the second clock reading. */
    method ShouldTick(check: int, stamp: int) returns (due: bool)
      modifies this`lastTick
      ensures due <==> check - old(lastTick) >= tickTime
      ensures lastTick == if due then stamp else old(lastTick)
      ensures (due, lastTick) == Step(old(lastTick), tickTime, check, stamp)
    {
      var elapsed := ElapsedMillis(check);
      if elapsed >= tickTime {
        lastTick := stamp;
        due := true;
      } else {
        due := false;
      }
    }

    /**
     * `GetElapsedTicks()`: whole ticks since the last tick. Both operands are
     * cast to 32-bit `int` first; a zero tick length (rates above 1000) divides by zero,
     * and `INT_MIN / -1` overflows. Both are undefined behaviour and are excluded.
     */
    function ElapsedTicks(now: int): (ticks: int)
      reads this
      requires ToInt32(tickTime) != 0
      requires !(ToInt32(tickTime) == -1 && ToInt32(now - lastTick) == -0x8000_0000)
      ensures -0x8000_0000 <= ticks < 0x8000_0000
      ensures var ms, t := ToInt32(now - lastTick), ToInt32(tickTime);
              0 <= ms && 0 < t ==> ticks * t <= ms < (ticks + 1) * t
    {
      TruncDiv(ToInt32(ElapsedMillis(now)), ToInt32(tickTime))
    }
  }
}
