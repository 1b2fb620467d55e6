/** The rate-limited executor as a step function. Its state is the task
    deque, whether the last started task is done, the instant it is paused
    until, the extra delay it waits after starting a task, and the fixed
    cadence its scheduler ticks at.

    Nothing here runs a task or a timer: the scheduler's tick is `Tick`
    with the current time `now` passed in, in milliseconds, and the
    completion of the last started task is the separate step
    `TaskFinished`. A java.time.Duration is a whole number of
    nanoseconds. */
module RateLimiter {
  import opened Results

  /** java.time.Duration as nanoseconds. */
  type Duration = int

  /** An instant of the executor's clock, in milliseconds. */
  type Millis = int

  const NanosPerMilli: int := 1_000_000
  const NanosPerSecond: int := 1_000_000_000

  function Abs(x: int): nat {
    if x < 0 then -x else x
  }

  lemma DivBounds(x: nat, y: nat)
    requires y > 0
    ensures 0 <= (x / y) * y <= x < (x / y) * y + y
  {
  }

  lemma DivPositive(x: nat, y: nat)
    requires y > 0
    ensures x / y >= 0
    ensures x / y > 0 ==> x >= y
  {
    DivBounds(x, y);
    if x / y > 0 {
      assert (x / y) * y >= y;
    }
  }

  /** Java's integer division, which rounds toward zero: the quotient's
      magnitude is that of the operands' quotient rounded down, its sign
      the product of theirs. */
  function Quot(a: int, b: int): (q: int)
    requires b != 0
    ensures Abs(q) == Abs(a) / Abs(b)
    ensures q > 0 ==> (a > 0) == (b > 0)
    ensures q < 0 ==> (a > 0) != (b > 0)
  {
    var x: nat := Abs(a);
    var y: nat := Abs(b);
    var n: int := x / y;
    DivPositive(x, y);
    if (a < 0) == (b < 0) then n else -n
  }

  /** For a positive divisor, `Quot(a, b) * b` lies between zero and `a`,
      less than `b` away from `a`. */
  lemma QuotPos(a: int, b: int)
    requires b > 0
    ensures a >= 0 ==> 0 <= Quot(a, b) * b <= a < Quot(a, b) * b + b
    ensures a < 0 ==> a <= Quot(a, b) * b <= 0 && Quot(a, b) * b < a + b
  {
    var n := Abs(a) / b;
    DivBounds(Abs(a), b);
    if a < 0 {
      assert Quot(a, b) == -n;
      assert (-n) * b == -(n * b);
    } else {
      assert Quot(a, b) == n;
    }
  }

  /** Duration.dividedBy(long): the quotient rounded toward zero at
      nanosecond precision; a zero divisor throws. */
  function DividedBy(d: Duration, divisor: int): (r: Result<Duration>)
    ensures r.Failure? <==> divisor == 0
    ensures r.Failure? ==> r.error == Arithmetic("Cannot divide by zero")
    ensures r.Success? && divisor > 0 && d >= 0 ==> divisor * r.value <= d < divisor * (r.value + 1)
  {
    if divisor == 0 then Failure(Arithmetic("Cannot divide by zero"))
    else
      if divisor > 0 then QuotPos(d, divisor); Success(Quot(d, divisor))
      else Success(Quot(d, divisor))
  }

  /** Duration.getSeconds: whole seconds, rounded down (the nanosecond part
      of a Duration is never negative). */
  function GetSeconds(d: Duration): (s: int)
    ensures s * NanosPerSecond <= d < (s + 1) * NanosPerSecond
  {
    d / NanosPerSecond
  }

  /** Duration.toMillis: whole milliseconds, rounded toward zero. */
  function ToMillis(d: Duration): (m: int)
    ensures d >= 0 ==> 0 <= m * NanosPerMilli <= d < (m + 1) * NanosPerMilli
    ensures d < 0 ==> d <= m * NanosPerMilli <= 0 && m * NanosPerMilli < d + NanosPerMilli
  {
    QuotPos(d, NanosPerMilli);
    Quot(d, NanosPerMilli)
  }

  datatype TimeUnit = Milliseconds | Seconds

  /** The record TimeWithUnit: an amount of a unit. */
  datatype Delay = Delay(amount: int, unit: TimeUnit)

  function UnitNanos(u: TimeUnit): nat {
    match u
    case Milliseconds => NanosPerMilli
    case Seconds => NanosPerSecond
  }

  /** The unit in milliseconds, as `Instant.plus` with the unit's ChronoUnit
      counts it. */
  function UnitMillis(u: TimeUnit): nat {
    match u
    case Milliseconds => 1
    case Seconds => 1000
  }

  function DelayNanos(d: Delay): int {
    d.amount * UnitNanos(d.unit)
  }

  function DelayMillis(d: Delay): int {
    d.amount * UnitMillis(d.unit)
  }

  /** getDelay: a duration under 1000 whole seconds becomes milliseconds,
      a longer one seconds; either way truncated to a whole number of the
      unit, so the delay never exceeds a non-negative duration and falls
      short of it by less than one unit. */
  function GetDelay(d: Duration): (r: Delay)
    ensures r.unit == Milliseconds <==> d < 1000 * NanosPerSecond
    ensures d >= 0 ==> 0 <= DelayNanos(r) <= d < DelayNanos(r) + UnitNanos(r.unit)
    ensures d < 0 ==> d <= DelayNanos(r) <= 0 && DelayNanos(r) < d + NanosPerMilli
  {
    if GetSeconds(d) < 1000 then Delay(ToMillis(d), Milliseconds)
    else Delay(GetSeconds(d), Seconds)
  }

  // ---------------------------------------------------------------------
  // The executor

  /** `queue` is the task deque, head first; `lastDone` says whether the
      last started task has completed; `rateLimitedUntil` is the pause;
      `extraDelay` is the wait after each start; `cadence` is the fixed
      delay between the scheduler's ticks. */
  datatype Executor<T> = Executor(
    queue: seq<T>,
    lastDone: bool,
    rateLimitedUntil: Option<Millis>,
    extraDelay: Option<Delay>,
    cadence: Delay)

  /** The constructor: the scheduler ticks every `window / maxTasksPer`,
      converted by getDelay. A zero `maxTasksPer` fails the division, and
      a cadence that is not positive is refused by
      scheduleWithFixedDelay. */
  function Create<T>(maxTasksPer: int, window: Duration): (r: Result<Executor<T>>)
    ensures maxTasksPer == 0 ==> r == Failure(Arithmetic("Cannot divide by zero"))
    ensures maxTasksPer != 0 ==>
      (r.Success? <==> GetDelay(Quot(window, maxTasksPer)).amount > 0)
    ensures r.Success? ==>
      r.value == Executor([], true, None, None, GetDelay(Quot(window, maxTasksPer)))
  {
    var between :- DividedBy(window, maxTasksPer);
    var cadence := GetDelay(between);
    if cadence.amount <= 0 then Failure(IllegalArgument)
    else Success(Executor([], true, None, None, cadence))
  }

  /** execute: the task joins the tail of the deque. */
  function Execute<T>(ex: Executor<T>, task: T): (r: Executor<T>)
    ensures r.queue == ex.queue + [task]
    ensures r.(queue := ex.queue) == ex
  {
    ex.(queue := ex.queue + [task])
  }

  /** retry: the task goes to the head of the deque. */
  function Retry<T>(ex: Executor<T>, task: T): (r: Executor<T>)
    ensures r.queue == [task] + ex.queue
    ensures r.(queue := ex.queue) == ex
  {
    ex.(queue := [task] + ex.queue)
  }

  /** markRateLimited: the pause becomes `until`, replacing any earlier
      one, whether it ends sooner or later. */
  function MarkRateLimited<T>(ex: Executor<T>, until: Millis): (r: Executor<T>)
    ensures r.rateLimitedUntil == Some(until)
    ensures r.(rateLimitedUntil := ex.rateLimitedUntil) == ex
  {
    ex.(rateLimitedUntil := Some(until))
  }

  /** updateLimits: the extra delay becomes `untilReset / remaining`,
      converted by getDelay. A zero `remaining` throws and changes
      nothing. */
  function UpdateLimits<T>(ex: Executor<T>, remaining: int, untilReset: Duration): (r: Result<Executor<T>>)
    ensures r.Failure? <==> remaining == 0
    ensures r.Success? ==> r.value.(extraDelay := ex.extraDelay) == ex
    ensures r.Success? ==> r.value.extraDelay == Some(GetDelay(Quot(untilReset, remaining)))
  {
    var per :- DividedBy(untilReset, remaining);
    Success(ex.(extraDelay := Some(GetDelay(per))))
  }

  /** The last started task completes. */
  function TaskFinished<T>(ex: Executor<T>): (r: Executor<T>)
    ensures r.lastDone
    ensures r.(lastDone := ex.lastDone) == ex
  {
    ex.(lastDone := true)
  }

  /** Whether a tick at `now` may start a task: the last one is done and
      `now` is not before the pause. */
  predicate Ready<T>(ex: Executor<T>, now: Millis) {
    ex.lastDone && (ex.rateLimitedUntil.None? || now >= ex.rateLimitedUntil.value)
  }

  /** consumeTask: one tick of the scheduler at `now`, giving the next
      state and the task it started, if any. While the last task runs or
      `now` is before the pause nothing changes. Otherwise the pause is
      cleared, and the head task, if there is one, is taken off the deque
      and started; with an extra delay set, the executor then pauses until
      `now` plus that delay. */
  function Tick<T>(ex: Executor<T>, now: Millis): (r: (Executor<T>, Option<T>))
    ensures !Ready(ex, now) ==> r == (ex, None)
    ensures Ready(ex, now) && |ex.queue| == 0 ==> r == (ex.(rateLimitedUntil := None), None)
    ensures r.1.Some? <==> Ready(ex, now) && |ex.queue| > 0
    ensures r.1.Some? ==> r.1.value == ex.queue[0] && [r.1.value] + r.0.queue == ex.queue
    ensures r.1.Some? ==> !r.0.lastDone
    ensures r.1.Some? ==>
      r.0.rateLimitedUntil == (if ex.extraDelay.Some? then Some(now + DelayMillis(ex.extraDelay.value)) else None)
    ensures r.0.extraDelay == ex.extraDelay && r.0.cadence == ex.cadence
  {
    if !ex.lastDone then (ex, None)
    else if ex.rateLimitedUntil.Some? && now < ex.rateLimitedUntil.value then (ex, None)
    else
      var cleared := ex.(rateLimitedUntil := None);
      if |cleared.queue| == 0 then (cleared, None)
      else
        var task := cleared.queue[0];
        var started := cleared.(queue := cleared.queue[1..], lastDone := false);
        match ex.extraDelay
        case None => (started, Some(task))
        case Some(d) => (MarkRateLimited(started, now + DelayMillis(d)), Some(task))
  }
}
