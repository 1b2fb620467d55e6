/** Properties of the rate-limited executor over whole runs: tasks are
    neither lost nor duplicated, they start in queue order with retried
    tasks first, one at a time, never during a pause, and spaced by the
    extra delay; and the cadence and the extra delay spread the quota over
    its window. */
module RateLimiterProperties {
  import opened Results
  import opened RateLimiter

  // ---------------------------------------------------------------------
  // Runs

  /** Something that happens to the executor: a call of execute, retry,
      markRateLimited or updateLimits, the completion of the running task,
      or a tick of the scheduler at a time. */
  datatype Event<T> =
    | Submitted(task: T)
    | Retried(task: T)
    | RateLimited(until: Millis)
    | LimitsUpdated(remaining: int, untilReset: Duration)
    | Finished
    | Ticked(now: Millis)

  /** A task started by a tick, and the tick's time. */
  datatype Start<T> = Start(task: T, at: Millis)

  /** The state after one event and the task it started, if any. A failing
      updateLimits throws to its caller and leaves the executor as it
      was. */
  function Step<T>(ex: Executor<T>, e: Event<T>): (Executor<T>, Option<Start<T>>) {
    match e
    case Submitted(t) => (Execute(ex, t), None)
    case Retried(t) => (Retry(ex, t), None)
    case RateLimited(until) => (MarkRateLimited(ex, until), None)
    case LimitsUpdated(remaining, untilReset) =>
      (match UpdateLimits(ex, remaining, untilReset)
       case Success(next) => next
       case Failure(_) => ex, None)
    case Finished => (TaskFinished(ex), None)
    case Ticked(now) =>
      var t := Tick(ex, now);
      (t.0, if t.1.Some? then Some(Start(t.1.value, now)) else None)
  }

  datatype Trace<T> = Trace(last: Executor<T>, starts: seq<Start<T>>)

  /** The final state after a sequence of events, and every task started
      on the way, in order. */
  function Run<T>(ex: Executor<T>, es: seq<Event<T>>): Trace<T>
    decreases |es|
  {
    if |es| == 0 then Trace(ex, [])
    else
      var s := Step(ex, es[0]);
      var rest := Run(s.0, es[1..]);
      Trace(rest.last, OptionSeq(s.1) + rest.starts)
  }

  function OptionSeq<T>(o: Option<T>): (r: seq<T>)
    ensures |r| <= 1
  {
    if o.Some? then [o.value] else []
  }

  function Tasks<T>(ss: seq<Start<T>>): (r: seq<T>)
    ensures |r| == |ss|
    ensures forall i :: 0 <= i < |ss| ==> r[i] == ss[i].task
  {
    seq(|ss|, i requires 0 <= i < |ss| => ss[i].task)
  }

  /** The tasks handed to execute or retry in a sequence of events. */
  function Added<T>(es: seq<Event<T>>): seq<T> {
    if |es| == 0 then []
    else (if es[0].Submitted? || es[0].Retried? then [es[0].task] else []) + Added(es[1..])
  }

  function FinishCount<T>(es: seq<Event<T>>): nat {
    if |es| == 0 then 0 else (if es[0].Finished? then 1 else 0) + FinishCount(es[1..])
  }

  predicate NoRetries<T>(es: seq<Event<T>>) {
    forall i :: 0 <= i < |es| ==> !es[i].Retried?
  }

  predicate NoRateLimits<T>(es: seq<Event<T>>) {
    forall i :: 0 <= i < |es| ==> !es[i].RateLimited?
  }

  predicate NoLimitUpdates<T>(es: seq<Event<T>>) {
    forall i :: 0 <= i < |es| ==> !es[i].LimitsUpdated?
  }

  /** The ticks in `es` come at non-decreasing times, none before
      `clock`. */
  predicate TicksFrom<T>(es: seq<Event<T>>, clock: Millis)
    decreases |es|
  {
    |es| == 0 ||
    (if es[0].Ticked? then es[0].now >= clock && TicksFrom(es[1..], es[0].now)
     else TicksFrom(es[1..], clock))
  }

  lemma TasksAppend<T>(a: seq<Start<T>>, b: seq<Start<T>>)
    ensures Tasks(a + b) == Tasks(a) + Tasks(b)
  {
  }

  // ---------------------------------------------------------------------
  // No task is lost or duplicated, and the deque is first in, first out

  /** The tasks an event adds and starts. */
  lemma StepParts<T>(ex: Executor<T>, e: Event<T>)
    ensures Added([e]) == if e.Submitted? || e.Retried? then [e.task] else []
    ensures Step(ex, e).1.Some? ==> e.Ticked? && Tick(ex, e.now).1.Some?
    ensures Tasks(OptionSeq(Step(ex, e).1)) == if Step(ex, e).1.Some? then [ex.queue[0]] else []
  {
    assert [e][1..] == [];
  }

  /** One event: the task it started and the deque after it hold the
      deque before it and the task it added. */
  lemma StepConserves<T>(ex: Executor<T>, e: Event<T>)
    ensures multiset(Tasks(OptionSeq(Step(ex, e).1))) + multiset(Step(ex, e).0.queue) ==
      multiset(ex.queue) + multiset(Added([e]))
  {
    if e.Retried? {
      StepParts(ex, e);
      assert Step(ex, e).0.queue == [e.task] + ex.queue;
      BagsOfJoins([], [e.task] + ex.queue, ex.queue, [e.task]);
    } else {
      StepInOrder(ex, e);
      BagsOfJoins(Tasks(OptionSeq(Step(ex, e).1)), Step(ex, e).0.queue, ex.queue, Added([e]));
    }
  }

  lemma BagsOfJoins<T>(a: seq<T>, b: seq<T>, c: seq<T>, d: seq<T>)
    requires a + b == c + d || a + b == d + c
    ensures multiset(a) + multiset(b) == multiset(c) + multiset(d)
  {
    assert multiset(a + b) == multiset(a) + multiset(b);
    assert multiset(c + d) == multiset(c) + multiset(d);
    assert multiset(d + c) == multiset(d) + multiset(c);
  }

  /** Without retries, the task an event starts comes off the head of the
      deque and the task it adds goes on the tail. */
  lemma StepInOrder<T>(ex: Executor<T>, e: Event<T>)
    requires !e.Retried?
    ensures Tasks(OptionSeq(Step(ex, e).1)) + Step(ex, e).0.queue == ex.queue + Added([e])
  {
    StepParts(ex, e);
    if e.Ticked? && Tick(ex, e.now).1.Some? {
      assert ex.queue == [ex.queue[0]] + Step(ex, e).0.queue;
    } else if e.Submitted? {
      assert Step(ex, e).0.queue == ex.queue + [e.task];
    } else {
      assert Step(ex, e).0.queue == ex.queue;
      assert ex.queue + [] == ex.queue;
    }
  }

  /** Two steps of first-in, first-out bookkeeping chain into one. */
  lemma ChainInOrder<T>(first: seq<T>, mid: seq<T>, later: seq<T>, last: seq<T>, init: seq<T>, add0: seq<T>, add1: seq<T>)
    requires first + mid == init + add0
    requires later + last == mid + add1
    ensures (first + later) + last == init + (add0 + add1)
  {
    calc {
      (first + later) + last;
      first + (later + last);
      first + (mid + add1);
      (first + mid) + add1;
      (init + add0) + add1;
    }
  }

  lemma ChainConserves<T>(first: seq<T>, mid: seq<T>, later: seq<T>, last: seq<T>, init: seq<T>, add0: seq<T>, add1: seq<T>)
    requires multiset(first) + multiset(mid) == multiset(init) + multiset(add0)
    requires multiset(later) + multiset(last) == multiset(mid) + multiset(add1)
    ensures multiset(first + later) + multiset(last) == multiset(init) + multiset(add0 + add1)
  {
    calc {
      multiset(first + later) + multiset(last);
      multiset(first) + (multiset(later) + multiset(last));
      multiset(first) + (multiset(mid) + multiset(add1));
      (multiset(first) + multiset(mid)) + multiset(add1);
      (multiset(init) + multiset(add0)) + multiset(add1);
      multiset(init) + multiset(add0 + add1);
    }
  }

  lemma AddedCons<T>(es: seq<Event<T>>)
    requires |es| > 0
    ensures Added(es) == Added([es[0]]) + Added(es[1..])
  {
    assert [es[0]][1..] == [];
  }

  /** Every task ever queued is either started or still queued, once
      each. */
  lemma {:induction false} RunConserves<T>(ex: Executor<T>, es: seq<Event<T>>)
    ensures multiset(Tasks(Run(ex, es).starts)) + multiset(Run(ex, es).last.queue) ==
      multiset(ex.queue) + multiset(Added(es))
    decreases |es|
  {
    if |es| > 0 {
      var s := Step(ex, es[0]);
      var rest := Run(s.0, es[1..]);
      assert Run(ex, es) == Trace(rest.last, OptionSeq(s.1) + rest.starts);
      StepConserves(ex, es[0]);
      RunConserves(s.0, es[1..]);
      TasksAppend(OptionSeq(s.1), rest.starts);
      AddedCons(es);
      ChainConserves(Tasks(OptionSeq(s.1)), s.0.queue, Tasks(rest.starts), rest.last.queue,
                     ex.queue, Added([es[0]]), Added(es[1..]));
    }
  }

  /** Without retries, tasks start in the order they were queued: the
      started tasks followed by the remaining deque are the initial deque
      followed by the tasks executed. */
  lemma {:induction false} RunInOrder<T>(ex: Executor<T>, es: seq<Event<T>>)
    requires NoRetries(es)
    ensures Tasks(Run(ex, es).starts) + Run(ex, es).last.queue == ex.queue + Added(es)
    decreases |es|
  {
    if |es| > 0 {
      var s := Step(ex, es[0]);
      var rest := Run(s.0, es[1..]);
      assert Run(ex, es) == Trace(rest.last, OptionSeq(s.1) + rest.starts);
      assert NoRetries(es[1..]) by {
        assert forall i :: 0 <= i < |es[1..]| ==> es[1..][i] == es[i + 1];
      }
      assert !es[0].Retried?;
      StepInOrder(ex, es[0]);
      RunInOrder(s.0, es[1..]);
      TasksAppend(OptionSeq(s.1), rest.starts);
      AddedCons(es);
      ChainInOrder(Tasks(OptionSeq(s.1)), s.0.queue, Tasks(rest.starts), rest.last.queue,
                   ex.queue, Added([es[0]]), Added(es[1..]));
    }
  }

  // ---------------------------------------------------------------------
  // One task at a time

  /** A task starts only after the previous one has finished: the starts,
      plus one while the last started task is done, never exceed the
      completions, plus one if the executor began idle. */
  lemma {:induction false} OneAtATime<T>(ex: Executor<T>, es: seq<Event<T>>)
    ensures |Run(ex, es).starts| + (if Run(ex, es).last.lastDone then 1 else 0) <=
      FinishCount(es) + (if ex.lastDone then 1 else 0)
    decreases |es|
  {
    if |es| > 0 {
      var s := Step(ex, es[0]);
      OneAtATime(s.0, es[1..]);
      if es[0].Ticked? && Tick(ex, es[0].now).1.Some? {
        assert ex.lastDone && !s.0.lastDone;
      }
    }
  }

  // ---------------------------------------------------------------------
  // Pauses

  /** While the head of the deque is `a` and the executor is paused until
      `t`, and nothing retries or re-marks, the first task to start is `a`,
      at `t` or later. */
  lemma {:induction false} PausedHeadWaits<T>(ex: Executor<T>, es: seq<Event<T>>, a: T, t: Millis)
    requires |ex.queue| > 0 && ex.queue[0] == a && ex.rateLimitedUntil == Some(t)
    requires NoRetries(es) && NoRateLimits(es)
    ensures |Run(ex, es).starts| > 0 ==> Run(ex, es).starts[0].task == a && Run(ex, es).starts[0].at >= t
    decreases |es|
  {
    if |es| > 0 {
      var s := Step(ex, es[0]);
      if s.1.None? {
        assert |s.0.queue| > 0 && s.0.queue[0] == a && s.0.rateLimitedUntil == Some(t) by {
          if es[0].Submitted? {
            assert s.0.queue == ex.queue + [es[0].task];
          }
        }
        assert NoRetries(es[1..]) && NoRateLimits(es[1..]) by {
          assert forall i :: 0 <= i < |es[1..]| ==> es[1..][i] == es[i + 1];
        }
        PausedHeadWaits(s.0, es[1..], a, t);
      }
    }
  }

  /** A task that hit the rate limit is retried and the executor paused
      until `t`: as long as nothing else retries or pauses, it is the first
      task to start, no task starts before `t`, and the rest follow in
      their order. */
  lemma RetriedTaskFirst<T>(ex: Executor<T>, a: T, t: Millis, es: seq<Event<T>>)
    requires NoRetries(es) && NoRateLimits(es)
    ensures var tr := Run(MarkRateLimited(Retry(ex, a), t), es);
      |tr.starts| > 0 ==> tr.starts[0].task == a && tr.starts[0].at >= t
    ensures var tr := Run(MarkRateLimited(Retry(ex, a), t), es);
      Tasks(tr.starts) + tr.last.queue == [a] + ex.queue + Added(es)
  {
    var paused := MarkRateLimited(Retry(ex, a), t);
    PausedHeadWaits(paused, es, a, t);
    RunInOrder(paused, es);
  }

  /** Consecutive starts at least `gap` apart. */
  predicate Spaced<T>(ss: seq<Start<T>>, gap: int) {
    forall i :: 0 <= i < |ss| - 1 ==> ss[i].at + gap <= ss[i + 1].at
  }

  /** The spacing invariant: after a start at `last`, the executor is
      either paused until `last` plus the extra delay, or was already
      cleared by a tick at `clock` that is no earlier than that. */
  predicate SpacedSince<T>(ex: Executor<T>, d: Delay, clock: Millis, last: Option<Millis>) {
    last.Some? ==>
      (ex.rateLimitedUntil == Some(last.value + DelayMillis(d)) ||
       (ex.rateLimitedUntil.None? && clock >= last.value + DelayMillis(d)))
  }

  lemma {:induction false} SpacedRun<T>(ex: Executor<T>, es: seq<Event<T>>, d: Delay, clock: Millis, last: Option<Millis>)
    requires ex.extraDelay == Some(d)
    requires NoRateLimits(es) && NoLimitUpdates(es) && TicksFrom(es, clock)
    requires SpacedSince(ex, d, clock, last)
    ensures last.Some? && |Run(ex, es).starts| > 0 ==> Run(ex, es).starts[0].at >= last.value + DelayMillis(d)
    ensures Spaced(Run(ex, es).starts, DelayMillis(d))
    decreases |es|
  {
    if |es| > 0 {
      var e := es[0];
      var s := Step(ex, e);
      var clock' := if e.Ticked? then e.now else clock;
      var last' := if s.1.Some? then Some(e.now) else last;
      SpacedTail(es, clock);
      SpacedStep(ex, e, d, clock, last);
      SpacedRun(s.0, es[1..], d, clock', last');
      SpacedCons(s.1, Run(s.0, es[1..]).starts, DelayMillis(d), last, last');
    }
  }

  /** What the spacing needs of the rest of the events. */
  lemma SpacedTail<T>(es: seq<Event<T>>, clock: Millis)
    requires |es| > 0 && NoRateLimits(es) && NoLimitUpdates(es) && TicksFrom(es, clock)
    ensures !es[0].RateLimited? && !es[0].LimitsUpdated?
    ensures es[0].Ticked? ==> es[0].now >= clock
    ensures TicksFrom(es[1..], if es[0].Ticked? then es[0].now else clock)
    ensures NoRateLimits(es[1..]) && NoLimitUpdates(es[1..])
  {
    assert forall i :: 0 <= i < |es[1..]| ==> es[1..][i] == es[i + 1];
  }

  /** One event keeps the spacing invariant, and a task it starts starts
      at the tick's time, at least the extra delay after the last start. */
  lemma SpacedStep<T>(ex: Executor<T>, e: Event<T>, d: Delay, clock: Millis, last: Option<Millis>)
    requires ex.extraDelay == Some(d)
    requires !e.RateLimited? && !e.LimitsUpdated? && (e.Ticked? ==> e.now >= clock)
    requires SpacedSince(ex, d, clock, last)
    ensures var s := Step(ex, e);
      s.0.extraDelay == Some(d) &&
      (s.1.Some? ==> e.Ticked? && s.1.value.at == e.now && (last.Some? ==> e.now >= last.value + DelayMillis(d))) &&
      SpacedSince(s.0, d, if e.Ticked? then e.now else clock, if s.1.Some? then Some(e.now) else last)
  {
  }

  /** Putting an optional start, spaced from `last`, in front of starts
      spaced from it. */
  lemma SpacedCons<T>(x: Option<Start<T>>, rest: seq<Start<T>>, gap: int, last: Option<Millis>, last': Option<Millis>)
    requires last' == (if x.Some? then Some(x.value.at) else last)
    requires x.Some? && last.Some? ==> x.value.at >= last.value + gap
    requires last'.Some? && |rest| > 0 ==> rest[0].at >= last'.value + gap
    requires Spaced(rest, gap)
    ensures last.Some? && |OptionSeq(x) + rest| > 0 ==> (OptionSeq(x) + rest)[0].at >= last.value + gap
    ensures Spaced(OptionSeq(x) + rest, gap)
  {
    var ss := OptionSeq(x) + rest;
    if x.Some? {
      assert forall i :: 0 < i < |ss| ==> ss[i] == rest[i - 1];
    } else {
      assert ss == rest;
    }
  }

  /** With an extra delay set and no pause or limit change from outside,
      and the clock never going back, consecutive tasks start at least the
      extra delay apart. */
  lemma StartsSpaced<T>(ex: Executor<T>, es: seq<Event<T>>, d: Delay, clock: Millis)
    requires ex.extraDelay == Some(d)
    requires NoRateLimits(es) && NoLimitUpdates(es) && TicksFrom(es, clock)
    ensures var ss := Run(ex, es).starts;
      forall i :: 0 <= i < |ss| - 1 ==> ss[i].at + DelayMillis(d) <= ss[i + 1].at
  {
    SpacedRun(ex, es, d, clock, None);
  }

  // ---------------------------------------------------------------------
  // Spreading the quota

  lemma MulLe(k: int, x: int, y: int)
    requires k >= 0 && x <= y
    ensures k * x <= k * y
  {
  }

  /** Truncating `untilReset / remaining` to a whole unit, for a positive
      `remaining`: `remaining` waits of the delay fit in `untilReset`, and
      miss it by less than `remaining` units. */
  lemma SpreadFits(total: Duration, parts: int)
    requires parts > 0 && total >= 0
    ensures var d := GetDelay(Quot(total, parts));
      parts * DelayNanos(d) <= total < parts * (DelayNanos(d) + UnitNanos(d.unit))
  {
    var q := Quot(total, parts);
    var d := GetDelay(q);
    QuotPos(total, parts);
    SpreadArith(total, parts, q, DelayNanos(d), UnitNanos(d.unit));
  }

  /** The arithmetic of SpreadFits over plain integers: a share `q` of
      `total` and a truncation `delay` of `q` to whole units. */
  lemma SpreadArith(total: int, parts: int, q: int, delay: int, unit: int)
    requires parts > 0
    requires q * parts <= total < q * parts + parts
    requires delay <= q < delay + unit
    ensures parts * delay <= total < parts * (delay + unit)
  {
    MulLe(parts, delay, q);
    MulLe(parts, q + 1, delay + unit);
    assert parts * (q + 1) == q * parts + parts;
  }

  /** After updateLimits with a positive `remaining`, the remaining
      requests spaced by the extra delay fit in the time until the reset,
      and fall short of it by less than one unit per request. */
  lemma QuotaSpread<T>(ex: Executor<T>, remaining: int, untilReset: Duration)
    requires remaining > 0 && untilReset >= 0
    ensures UpdateLimits(ex, remaining, untilReset).Success?
    ensures var d := UpdateLimits(ex, remaining, untilReset).value.extraDelay.value;
      remaining * DelayNanos(d) <= untilReset < remaining * (DelayNanos(d) + UnitNanos(d.unit))
  {
    SpreadFits(untilReset, remaining);
  }

  /** For a positive budget, the scheduler's cadence times the budget
      fits in the window and falls short of it by less than one unit per
      task. */
  lemma CadenceFits<T>(maxTasksPer: int, window: Duration)
    requires maxTasksPer > 0
    requires Create<T>(maxTasksPer, window).Success?
    ensures var c := Create<T>(maxTasksPer, window).value.cadence;
      0 < maxTasksPer * DelayNanos(c) <= window < maxTasksPer * (DelayNanos(c) + UnitNanos(c.unit))
  {
    var q := Quot(window, maxTasksPer);
    QuotPos(window, maxTasksPer);
    SpreadFits(window, maxTasksPer);
    var c := GetDelay(q);
    assert c.amount > 0;
    assert DelayNanos(c) > 0;
    MulLe(maxTasksPer, 1, DelayNanos(c));
  }

  /** A budget whose window is shorter than one millisecond per task gives
      a cadence of zero, which the scheduler refuses. */
  lemma TooFastRefused<T>(maxTasksPer: int, window: Duration)
    requires maxTasksPer > 0 && window < maxTasksPer * NanosPerMilli
    ensures Create<T>(maxTasksPer, window) == Failure(IllegalArgument)
  {
    var q := Quot(window, maxTasksPer);
    QuotPos(window, maxTasksPer);
    if window >= 0 {
      QuotBelow(q, maxTasksPer, window, NanosPerMilli);
    }
    SubMilliDelay(q);
  }

  lemma QuotBelow(q: int, m: int, w: int, c: int)
    requires m > 0 && q * m <= w < m * c
    ensures q < c
  {
    if q >= c {
      MulLe(m, c, q);
    }
  }

  /** Less than a millisecond is a delay of no whole milliseconds. */
  lemma SubMilliDelay(d: Duration)
    requires d < NanosPerMilli
    ensures GetDelay(d).amount <= 0
  {
    var r := GetDelay(d);
    assert r.unit == Milliseconds;
    SmallProduct(r.amount, UnitNanos(r.unit), if d >= 0 then d else 0);
  }

  /** A multiple of `u` that stays below `u` is no positive multiple. */
  lemma SmallProduct(a: int, u: int, d: int)
    requires u > 0 && a * u <= d < u
    ensures a <= 0
  {
    if a > 0 {
      MulLe(u, 1, a);
    }
  }

  /** getDelay at the unit boundary: just under 1000 seconds is counted in
      milliseconds, 1000 seconds exactly in seconds. */
  lemma DelayUnitBoundary()
    ensures GetDelay(1000 * NanosPerSecond - 1) == Delay(999_999, Milliseconds)
    ensures GetDelay(1000 * NanosPerSecond) == Delay(1000, Seconds)
    ensures GetDelay(1_500_000_000_000) == Delay(1500, Seconds)
  {
    QuotPos(1000 * NanosPerSecond - 1, NanosPerMilli);
  }
}
