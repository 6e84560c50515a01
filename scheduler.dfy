/** `startScheduler` and `initialize` of src/index.ts. The scheduler reads
    the database clock once, then arms a `setTimeout` for the next local
    midnight whose callback runs the task and starts a 24-hour
    `setInterval`. Only the instants at which the task is due are modelled,
    as arithmetic on the clock value; the timers themselves are not. */
module Scheduler {
  import opened Wrappers
  import opened Clock
  import opened TableNaming
  import opened Ingestion

  /** The interval passed to `setInterval`, in milliseconds. */
  const RunPeriod: int := 24 * 60 * 60 * 1000

  /** A `setTimeout(cb, delay)` armed at `armedAt` whose callback runs the
      task and then starts `setInterval(task, period)`. */
  datatype Timer = Timer(armedAt: int, delay: int, period: int)
  {
    /** When the task is due for the k-th time, the timeout's own run being
        k = 0 and the interval's n-th tick being k = n. */
    function FireTime(k: nat): int
    {
      armedAt + delay + k * period
    }
  }

  /** The timer `startScheduler` arms when the clock read at `t`. */
  predicate ArmedAt(timer: Timer, t: int)
  {
    timer == Timer(t, TimeUntilMidnight(t), RunPeriod)
  }

  /** `startScheduler`: one clock read (`None`: the query throws, the catch
      block logs it and nothing is armed), then the timeout for the next
      midnight. Every due instant is a midnight, one per day, starting with
      the day after the clock's. */
  method StartScheduler(clock: Option<int>) returns (ops: seq<Op>, timer: Option<Timer>)
    ensures ops == [ClockRead]
    ensures timer.Some? <==> clock.Some?
    ensures timer.Some? ==> ArmedAt(timer.value, clock.value)
    ensures timer.Some? ==> forall k: nat :: timer.value.FireTime(k) == (DayOf(clock.value) + 1 + k) * DayMs
  {
    ops := [ClockRead];
    match clock
    case None =>
      timer := None;
    case Some(t) =>
      var timeUntilMidnight := TimeUntilMidnight(t);
      timer := Some(Timer(t, timeUntilMidnight, RunPeriod));
      forall k: nat ensures timer.value.FireTime(k) == (DayOf(t) + 1 + k) * DayMs {
        FireTimeIsMidnight(timer.value, t, k);
      }
  }

  /** The k-th run is due at the start of day `DayOf(t) + 1 + k`: a
      midnight strictly after the clock reading. */
  lemma FireTimeIsMidnight(timer: Timer, t: int, k: nat)
    requires ArmedAt(timer, t)
    ensures timer.FireTime(k) == (DayOf(t) + 1 + k) * DayMs
    ensures timer.FireTime(k) > t
    ensures timer.FireTime(k) % DayMs == 0
    ensures DayOf(timer.FireTime(k)) == DayOf(t) + 1 + k
  {
    var r := TimeUntilMidnight(t);
    assert t + r == (DayOf(t) + 1) * DayMs;
    assert timer.FireTime(k) == (DayOf(t) + 1) * DayMs + k * DayMs;
    assert (DayOf(t) + 1) * DayMs + k * DayMs == (DayOf(t) + 1 + k) * DayMs;
  }

  /** No midnight after the clock reading is missed: each is the due time
      of some run. */
  lemma EveryLaterMidnightIsDue(timer: Timer, t: int, m: int)
    requires ArmedAt(timer, t)
    requires m > t && m % DayMs == 0
    ensures exists k: nat :: timer.FireTime(k) == m
  {
    var d := m / DayMs;
    assert m == d * DayMs;
    assert DayOf(t) * DayMs <= t;
    assert d > DayOf(t);
    var k: nat := d - DayOf(t) - 1;
    FireTimeIsMidnight(timer, t, k);
    assert timer.FireTime(k) == m;
  }

  /** Distinct runs fall on distinct days, so no day's table is written by
      two scheduled runs and none is skipped between two runs. */
  lemma RunsOnConsecutiveDays(timer: Timer, t: int, j: nat, k: nat)
    requires ArmedAt(timer, t)
    ensures DayOf(timer.FireTime(k)) - DayOf(timer.FireTime(j)) == k - j
  {
    FireTimeIsMidnight(timer, t, j);
    FireTimeIsMidnight(timer, t, k);
  }

  /** `initialize`: connect (`initOk` false: `initDB` throws, the outer catch
      logs it and nothing else happens), run the task once right away, arm
      the scheduler, and read back the rows of the table named for
      `readBackDay`, the local date at that moment. `runTask`,
      `startScheduler` and `fetchTodayData` catch their own errors, so a
      failed task neither stops the scheduler nor the read-back. */
  method Initialize(initOk: bool, symbols: seq<string>, today: LocalDate, env: Env,
                    schedulerClock: Option<int>, readBackDay: LocalDate)
    returns (ops: seq<Op>, timer: Option<Timer>)
    ensures !initOk ==> ops == [InitDb] && timer.None?
    ensures initOk ==> ops == [InitDb] + Cycle(symbols, today, env).ops + [ClockRead, ReadBack(TableName(readBackDay))]
    ensures timer.Some? <==> initOk && schedulerClock.Some?
    ensures timer.Some? ==> ArmedAt(timer.value, schedulerClock.value)
  {
    ops := [InitDb];
    if !initOk {
      timer := None;
      return;
    }
    var taskOps, _ := RunTask(symbols, today, env);
    ops := ops + taskOps;
    var schedulerOps;
    schedulerOps, timer := StartScheduler(schedulerClock);
    ops := ops + schedulerOps + [ReadBack(TableName(readBackDay))];
  }
}
