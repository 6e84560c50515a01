/** `calculateTimeUntilMidnight` of src/index.ts, on local time written as
    whole milliseconds where every day lasts exactly 24 hours (no
    daylight-saving shifts). Day `d` covers the instants
    `d * DayMs .. (d + 1) * DayMs - 1`. */
module Clock {

  const HourMs: int := 60 * 60 * 1000
  const DayMs: int := 24 * HourMs

  /** The local day an instant falls in. */
  function DayOf(t: int): int
  {
    t / DayMs
  }

  /** `setHours(24, 0, 0, 0)` on a copy of `t`, minus `t`: the time left until
      00:00:00.000 of the following day. It is never zero, a full day exactly
      at midnight, and lands on the first instant of the next day. */
  function TimeUntilMidnight(t: int): (r: int)
    ensures 0 < r <= DayMs
    ensures (t + r) % DayMs == 0
    ensures DayOf(t + r) == DayOf(t) + 1
  {
    var midnight := DayOf(t) * DayMs + 24 * HourMs;
    midnight - t
  }

  /** No midnight is skipped: every instant strictly between `t` and the
      computed midnight lies in the same day as `t`. */
  lemma NoEarlierMidnight(t: int, m: int)
    requires t < m < t + TimeUntilMidnight(t)
    ensures DayOf(m) == DayOf(t)
    ensures m % DayMs != 0
  {
    var r := TimeUntilMidnight(t);
    assert t + r == (DayOf(t) + 1) * DayMs;
    assert DayOf(t) * DayMs <= t;
  }

  /** Exactly at midnight the answer is a full day, not zero. */
  lemma AtMidnightFullDay(t: int)
    requires t % DayMs == 0
    ensures TimeUntilMidnight(t) == DayMs
  {
  }

  /** Two instants of the same day wait for the same midnight. */
  lemma SameDaySameMidnight(t1: int, t2: int)
    requires DayOf(t1) == DayOf(t2)
    ensures t1 + TimeUntilMidnight(t1) == t2 + TimeUntilMidnight(t2)
  {
  }
}
