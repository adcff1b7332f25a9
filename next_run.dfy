/**
 * `calculate_next_run_time` of run_monthly_scraper.py: the next "30th of the month" at
 * the current time of day, with the clock reading passed in as `now`.
 */
module NextRun {
  import opened Wrappers
  import opened Calendar

  /** The ValueError that `datetime.replace` raises on a field out of range. */
  datatype ReplaceError = YearOutOfRange | DayOutOfRange

  /** `t.replace(year=y, month=m, day=d)`: the year is checked first, then the day. */
  function Replace(t: DateTime, y: int, m: int, d: int): (r: Result<DateTime, ReplaceError>)
    requires Valid(t) && 1 <= m <= 12 && 1 <= d
    ensures r.Success? <==> ValidDate(y, m, d)
    ensures r.Success? ==> Valid(r.value) && r.value.year == y && r.value.month == m
                           && r.value.day == d && SameTimeOfDay(r.value, t)
    ensures r == Failure(YearOutOfRange) <==> !(MinYear <= y <= MaxYear)
  {
    if !(MinYear <= y <= MaxYear) then Failure(YearOutOfRange)
    else if d > DaysInMonth(y, m) then Failure(DayOutOfRange)
    else Success(t.(year := y, month := m, day := d))
  }

  /**
   * The next run: `now` itself on the 30th, the 30th of this month before it, and the
   * 30th of the following month after it (January of the next year after 31 December).
   * The call fails where the target month has no 30th, or the next year is past 9999.
   */
  function NextRunTime(now: DateTime): (r: Result<DateTime, ReplaceError>)
    requires Valid(now)
    ensures r.Success? ==> Valid(r.value) && r.value.day == 30 && SameTimeOfDay(r.value, now)
    ensures r.Failure? <==> (now.month == 2 && now.day < 30)
                            || (now.day == 31 && (now.month == 1 || (now.month == 12 && now.year == MaxYear)))
  {
    if now.day == 30 then Success(now)
    else if now.day < 30 then Replace(now, now.year, now.month, 30)
    else if now.month == 12 then Replace(now, now.year + 1, 1, 30)
    else Replace(now, now.year, now.month + 1, 30)
  }

  /** `(next_run - now).total_seconds()`, in microseconds. */
  function WaitMicroseconds(next: DateTime, now: DateTime): int
    requires 1 <= next.month <= 12 && 1 <= now.month <= 12
  {
    TotalMicroseconds(next) - TotalMicroseconds(now)
  }

  /** The four branches, stated on the calendar. */
  lemma NextRunCases(now: DateTime)
    requires Valid(now)
    ensures now.day == 30 ==> NextRunTime(now) == Success(now)
    ensures now.day < 30 && now.month != 2 ==> NextRunTime(now) == Success(now.(day := 30))
    ensures now.day == 31 && now.month != 1 && now.month != 12
            ==> NextRunTime(now) == Success(now.(month := now.month + 1, day := 30))
    ensures now.day == 31 && now.month == 12 && now.year < MaxYear
            ==> NextRunTime(now) == Success(now.(year := now.year + 1, month := 1, day := 30))
  {
  }

  /** A produced run time is never earlier than `now`, so the wait is never negative. */
  lemma NextRunNotEarlier(now: DateTime)
    requires Valid(now) && NextRunTime(now).Success?
    ensures !Before(NextRunTime(now).value, now)
    ensures WaitMicroseconds(NextRunTime(now).value, now) >= 0
    ensures WaitMicroseconds(NextRunTime(now).value, now) == 0 <==> now.day == 30
  {
    var next := NextRunTime(now).value;
    BeforeIsEarlier(next, now);
    BeforeIsEarlier(now, next);
  }

  /**
   * A produced run time is the earliest instant at or after `now` that falls on a 30th
   * at `now`'s time of day.
   */
  lemma NextRunIsEarliest(now: DateTime, d: DateTime)
    requires Valid(now) && NextRunTime(now).Success?
    requires Valid(d) && d.day == 30 && SameTimeOfDay(d, now) && !Before(d, now)
    ensures !Before(d, NextRunTime(now).value)
  {
  }
}
