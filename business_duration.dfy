/**
 * The business-hours duration calculator of business_duration.py (and of its
 * verbatim copy `businessDuration` in time_to_first_response.py).
 *
 * An instant is a whole number of seconds since 1970-01-01T00:00 in one fixed
 * UTC offset. 1970-01-01 was a Thursday, so the weekday of day number `d`
 * (Python's `date.weekday()`, Monday = 0) is `(d + 3) % 7`. The working window
 * of every day is 09:00 to 18:00; Friday (4) and Saturday (5) are not worked.
 */
module BusinessHours {
  import opened Optional
  import opened Numbers

  type Instant = int

  /** Length of one day's working window, 18:00 - 09:00, in seconds. */
  const WorkdayLength: int := 32400

  /** The calendar date (days since 1970-01-01) an instant falls on. */
  function Day(t: Instant): int { t / 86400 }

  /** Python's `weekday()`: Monday is 0, Sunday is 6. */
  function Weekday(day: int): int { (day + 3) % 7 }

  /** Friday and Saturday are the non-working days. */
  predicate IsWorkday(day: int) { Weekday(day) != 4 && Weekday(day) != 5 }

  /** 09:00 on the given date: what `replace(hour=9, minute=0, ...)` yields. */
  function WindowStart(day: int): Instant { day * 86400 + 32400 }

  /** 18:00 on the given date. */
  function WindowEnd(day: int): Instant { day * 86400 + 64800 }

  /**
   * The part of `[start, end]` that lies inside the working window of `day`.
   * A non-working day contributes nothing; a working day contributes at most
   * one full window, and something only where the window meets `[start, end]`.
   */
  function Overlap(start: Instant, end: Instant, day: int): (r: int)
    ensures 0 <= r <= WorkdayLength
    ensures !IsWorkday(day) ==> r == 0
    ensures r > 0 ==> r <= end - start && start < WindowEnd(day) && WindowStart(day) < end
    ensures IsWorkday(day) && start <= WindowStart(day) && WindowEnd(day) <= end ==> r == WorkdayLength
  {
    if !IsWorkday(day) then 0
    else
      var lo := Max(start, WindowStart(day));
      var hi := Min(end, WindowEnd(day));
      if lo < hi then hi - lo else 0
  }

  /** The total overlap of `[start, end]` with the windows of days `lo .. hi-1`. */
  function DaySum(start: Instant, end: Instant, lo: int, hi: int): int
    decreases hi - lo
  {
    if hi <= lo then 0 else DaySum(start, end, lo, hi - 1) + Overlap(start, end, hi - 1)
  }

  /**
   * The business time between two instants: the sum, over the dates from
   * `start`'s date to `end`'s date, of the working time inside `[start, end]`.
   */
  function BusinessTime(start: Instant, end: Instant): int
  {
    DaySum(start, end, Day(start), Day(end) + 1)
  }

  /**
   * `business_duration(start, end)`: walks day by day from `start`, skipping
   * Fridays and Saturdays, clipping each day's window to `[start, end]` on the
   * first and last dates and adding the positive parts.
   */
  method BusinessDuration(start: Instant, end: Instant) returns (total: int)
    ensures total == BusinessTime(start, end)
  {
    total := 0;
    var current := start;
    while current < end
      invariant Day(start) <= Day(current)
      invariant current == start
             || (current == WindowStart(Day(current)) && Day(start) < Day(current) <= Day(end) + 1)
      invariant total == DaySum(start, end, Day(start), Day(current))
      decreases end - current
    {
      var day := Day(current);
      if !IsWorkday(day) {
        current := WindowStart(day + 1);
        continue;
      }
      var currentStart := WindowStart(day);
      var currentEnd := WindowEnd(day);
      if day == Day(start) {
        currentStart := Max(current, currentStart);
      }
      if day == Day(end) {
        currentEnd := Min(end, currentEnd);
      }
      ClippedWindowIsOverlap(start, end, current);
      if currentStart < currentEnd {
        total := total + (currentEnd - currentStart);
      }
      current := WindowStart(day + 1);
    }
    if current == start {
      ZeroWhenNotBefore(start, end);
    } else {
      LateDaysAddNothing(start, end, Day(start), Day(current), Day(end) + 1);
    }
  }

  // ---------------------------------------------------------------------
  // Lemmas about the day sum

  /**
   * On a working day the loop visits, the window clipped to `start` on the
   * first date and to `end` on the last date is that day's overlap.
   */
  lemma ClippedWindowIsOverlap(start: Instant, end: Instant, current: Instant)
    requires current < end && IsWorkday(Day(current))
    requires current == start || (current == WindowStart(Day(current)) && Day(start) < Day(current))
    ensures var day := Day(current);
            var lo := if day == Day(start) then Max(current, WindowStart(day)) else WindowStart(day);
            var hi := if day == Day(end) then Min(end, WindowEnd(day)) else WindowEnd(day);
            (if lo < hi then hi - lo else 0) == Overlap(start, end, day)
  {
  }

  /** Splitting the range of days splits the sum. */
  lemma {:induction false} SplitDays(start: Instant, end: Instant, lo: int, mid: int, hi: int)
    requires lo <= mid <= hi
    ensures DaySum(start, end, lo, hi) == DaySum(start, end, lo, mid) + DaySum(start, end, mid, hi)
    decreases hi - mid
  {
    if hi > mid {
      SplitDays(start, end, lo, mid, hi - 1);
    }
  }

  /** A range of days none of which overlaps `[start, end]` sums to zero. */
  lemma {:induction false} ZeroDays(start: Instant, end: Instant, lo: int, hi: int)
    requires forall d :: lo <= d < hi ==> Overlap(start, end, d) == 0
    ensures DaySum(start, end, lo, hi) == 0
    decreases hi - lo
  {
    if hi > lo {
      ZeroDays(start, end, lo, hi - 1);
    }
  }

  /** Every day sum lies between zero and one full window per day. */
  lemma {:induction false} DaySumBounds(start: Instant, end: Instant, lo: int, hi: int)
    requires lo <= hi
    ensures 0 <= DaySum(start, end, lo, hi) <= WorkdayLength * (hi - lo)
    decreases hi - lo
  {
    if hi > lo {
      DaySumBounds(start, end, lo, hi - 1);
    }
  }

  /** Days from `a` on, when `end` is no later than 09:00 of day `a`, add nothing. */
  lemma LateDaysAddNothing(start: Instant, end: Instant, lo: int, a: int, b: int)
    requires lo <= a <= b && end <= WindowStart(a)
    ensures DaySum(start, end, lo, b) == DaySum(start, end, lo, a)
  {
    forall d | a <= d < b ensures Overlap(start, end, d) == 0 {
      assert WindowStart(a) <= WindowStart(d);
    }
    ZeroDays(start, end, a, b);
    SplitDays(start, end, lo, a, b);
  }

  /** Days before `a`, when `start` is no earlier than 18:00 of day `a - 1`, add nothing. */
  lemma EarlyDaysAddNothing(start: Instant, end: Instant, lo: int, a: int, hi: int)
    requires lo <= a <= hi && WindowEnd(a - 1) <= start
    ensures DaySum(start, end, lo, hi) == DaySum(start, end, a, hi)
  {
    forall d | lo <= d < a ensures Overlap(start, end, d) == 0 {
      assert WindowEnd(d) <= WindowEnd(a - 1);
    }
    ZeroDays(start, end, lo, a);
    SplitDays(start, end, lo, a, hi);
  }

  /** With `start >= end` nothing is counted on any run of days. */
  lemma NothingBeforeStart(start: Instant, end: Instant, lo: int, hi: int)
    requires start >= end
    ensures DaySum(start, end, lo, hi) == 0
  {
    ZeroDays(start, end, lo, hi);
  }

  /** Any range of days that covers `start`'s date to `end`'s date gives the business time. */
  lemma WiderRange(start: Instant, end: Instant, lo: int, hi: int)
    requires lo <= Day(start) && Day(end) + 1 <= hi
    ensures DaySum(start, end, lo, hi) == BusinessTime(start, end)
  {
    if start >= end {
      NothingBeforeStart(start, end, lo, hi);
      ZeroWhenNotBefore(start, end);
    } else {
      EarlyDaysAddNothing(start, end, lo, Day(start), hi);
      LateDaysAddNothing(start, end, Day(start), Day(end) + 1, hi);
    }
  }

  /** Day by day, the overlaps of two adjacent spans add up to the overlap of their union. */
  lemma {:induction false} AdjacentDaySums(a: Instant, b: Instant, c: Instant, lo: int, hi: int)
    requires a <= b <= c
    ensures DaySum(a, c, lo, hi) == DaySum(a, b, lo, hi) + DaySum(b, c, lo, hi)
    decreases hi - lo
  {
    if hi > lo {
      AdjacentDaySums(a, b, c, lo, hi - 1);
    }
  }

  /** The total business time never exceeds the wall-clock time up to `min(end, 00:00 of day hi)`. */
  lemma {:induction false} DaySumAtMostWallClock(start: Instant, end: Instant, lo: int, hi: int)
    requires lo <= hi
    ensures DaySum(start, end, lo, hi) <= Max(0, Min(end, hi * 86400) - start)
    decreases hi - lo
  {
    if hi > lo {
      DaySumAtMostWallClock(start, end, lo, hi - 1);
    }
  }

  // ---------------------------------------------------------------------
  // Properties of the business time

  /** A span with `start >= end` (in particular `start == end`) measures zero. */
  lemma ZeroWhenNotBefore(start: Instant, end: Instant)
    requires start >= end
    ensures BusinessTime(start, end) == 0
  {
    NothingBeforeStart(start, end, Day(start), Day(end) + 1);
  }

  /** The result is never negative and is at most 9 hours per date from `start`'s to `end`'s. */
  lemma BusinessTimeBounds(start: Instant, end: Instant)
    requires start <= end
    ensures 0 <= BusinessTime(start, end) <= WorkdayLength * (Day(end) - Day(start) + 1)
  {
    DaySumBounds(start, end, Day(start), Day(end) + 1);
  }

  /** Business time never exceeds wall-clock time. */
  lemma AtMostWallClock(start: Instant, end: Instant)
    ensures BusinessTime(start, end) <= Max(0, end - start)
  {
    if start < end {
      DaySumAtMostWallClock(start, end, Day(start), Day(end) + 1);
    } else {
      ZeroWhenNotBefore(start, end);
    }
  }

  /** Within one working day's window the result is exactly the wall-clock difference. */
  lemma SameDayWithinWindow(start: Instant, end: Instant)
    requires Day(start) == Day(end) && IsWorkday(Day(start))
    requires WindowStart(Day(start)) <= start <= end <= WindowEnd(Day(start))
    ensures BusinessTime(start, end) == end - start
  {
    var d := Day(start);
    assert DaySum(start, end, d, d + 1) == DaySum(start, end, d, d) + Overlap(start, end, d);
  }

  /** A span that starts and ends on the same Friday or Saturday measures zero. */
  lemma WeekendDayCountsNothing(start: Instant, end: Instant)
    requires Day(start) == Day(end) && !IsWorkday(Day(start))
    ensures BusinessTime(start, end) == 0
  {
    var d := Day(start);
    assert DaySum(start, end, d, d + 1) == DaySum(start, end, d, d) + Overlap(start, end, d);
  }

  /** Splitting a span at any instant splits its business time. */
  lemma Additive(a: Instant, b: Instant, c: Instant)
    requires a <= b <= c
    ensures BusinessTime(a, c) == BusinessTime(a, b) + BusinessTime(b, c)
  {
    var lo, hi := Day(a), Day(c) + 1;
    WiderRange(a, b, lo, hi);
    WiderRange(b, c, lo, hi);
    AdjacentDaySums(a, b, c, lo, hi);
  }

  /** For a fixed `start`, moving `end` later never decreases the result. */
  lemma MonotoneInEnd(start: Instant, end1: Instant, end2: Instant)
    requires end1 <= end2
    ensures BusinessTime(start, end1) <= BusinessTime(start, end2)
  {
    if start <= end1 {
      Additive(start, end1, end2);
      BusinessTimeBounds(end1, end2);
    } else {
      ZeroWhenNotBefore(start, end1);
      if start <= end2 {
        BusinessTimeBounds(start, end2);
      } else {
        ZeroWhenNotBefore(start, end2);
      }
    }
  }

  /** 2023-01-01 is day 19358 and a Sunday; Sunday 2023-01-01 00:00 to Monday 00:00 is 9 hours. */
  lemma SundayToMonday()
    ensures Weekday(19358) == 6
    ensures BusinessTime(1672531200, 1672617600) == 32400
  {
  }

  /** Midnight 2023-01-01 to midnight 2023-01-03 is two full windows, 18 hours. */
  lemma SundayToTuesday()
    ensures BusinessTime(1672531200, 1672704000) == 64800
  {
  }

  /** Friday 2023-01-06 17:00 to Monday 2023-01-09 10:00: Sunday's 9 hours and Monday's 1. */
  lemma FridayEveningToMondayMorning()
    ensures Weekday(19363) == 4
    ensures BusinessTime(1673024400, 1673258400) == 36000
  {
    var s, e := 1673024400, 1673258400;
    assert Day(s) == 19363 && Day(e) == 19366;
    assert Overlap(s, e, 19363) == 0 && Overlap(s, e, 19364) == 0;
    assert Overlap(s, e, 19365) == 32400 && Overlap(s, e, 19366) == 3600;
    assert DaySum(s, e, 19363, 19365) == 0;
    assert DaySum(s, e, 19363, 19367) == 36000;
  }
}
