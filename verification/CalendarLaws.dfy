/** The algebra of the working-time calendar: adding and measuring are inverse to
    each other, adding composes and is monotone, and the give-up limit is never
    met with a Monday-to-Friday week that keeps some working days. */
module CalendarLaws {
  import opened Wrappers
  import opened WorkingTime

  // Which time works, in terms of the civil week.

  /** Day 4 is Monday, 5 January 1970. In week w after it, on day k of the week counted
      from Monday, any microsecond x of the local day works exactly if k is a working
      day of the week and the day is no holiday. A day has 86,400,000,000 microseconds,
      and local time is ahead of UTC by the offset. */
  lemma {:induction false} WorkingByWeek(cal: Calendar, w: int, k: int, x: int)
    requires 0 <= k < 7 && 0 <= x < 86_400_000_000
    ensures Working(cal, (4 + 7 * w + k) * 86_400_000_000 - cal.utcOffset + x)
       <==> k in cal.workdays && !cal.isHoliday(4 + 7 * w + k)
  {
    var day := 4 + 7 * w + k;
    DayIs(cal, day, x);
    assert day + 3 == 7 * (w + 1) + k;
  }

  lemma {:induction false} DayIs(cal: Calendar, day: int, x: int)
    requires 0 <= x < 86_400_000_000
    ensures DayOf(cal, day * 86_400_000_000 - cal.utcOffset + x) == day
  {
  }

  /** In Tashkent, five hours ahead, one working hour from Friday 2 January 1970 at
      10:00 ends on the same day at 11:00. */
  lemma {:induction false} FridayMorning(cal: Calendar, hour: int, start: int)
    requires hour == 3_600_000_000 && start == 24 * hour + 10 * hour - 5 * hour
    requires cal == Calendar(5 * hour, {0, 1, 2, 3, 4}, _ => false)
    ensures Advance(cal, start, hour) == Success(start + hour)
  {
    var w := -1;
    WorkingByWeek(cal, w, 4, 10 * hour);
    WorkingByWeek(cal, w, 4, 11 * hour - 1);
    WorkWithinDay(cal, start, start + hour);
    AdvanceIs(cal, start, hour, start + hour);
  }

  /** For a positive duration the result is the least instant by which that much
      working time has passed. */
  lemma {:induction false} AdvanceIsLeast(cal: Calendar, start: int, duration: int, u: int)
    requires duration > 0 && Advance(cal, start, duration).Success?
    ensures duration <= Work(cal, start, u) <==> Advance(cal, start, duration).value <= u
  {
    var t := Advance(cal, start, duration).value;
    if t <= u {
      WorkMonotone(cal, start, start, t, u);
    } else {
      WorkMonotone(cal, start, start, u, t - 1);
    }
  }

  /** Zero duration from a working instant stays there; from a day off it moves
      forward to a local midnight that opens a working day. */
  lemma {:induction false} ZeroDuration(cal: Calendar, start: int)
    requires Advance(cal, start, 0).Success?
    ensures var f := Advance(cal, start, 0).value;
      if Working(cal, start) then f == start
      else start < f && f == Midnight(cal, DayOf(cal, f)) && Working(cal, f)
  {
    var f := Advance(cal, start, 0).value;
    if Working(cal, start) {
      if start < f {
        assert Work(cal, start, start + 1) == Work(cal, start, start) + 1;
        WorkMonotone(cal, start, start, start + 1, f);
      }
    } else {
      OpensDay(cal, f);
    }
  }

  lemma {:induction false} OpensDay(cal: Calendar, f: int)
    requires !Working(cal, f - 1) && Working(cal, f)
    ensures f == Midnight(cal, DayOf(cal, f))
  {
    assert DayOf(cal, f - 1) != DayOf(cal, f);
  }

  /** Adding back a measured span returns to its end exactly when that end is an
      instant adding can produce and lies in the window. */
  lemma {:induction false} MeasureThenAdd(cal: Calendar, s: int, e: int)
    requires s < e
    ensures Advance(cal, s, Work(cal, s, e)) == Success(e) <==>
            if Work(cal, s, e) > 0 then Working(cal, e - 1) && e <= WindowEnd(cal, s)
            else Working(cal, e) && e < WindowEnd(cal, s)
  {
    var d := Work(cal, s, e);
    if d > 0 {
      if Working(cal, e - 1) && e <= WindowEnd(cal, s) {
        AdvanceIs(cal, s, d, e);
      }
    } else if Working(cal, e) && e < WindowEnd(cal, s) {
      AdvanceIs(cal, s, 0, e + 1);
    }
  }

  /** The window is a real limit: with every day working, ten and a half years
      can be measured but not added back. */
  lemma {:induction false} MeasureThenAddCanFail()
    ensures exists cal: Calendar, s, e ::
      s < e && Working(cal, e - 1) && Advance(cal, s, Work(cal, s, e)) == Failure(NoWorkingDays)
  {
    var cal := Calendar(0, {0, 1, 2, 3, 4, 5, 6}, _ => false);
    var e := WindowEnd(cal, 0) + 1;
    assert Working(cal, e - 1);
    assert Work(cal, 0, e) > Work(cal, 0, e - 1);
    assert Advance(cal, 0, Work(cal, 0, e)) == Failure(NoWorkingDays);
  }

  lemma {:induction false} WindowGrows(cal: Calendar, s: int, s': int)
    requires s <= s'
    ensures WindowEnd(cal, s) <= WindowEnd(cal, s')
  {
  }

  /** Adding in two steps is adding once. */
  lemma {:induction false} AddingComposes(cal: Calendar, s: int, d1: int, d2: int)
    requires 0 <= d1 && 0 < d2 && Advance(cal, s, d1 + d2).Success?
    ensures Advance(cal, s, d1).Success?
    ensures Advance(cal, Advance(cal, s, d1).value, d2) == Advance(cal, s, d1 + d2)
  {
    var t := Advance(cal, s, d1 + d2).value;
    var m := Advance(cal, s, d1).value;
    assert m < t by {
      if t <= m {
        WorkMonotone(cal, s, s, t, m);
      }
    }
    WorkSplit(cal, s, m, t);
    WindowGrows(cal, s, m);
    AdvanceIs(cal, m, d2, t);
  }

  /** Starting later never ends earlier. */
  lemma {:induction false} AdvanceMonotoneInStart(cal: Calendar, s: int, s': int, d: int)
    requires s <= s' && Advance(cal, s, d).Success? && Advance(cal, s', d).Success?
    ensures Advance(cal, s, d).value <= Advance(cal, s', d).value
  {
    var t, t' := Advance(cal, s, d).value, Advance(cal, s', d).value;
    if d > 0 {
      WorkMonotone(cal, s, s', t', t');
      AdvanceIsLeast(cal, s, d, t');
    } else {
      var f, f' := t - d, t' - d;
      if f' < f {
        assert Work(cal, f', f' + 1) == Work(cal, f', f') + 1;
        WorkMonotone(cal, s, f', f' + 1, f);
      }
    }
  }

  /** Adding more always ends later. */
  lemma {:induction false} AdvanceStrictInDuration(cal: Calendar, s: int, d: int, d': int)
    requires d < d' && Advance(cal, s, d).Success? && Advance(cal, s, d').Success?
    ensures Advance(cal, s, d).value < Advance(cal, s, d').value
  {
    var t, t' := Advance(cal, s, d).value, Advance(cal, s, d').value;
    if d > 0 {
      if t' <= t {
        WorkMonotone(cal, s, s, t', t);
      }
    } else if d' > 0 {
      if t' <= t - d {
        WorkMonotone(cal, s, s, t', t - d);
      }
    } else {
      UnitEndUnique(cal, s, 1, t - d + 1, t' - d' + 1);
    }
  }

  // The give-up limit.

  /** Working days among the `n` days from `day`. */
  function WorkingDays(cal: Calendar, day: int, n: nat): nat {
    if n == 0 then 0 else WorkingDays(cal, day, n - 1) + if IsWorkingDay(cal, day + n - 1) then 1 else 0
  }

  /** Days among the `n` days from `day` that only a holiday keeps from being
      working days. */
  function LostDays(cal: Calendar, day: int, n: nat): nat {
    if n == 0 then 0
    else LostDays(cal, day, n - 1)
         + if Weekday(day + n - 1) in cal.workdays && cal.isHoliday(day + n - 1) then 1 else 0
  }

  const MONDAY_TO_FRIDAY: set<int> := {0, 1, 2, 3, 4}

  /** Weekdays among the `n` days from `day`, whether worked or lost. */
  function WeekdaysIn(day: int, n: nat): nat {
    if n == 0 then 0 else WeekdaysIn(day, n - 1) + if Weekday(day + n - 1) in MONDAY_TO_FRIDAY then 1 else 0
  }

  lemma {:induction false} WorkedOrLost(cal: Calendar, day: int, n: nat)
    requires cal.workdays == MONDAY_TO_FRIDAY
    ensures WorkingDays(cal, day, n) + LostDays(cal, day, n) == WeekdaysIn(day, n)
  {
    if n > 0 {
      WorkedOrLost(cal, day, n - 1);
    }
  }

  /** Seven days in a row hold five weekdays, and six hold at least four. */
  lemma {:induction false} WeekdaysOfWeek(day: int, n: nat)
    ensures WeekdaysIn(day, n + 7) == WeekdaysIn(day, n) + 5
    ensures WeekdaysIn(day, n + 6) >= WeekdaysIn(day, n) + 4
  {
    var w := NextDay(day, n, Weekday(day + n));
    w := NextDay(day, n + 1, w);
    w := NextDay(day, n + 2, w);
    w := NextDay(day, n + 3, w);
    w := NextDay(day, n + 4, w);
    w := NextDay(day, n + 5, w);
    w := NextDay(day, n + 6, w);
  }

  lemma {:induction false} NextDay(day: int, n: nat, w: int) returns (w': int)
    requires w == Weekday(day + n)
    ensures 0 <= w <= 6 && w' == if w < 6 then w + 1 else 0
    ensures w' == Weekday(day + (n + 1))
    ensures WeekdaysIn(day, n + 1) == WeekdaysIn(day, n) + if w < 5 then 1 else 0
  {
    w' := if w < 6 then w + 1 else 0;
  }

  lemma {:induction false} WeekdaysOfWeeks(day: int, weeks: nat)
    ensures WeekdaysIn(day, 7 * weeks) == 5 * weeks
  {
    if weeks > 0 {
      WeekdaysOfWeeks(day, weeks - 1);
      WeekdaysOfWeek(day, 7 * (weeks - 1));
    }
  }

  /** The window always holds at least 2614 weekdays. */
  lemma {:induction false} WeekdaysOfWindow(day: int, n: nat, weeks: nat)
    requires weeks == 522 && n == 7 * weeks + 6
    ensures n == MAX_DAYS && WeekdaysIn(day, n) >= 2614
  {
    WeekdaysOfWeeks(day, weeks);
    WeekdaysOfWeek(day, 7 * weeks);
  }

  lemma {:induction false} FullDay(cal: Calendar, start: int, n: nat)
    requires n > 1
    ensures var day := DayOf(cal, start);
      Work(cal, start, Midnight(cal, day + n))
      == Work(cal, start, Midnight(cal, day + n - 1)) + if IsWorkingDay(cal, day + n - 1) then DAY else 0
  {
    var last := DayOf(cal, start) + n - 1;
    var before, end := Midnight(cal, last), Midnight(cal, last + 1);
    assert start < before && DayOf(cal, before) == last;
    WorkSplit(cal, start, before, end);
    WorkWithinDay(cal, before, end);
  }

  /** What is left of the local day `start` lies in. */
  function RestOfDay(cal: Calendar, start: int): int {
    LocalMidnightAfter(cal, start) - start
  }

  /** The first `n` local days from `start` in working time: 24 hours for each
      working day, except that the one `start` lies in gives only its rest. */
  lemma {:induction false} WorkOfDays(cal: Calendar, start: int, n: nat)
    requires n > 0
    ensures Work(cal, start, Midnight(cal, DayOf(cal, start) + n))
         == WorkingDays(cal, DayOf(cal, start), n) * DAY
            - if Working(cal, start) then DAY - RestOfDay(cal, start) else 0
  {
    var day := DayOf(cal, start);
    if n == 1 {
      WorkWithinDay(cal, start, LocalMidnightAfter(cal, start));
      assert WorkingDays(cal, day, 0) == 0;
    } else {
      WorkOfDays(cal, start, n - 1);
      FullDay(cal, start, n);
    }
  }

  /** When adding a positive duration gives up, in days. */
  lemma {:induction false} FailureBound(cal: Calendar, start: int, duration: int)
    requires duration > 0
    ensures Advance(cal, start, duration).Failure? <==>
            WorkingDays(cal, DayOf(cal, start), MAX_DAYS) * DAY
            < duration + if Working(cal, start) then DAY - RestOfDay(cal, start) else 0
  {
    WorkOfDays(cal, start, MAX_DAYS);
  }

  /** With a Monday-to-Friday week and at most 2583 of the window's weekdays lost
      to holidays, no budget of up to 720 hours fails, whether it is a fresh one
      or what was left of one at a pause. */
  lemma {:induction false} WeekNeverRunsOut(cal: Calendar, start: int, duration: int)
    requires cal.workdays == MONDAY_TO_FRIDAY
    requires LostDays(cal, DayOf(cal, start), MAX_DAYS) <= 2583
    requires duration <= 720 * HOUR
    ensures Advance(cal, start, duration).Success?
  {
    var n, weeks := MAX_DAYS, 522;
    WeekdaysOfWindow(DayOf(cal, start), n, weeks);
    WorkedOrLost(cal, DayOf(cal, start), n);
    WorkOfDays(cal, start, n);
  }

  /** The bound is sharp: in a window with the fewest weekdays, one more lost day
      makes a 720-hour request fail unless it is filed at a local midnight. */
  lemma {:induction false} WeekCanRunOut(cal: Calendar, start: int)
    requires cal.workdays == MONDAY_TO_FRIDAY
    requires WeekdaysIn(DayOf(cal, start), MAX_DAYS) == 2614
    requires LostDays(cal, DayOf(cal, start), MAX_DAYS) == 2584
    requires Working(cal, start) && start != Midnight(cal, DayOf(cal, start))
    ensures Advance(cal, start, 720 * HOUR).Failure?
  {
    var n := MAX_DAYS;
    WorkedOrLost(cal, DayOf(cal, start), n);
    WorkOfDays(cal, start, n);
  }

  /** Such a window exists: it starts on a Wednesday, and everything after its first
      six weeks is a holiday. */
  function SixWeeksOnly(first: int): Calendar {
    Calendar(0, MONDAY_TO_FRIDAY, day => day >= first + 42)
  }

  lemma {:induction false} WorkedInSixWeeks(first: int, n: nat)
    ensures WorkingDays(SixWeeksOnly(first), first, n) == WeekdaysIn(first, if n < 42 then n else 42)
  {
    if n > 0 {
      WorkedInSixWeeks(first, n - 1);
    }
  }

  lemma {:induction false} FewestWeekdays(first: int, n: nat, weeks: nat)
    requires Weekday(first) == 2 && weeks == 522 && n == 7 * weeks
    ensures n + 6 == MAX_DAYS && WeekdaysIn(first, n + 6) == 2614
  {
    WeekdaysOfWeeks(first, weeks);
    assert Weekday(first + n) == 2;
    var w := NextDay(first, n, 2);
    w := NextDay(first, n + 1, w);
    w := NextDay(first, n + 2, w);
    w := NextDay(first, n + 3, w);
    w := NextDay(first, n + 4, w);
    w := NextDay(first, n + 5, w);
  }

  lemma {:induction false} LostAfterSixWeeks(first: int, n: nat, weeks: nat, six: nat)
    requires Weekday(first) == 2 && weeks == 522 && n == 7 * weeks + 6 && six == 6
    ensures WeekdaysIn(first, n) == 2614 && LostDays(SixWeeksOnly(first), first, n) == 2584
  {
    FewestWeekdays(first, n - 6, weeks);
    WorkedInSixWeeks(first, n);
    WeekdaysOfWeeks(first, six);
    WorkedOrLost(SixWeeksOnly(first), first, n);
  }

  /** A request the calendar gives up on although its holidays are only one more than
      `WeekNeverRunsOut` allows. */
  lemma {:induction false} RunsOutHere() returns (cal: Calendar, start: int)
    ensures cal.workdays == MONDAY_TO_FRIDAY && LostDays(cal, DayOf(cal, start), MAX_DAYS) == 2584
    ensures Advance(cal, start, 720 * HOUR).Failure?
  {
    var first, n, weeks, six := 6, MAX_DAYS, 522, 6;
    cal, start := SixWeeksOnly(first), Midnight(SixWeeksOnly(first), first) + 1;
    assert DayOf(cal, start) == first;
    LostAfterSixWeeks(first, n, weeks, six);
    WeekCanRunOut(cal, start);
  }
}
