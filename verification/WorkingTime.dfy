/** The working-time calendar (backend/app/services/sla_calendar.py).

    Instants are integer microseconds since the epoch. Local days are counted in
    a zone with a fixed offset, and which days are holidays is arbitrary. The
    definition everything refers to is `Work`, which counts working microseconds
    one at a time; the two loops of the program step a day at a time and are
    proved to compute the same thing. */
module WorkingTime {
  import opened Wrappers

  const HOUR: int := 3_600_000_000
  const DAY: int := 24 * HOUR
  /** How many local days `AddWorkingTime` looks at before it gives up. */
  const MAX_DAYS: int := 3660

  datatype Calendar = Calendar(utcOffset: int, workdays: set<int>, isHoliday: int -> bool)

  datatype CalendarError = NoWorkingDays

  /** Local day number; day 0 is 1 January 1970. */
  function DayOf(cal: Calendar, t: int): int {
    (t + cal.utcOffset) / DAY
  }

  /** Monday is 0, and 1 January 1970 was a Thursday. */
  function Weekday(day: int): int {
    (day + 3) % 7
  }

  predicate IsWorkingDay(cal: Calendar, day: int) {
    Weekday(day) in cal.workdays && !cal.isHoliday(day)
  }

  function Midnight(cal: Calendar, day: int): int {
    day * DAY - cal.utcOffset
  }

  function LocalMidnightAfter(cal: Calendar, t: int): (m: int)
    ensures t < m <= t + DAY
    ensures DayOf(cal, m) == DayOf(cal, t) + 1
  {
    Midnight(cal, DayOf(cal, t) + 1)
  }

  /** Whether the microsecond that starts at `t` counts. */
  predicate Working(cal: Calendar, t: int) {
    IsWorkingDay(cal, DayOf(cal, t))
  }

  lemma {:induction false} SameDay(cal: Calendar, t: int, u: int)
    requires t <= u < LocalMidnightAfter(cal, t)
    ensures DayOf(cal, u) == DayOf(cal, t)
  {
  }

  /** The number of working microseconds in [a, b). */
  ghost function Work(cal: Calendar, a: int, b: int): nat
    decreases b - a
  {
    if b <= a then 0 else Work(cal, a, b - 1) + if Working(cal, b - 1) then 1 else 0
  }

  lemma {:induction false} WorkSplit(cal: Calendar, a: int, m: int, b: int)
    requires a <= m <= b
    ensures Work(cal, a, b) == Work(cal, a, m) + Work(cal, m, b)
    decreases b - m
  {
    if m < b {
      WorkSplit(cal, a, m, b - 1);
    }
  }

  lemma {:induction false} WorkMonotone(cal: Calendar, a: int, a': int, b': int, b: int)
    requires a <= a' && b' <= b
    ensures Work(cal, a', b') <= Work(cal, a, b)
  {
    if a' <= b' {
      WorkSplit(cal, a, a', b);
      WorkSplit(cal, a', b', b);
    }
  }

  lemma {:induction false} WorkAtMost(cal: Calendar, a: int, b: int)
    requires a <= b
    ensures Work(cal, a, b) <= b - a
    decreases b - a
  {
    if a < b {
      WorkAtMost(cal, a, b - 1);
    }
  }

  /** Inside one local day either all of the time counts or none of it. */
  lemma {:induction false} WorkWithinDay(cal: Calendar, a: int, b: int)
    requires a <= b <= LocalMidnightAfter(cal, a)
    ensures Work(cal, a, b) == if Working(cal, a) then b - a else 0
    decreases b - a
  {
    if a < b {
      SameDay(cal, a, b - 1);
      WorkWithinDay(cal, a, b - 1);
    }
  }

  /** The end of the last local day `AddWorkingTime` looks at. */
  function WindowEnd(cal: Calendar, start: int): int {
    Midnight(cal, DayOf(cal, start) + MAX_DAYS)
  }

  /** The instant right after the n-th working microsecond from `start`, found by
      walking back from a `hi` that is late enough. */
  ghost function UnitEnd(cal: Calendar, start: int, n: nat, hi: int): (e: int)
    requires 1 <= n <= Work(cal, start, hi)
    ensures start < e <= hi
    ensures Work(cal, start, e) == n && Working(cal, e - 1)
    decreases hi - start
  {
    if n <= Work(cal, start, hi - 1) then UnitEnd(cal, start, n, hi - 1) else hi
  }

  /** Those two facts pin the instant down. */
  lemma {:induction false} UnitEndUnique(cal: Calendar, start: int, n: nat, e: int, e': int)
    requires start < e && Work(cal, start, e) == n && Working(cal, e - 1)
    requires start < e' && Work(cal, start, e') == n && Working(cal, e' - 1)
    ensures e == e'
  {
    if e < e' {
      WorkMonotone(cal, start, start, e, e' - 1);
    } else if e' < e {
      WorkMonotone(cal, start, start, e', e - 1);
    }
  }

  /** What `AddWorkingTime` is for. A positive duration ends right after its last
      working microsecond. A zero or negative one is counted from the first
      working instant at or after `start`. The window must hold enough working
      time, and at least one working microsecond in any case. */
  ghost function Advance(cal: Calendar, start: int, duration: int): (r: Result<int, CalendarError>)
    ensures r.Failure? <==> Work(cal, start, WindowEnd(cal, start)) < Max(1, duration)
    ensures r.Success? && duration > 0 ==>
      && start < r.value <= WindowEnd(cal, start)
      && Work(cal, start, r.value) == duration && Working(cal, r.value - 1)
    ensures r.Success? && duration <= 0 ==>
      && start <= r.value - duration < WindowEnd(cal, start)
      && Work(cal, start, r.value - duration) == 0 && Working(cal, r.value - duration)
  {
    var n := Max(1, duration);
    if Work(cal, start, WindowEnd(cal, start)) < n then Failure(NoWorkingDays)
    else Success(UnitEnd(cal, start, n, WindowEnd(cal, start)) - n + duration)
  }

  /** `add_working_time`: the day-stepping loop finds the instant `Advance` defines. */
  method AddWorkingTime(cal: Calendar, start: int, duration: int) returns (r: Result<int, CalendarError>)
    ensures r == Advance(cal, start, duration)
  {
    var remaining, cursor := duration, start;
    for i := 0 to MAX_DAYS
      invariant start <= cursor && DayOf(cal, cursor) == DayOf(cal, start) + i
      invariant 0 < i ==> cursor == Midnight(cal, DayOf(cal, start) + i)
      invariant remaining == duration - Work(cal, start, cursor)
      invariant Work(cal, start, cursor) < Max(1, duration)
    {
      var dayEnd := LocalMidnightAfter(cal, cursor);
      WorkSplit(cal, start, cursor, dayEnd);
      WorkWithinDay(cal, cursor, dayEnd);
      if IsWorkingDay(cal, DayOf(cal, cursor)) {
        var available := dayEnd - cursor;
        if remaining <= available {
          FoundInDay(cal, start, duration, cursor, duration - remaining);
          return Success(cursor + remaining);
        }
        remaining := remaining - available;
      }
      cursor := dayEnd;
    }
    return Failure(NoWorkingDays);
  }

  /** Any instant in the window that ends the right number of working microseconds
      is the one `Advance` found. */
  lemma {:induction false} AdvanceIs(cal: Calendar, start: int, duration: int, e: int)
    requires start < e <= WindowEnd(cal, start)
    requires Work(cal, start, e) == Max(1, duration) && Working(cal, e - 1)
    ensures Advance(cal, start, duration) == Success(e - Max(1, duration) + duration)
  {
    var hi := WindowEnd(cal, start);
    WorkMonotone(cal, start, start, e, hi);
    UnitEndUnique(cal, start, Max(1, duration), e, UnitEnd(cal, start, Max(1, duration), hi));
  }

  lemma {:induction false} DaysInWindow(cal: Calendar, start: int, cursor: int)
    requires DayOf(cal, cursor) < DayOf(cal, start) + MAX_DAYS
    ensures LocalMidnightAfter(cal, cursor) <= WindowEnd(cal, start)
  {
  }

  /** Part of a working day, measured on top of what came before it. */
  lemma {:induction false} WorkIntoDay(cal: Calendar, start: int, cursor: int, e: int)
    requires start <= cursor < e <= LocalMidnightAfter(cal, cursor) && Working(cal, cursor)
    ensures Work(cal, start, e) == Work(cal, start, cursor) + (e - cursor) && Working(cal, e - 1)
  {
    SameDay(cal, cursor, e - 1);
    WorkSplit(cal, start, cursor, e);
    WorkWithinDay(cal, cursor, e);
  }

  lemma {:induction false} FoundInDay(cal: Calendar, start: int, duration: int, cursor: int, done: nat)
    requires start <= cursor && Working(cal, cursor)
    requires DayOf(cal, cursor) < DayOf(cal, start) + MAX_DAYS
    requires Work(cal, start, cursor) == done < Max(1, duration)
    requires duration - done <= LocalMidnightAfter(cal, cursor) - cursor
    ensures Advance(cal, start, duration) == Success(cursor + duration - done)
  {
    var e := cursor + Max(1, duration) - done;
    DaysInWindow(cal, start, cursor);
    WorkIntoDay(cal, start, cursor, e);
    AdvanceIs(cal, start, duration, e);
  }

  /** `working_time_between`: the day-stepping loop counts what `Work` defines. */
  method WorkingTimeBetween(cal: Calendar, start: int, end: int) returns (total: int)
    ensures total == Work(cal, start, end)
  {
    total := 0;
    var cursor := start;
    while cursor < end
      invariant start <= cursor && (cursor <= end || cursor == start)
      invariant total == Work(cal, start, cursor)
    {
      var midnight := LocalMidnightAfter(cal, cursor);
      var dayEnd := if end < midnight then end else midnight;
      WorkSplit(cal, start, cursor, dayEnd);
      WorkWithinDay(cal, cursor, dayEnd);
      if IsWorkingDay(cal, DayOf(cal, cursor)) {
        total := total + (dayEnd - cursor);
      }
      cursor := dayEnd;
    }
  }

  /** `sla_deadline_from`. */
  method SlaDeadlineFrom(cal: Calendar, start: int, slaHours: int) returns (r: Result<int, CalendarError>)
    ensures r == Advance(cal, start, slaHours * HOUR)
  {
    r := AddWorkingTime(cal, start, slaHours * HOUR);
  }
}
