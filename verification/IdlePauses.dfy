/** Which resumes move the deadline. One whose pause held no working time re-arms
    the notices and moves nothing, so moves alone do not bound the warnings. */
module IdlePauses {
  import opened Wrappers
  import opened People
  import Text
  import opened WorkingTime
  import opened Requests
  import opened SlaLedger
  import opened RequestLaws
  import opened RequestRuns
  import Catalogue

  /** Resumes that change the deadline, among the calls. */
  ghost function CountMoves(cal: Calendar, r: Req, calls: seq<Call>): nat {
    if calls == [] then 0
    else
      var init := calls[..|calls| - 1];
      var before, after := After(cal, r, init), After(cal, r, calls);
      CountMoves(cal, r, init) + if Resumes(before, after) && after.deadline != before.deadline then 1 else 0
  }

  /** Re-arming resumes whose pause held no working time at all. */
  ghost function CountIdlePauses(cal: Calendar, r: Req, calls: seq<Call>): nat {
    if calls == [] then 0
    else
      var init, now := calls[..|calls| - 1], calls[|calls| - 1].at;
      var before, after := After(cal, r, init), After(cal, r, calls);
      CountIdlePauses(cal, r, init)
      + if Rearms(cal, before, after) && Work(cal, before.pausedAt.value, now) == 0 then 1 else 0
  }

  /** A re-arming resume moves the deadline unless its pause was idle. So the
      warnings are bounded by the moves exactly up to the idle pauses. */
  lemma {:induction false} RearmsMoveOrIdle(cal: Calendar, r: Req, calls: seq<Call>)
    requires Ok(cal, r) && InOrder(Last(r).at, calls)
    ensures CountRearms(cal, r, calls) == CountMoves(cal, r, calls) + CountIdlePauses(cal, r, calls)
  {
    if calls != [] {
      var init, last := calls[..|calls| - 1], calls[|calls| - 1];
      RearmsMoveOrIdle(cal, r, init);
      RunOk(cal, r, init);
      var before, after := After(cal, r, init), After(cal, r, calls);
      if Resumes(before, after) {
        if LeftAtPause(cal, before) > 0 {
          ResumeMovesByThePause(cal, before, last.event, last.at);
        } else {
          ResumeWithNothingLeft(cal, before, last.event, last.at);
        }
      }
    }
  }

  /** A resume that clears a warning and moves nothing: what the program can tell
      beforehand of the branch that re-arms the notices. */
  ghost predicate WarnedIdle(cal: Calendar, r: Req, r': Req, now: int) {
    Rearms(cal, r, r') && r.warnedAt.Some? && Work(cal, r.pausedAt.value, now) == 0
  }

  ghost function CountWarnedIdle(cal: Calendar, r: Req, calls: seq<Call>): nat {
    if calls == [] then 0
    else
      var init := calls[..|calls| - 1];
      CountWarnedIdle(cal, r, init)
      + if WarnedIdle(cal, After(cal, r, init), After(cal, r, calls), calls[|calls| - 1].at) then 1 else 0
  }

  /** A re-arming resume moves the deadline or its pause was idle. */
  lemma {:induction false} RearmMovesOrIdle(cal: Calendar, r: Req, e: Event, now: int)
    requires Ok(cal, r) && Last(r).at <= now && Rearms(cal, r, Next(cal, r, e, now))
    ensures Next(cal, r, e, now).deadline != r.deadline <==> Work(cal, r.pausedAt.value, now) > 0
  {
    ResumeMovesByThePause(cal, r, e, now);
  }

  /** Over every run the warnings are at most one, plus one for each resume that
      moved the deadline, plus one for each idle resume of a warned request. So the
      first two are a bound for every run without such a resume. */
  lemma {:induction false} MovesBoundWarnings(cal: Calendar, r: Req, calls: seq<Call>)
    requires Ok(cal, r) && InOrder(Last(r).at, calls)
    requires Count(r.history, WarningNotice) == 0 && r.warnedAt.None?
    ensures var r' := After(cal, r, calls);
      Count(r'.history, WarningNotice) + StillSilent(r')
      <= 1 + CountMoves(cal, r, calls) + CountWarnedIdle(cal, r, calls)
  {
    if calls != [] {
      var init, last := calls[..|calls| - 1], calls[|calls| - 1];
      MovesBoundWarnings(cal, r, init);
      RunOk(cal, r, init);
      BoundStep(cal, After(cal, r, init), last.event, last.at);
    }
  }

  lemma {:induction false} BoundStep(cal: Calendar, r: Req, e: Event, now: int)
    requires Ok(cal, r) && Last(r).at <= now
    ensures var r' := Next(cal, r, e, now);
      Count(r'.history, WarningNotice) + StillSilent(r')
      <= Count(r.history, WarningNotice) + StillSilent(r)
         + (if Resumes(r, r') && r'.deadline != r.deadline then 1 else 0)
         + (if WarnedIdle(cal, r, r', now) then 1 else 0)
  {
    var r' := Next(cal, r, e, now);
    OneEntry(cal, r, e, now);
    if r' != r {
      CountOneMore(r.history, Last(r'), WarningNotice);
    }
    if Rearms(cal, r, r') {
      RearmMovesOrIdle(cal, r, e, now);
    }
  }

  lemma {:induction false} OneCallMore(cal: Calendar, r: Req, calls: seq<Call>, c: Call)
    ensures var before := After(cal, r, calls);
      var after := Next(cal, before, c.event, c.at);
      && After(cal, r, calls + [c]) == after
      && CountMoves(cal, r, calls + [c])
         == CountMoves(cal, r, calls) + if Resumes(before, after) && after.deadline != before.deadline then 1 else 0
  {
    assert (calls + [c])[..|calls|] == calls;
  }

  /** A resume into work with time left, and a sweep in the warning window after it. */
  ghost predicate ResumedThenSwept(cal: Calendar, r: Req, e: Event, now: int, again: int) {
    && Ok(cal, r) && Last(r).at <= now <= again
    && Rearms(cal, r, Next(cal, r, e, now)) && Next(cal, r, e, now).status.InProgress?
    && again <= Next(cal, r, e, now).deadline < again + WARN_BEFORE
  }

  lemma {:induction false} ResumedIsUnwarned(cal: Calendar, r: Req, e: Event, now: int)
    requires Ok(cal, r) && Last(r).at <= now
    requires Rearms(cal, r, Next(cal, r, e, now)) && Next(cal, r, e, now).status.InProgress?
    ensures Unwarned(Next(cal, r, e, now))
    ensures Count(Next(cal, r, e, now).history, WarningNotice) == Count(r.history, WarningNotice)
  {
    var r' := Next(cal, r, e, now);
    OneEntry(cal, r, e, now);
    NextOk(cal, r, e, now);
    CountOneMore(r.history, Last(r'), WarningNotice);
  }

  /** After a resume and a sweep there is one warning more, and one more move if and
      only if the pause held working time. */
  lemma {:induction false} WarnedAfterResume(cal: Calendar, r: Req, e: Event, now: int, again: int)
    requires ResumedThenSwept(cal, r, e, now, again)
    ensures var back := Next(cal, r, e, now);
      var swept := Next(cal, back, Swept, again);
      && Count(swept.history, WarningNotice) == Count(r.history, WarningNotice) + 1
      && Resumes(r, back) && !Resumes(back, swept)
      && (back.deadline != r.deadline <==> Work(cal, r.pausedAt.value, now) > 0)
  {
    ResumedIsUnwarned(cal, r, e, now);
    RearmMovesOrIdle(cal, r, e, now);
    WarnStep(cal, Next(cal, r, e, now), again);
  }

  /** Where the bound breaks. From a run that has used it up, a resume with time left
      and a sweep in the warning window exceed one warning plus one per resume that
      moved the deadline exactly if the pause held no working time. */
  lemma {:induction false} BoundBreaksExactlyWhenIdle(
      cal: Calendar, r: Req, calls: seq<Call>, e: Event, now: int, again: int)
    requires ResumedThenSwept(cal, After(cal, r, calls), e, now, again)
    requires Count(After(cal, r, calls).history, WarningNotice) == 1 + CountMoves(cal, r, calls)
    ensures var longer := calls + [Call(now, e)] + [Call(again, Swept)];
      Count(After(cal, r, longer).history, WarningNotice) > 1 + CountMoves(cal, r, longer)
      <==> Work(cal, After(cal, r, calls).pausedAt.value, now) == 0
  {
    WarnedAfterResume(cal, After(cal, r, calls), e, now, again);
    OneCallMore(cal, r, calls, Call(now, e));
    OneCallMore(cal, r, calls + [Call(now, e)], Call(again, Swept));
  }

  /** In work and not yet warned. */
  predicate Unwarned(r: Req) {
    r.status.InProgress? && r.pausedAt.None? && r.warnedAt.None? && r.breachedAt.None?
  }

  lemma {:induction false} WarnStep(cal: Calendar, r: Req, now: int)
    requires Unwarned(r) && now <= r.deadline < now + WARN_BEFORE
    ensures var r' := Next(cal, r, Swept, now);
      && r'.status.InProgress? && r'.pausedAt.None? && r'.deadline == r.deadline
      && r'.studentId == r.studentId && r'.assignedTo == r.assignedTo
      && Count(r'.history, WarningNotice) == Count(r.history, WarningNotice) + 1
  {
    CountOneMore(r.history, Entry(now, None, Some(InProgress), InProgress, WarningNotice), WarningNotice);
  }

  lemma {:induction false} ReturnStep(cal: Calendar, r: Req, p: int, clerk: User, why: string)
    requires r.status.InProgress? && r.pausedAt.None? && Handles(r, clerk) && !Text.Blank(why)
    ensures var r' := Next(cal, r, Transit(clerk, Returned, Some(why)), p);
      && r'.status.Returned? && r'.pausedAt == Some(p)
      && r'.deadline == r.deadline && r'.studentId == r.studentId
      && Count(r'.history, WarningNotice) == Count(r.history, WarningNotice)
  {
    CountOneMore(r.history, Entry(p, Some(clerk.id), Some(InProgress), Returned, Moved), WarningNotice);
  }

  /** Coming back from an idle pause with time left. */
  lemma {:induction false} IdlePause(cal: Calendar, r: Req, now: int)
    requires r.status.Returned? && r.pausedAt.Some? && r.pausedAt.value <= now < r.deadline
    requires Work(cal, r.pausedAt.value, now) == 0
    requires Working(cal, r.deadline - 1) && r.deadline <= WindowEnd(cal, now)
    ensures var r' := Next(cal, r, SendBack(r.studentId), now);
      && Unwarned(r') && r'.deadline == r.deadline
      && Count(r'.history, WarningNotice) == Count(r.history, WarningNotice)
  {
    CountOneMore(r.history, Entry(now, Some(r.studentId), Some(Returned), InProgress, Resubmitted), WarningNotice);
    WorkSplit(cal, r.pausedAt.value, now, r.deadline);
    assert Work(cal, now, r.deadline) == Work(cal, now, r.deadline - 1) + 1;
    AdvanceIs(cal, now, LeftAtPause(cal, r), r.deadline);
  }

  lemma {:induction false} WarnAndReturn(cal: Calendar, r: Req, t: int, p: int, clerk: User, why: string)
    requires Unwarned(r) && t <= p && t <= r.deadline < t + WARN_BEFORE
    requires Handles(r, clerk) && !Text.Blank(why)
    ensures var r' := Next(cal, Next(cal, r, Swept, t), Transit(clerk, Returned, Some(why)), p);
      && r'.status.Returned? && r'.pausedAt == Some(p)
      && r'.deadline == r.deadline && r'.studentId == r.studentId
      && Count(r'.history, WarningNotice) == Count(r.history, WarningNotice) + 1
  {
    WarnStep(cal, r, t);
    ReturnStep(cal, Next(cal, r, Swept, t), p, clerk, why);
  }

  lemma {:induction false} BackAndWarnedAgain(cal: Calendar, r: Req, back: Req, p: int, now: int, again: int)
    requires r.status.Returned? && r.pausedAt == Some(p)
    requires p <= now <= again < r.deadline < again + WARN_BEFORE
    requires Work(cal, p, now) == 0 && Working(cal, r.deadline - 1) && r.deadline <= WindowEnd(cal, now)
    requires back == Next(cal, r, SendBack(r.studentId), now)
    ensures Resumes(r, back) && back.deadline == r.deadline
    ensures var r' := Next(cal, back, Swept, again);
      r'.deadline == r.deadline && Count(r'.history, WarningNotice) == Count(r.history, WarningNotice) + 1
  {
    IdlePause(cal, r, now);
    WarnStep(cal, back, again);
  }

  /** The calls of a request warned at `t`, returned at `p`, sent back at `now` and
      swept `again`. */
  function Twice(studentId: int, t: int, p: int, now: int, again: int, clerk: User, why: string): seq<Call> {
    [] + [Call(t, Swept)] + [Call(p, Transit(clerk, Returned, Some(why)))]
    + [Call(now, SendBack(studentId))] + [Call(again, Swept)]
  }

  lemma {:induction false} FourCalls(cal: Calendar, r: Req, a: Req, b: Req, c: Req, w: Call, x: Call, y: Call, z: Call)
    requires a == Next(cal, r, w.event, w.at) && b == Next(cal, a, x.event, x.at) && c == Next(cal, b, y.event, y.at)
    requires a.deadline == b.deadline == c.deadline == r.deadline == Next(cal, c, z.event, z.at).deadline
    ensures var calls := [] + [w] + [x] + [y] + [z];
      After(cal, r, calls) == Next(cal, c, z.event, z.at) && CountMoves(cal, r, calls) == 0
  {
    OneCallMore(cal, r, [], w);
    OneCallMore(cal, r, [] + [w], x);
    OneCallMore(cal, r, [] + [w] + [x], y);
    OneCallMore(cal, r, [] + [w] + [x] + [y], z);
  }

  /** One warning plus one per resume that moved the deadline is not a bound: with no
      working time between the return and the resume, these calls bring two warnings
      and no move. */
  lemma {:induction false} WarnedTwiceWithoutMoving(
      cal: Calendar, r: Req, t: int, p: int, now: int, again: int, clerk: User, why: string)
    requires Unwarned(r) && t <= p <= now <= again < r.deadline < t + WARN_BEFORE
    requires Work(cal, p, now) == 0 && Working(cal, r.deadline - 1) && r.deadline <= WindowEnd(cal, now)
    requires Handles(r, clerk) && !Text.Blank(why)
    ensures var calls := Twice(r.studentId, t, p, now, again, clerk, why);
      && Count(After(cal, r, calls).history, WarningNotice) == Count(r.history, WarningNotice) + 2
      && CountMoves(cal, r, calls) == 0 && After(cal, r, calls).deadline == r.deadline
  {
    WarnStep(cal, r, t);
    var warned := Next(cal, r, Swept, t);
    WarnAndReturn(cal, r, t, p, clerk, why);
    var returned := Next(cal, warned, Transit(clerk, Returned, Some(why)), p);
    var back := Next(cal, returned, SendBack(r.studentId), now);
    BackAndWarnedAgain(cal, returned, back, p, now, again);
    FourCalls(cal, r, warned, returned, back, Call(t, Swept), Call(p, Transit(clerk, Returned, Some(why))),
              Call(now, SendBack(r.studentId)), Call(again, Swept));
  }

  // A request this happens to.

  /** The second day is off; every other day is worked. */
  function OneDayOff(): Calendar {
    Calendar(0, {0, 1, 2, 3, 4, 5, 6}, day => day == 1)
  }

  /** A midnight before a working day, a day off and half a working day. */
  predicate AroundDayOff(cal: Calendar, a: int, b: int, c: int, due: int) {
    && a == Midnight(cal, 0) && b == Midnight(cal, 1) && c == Midnight(cal, 2) && due == c + 12 * HOUR
    && IsWorkingDay(cal, 0) && !IsWorkingDay(cal, 1) && IsWorkingDay(cal, 2)
  }

  lemma {:induction false} WorkFromMidnight(cal: Calendar, day: int, from: int, to: int)
    requires Midnight(cal, day) <= from <= to <= Midnight(cal, day + 1)
    ensures Work(cal, from, to) == if IsWorkingDay(cal, day) then to - from else 0
    ensures from < to ==> (Working(cal, to - 1) <==> IsWorkingDay(cal, day))
  {
    if from < to {
      assert DayOf(cal, from) == day;
      WorkWithinDay(cal, from, to);
      SameDay(cal, from, to - 1);
    }
  }

  lemma {:induction false} WorkAroundDayOff(cal: Calendar, a: int, b: int, c: int, due: int)
    requires AroundDayOff(cal, a, b, c, due)
    ensures Work(cal, a, b) == DAY && Work(cal, b, c) == 0 && Work(cal, c, due) == 12 * HOUR
    ensures Work(cal, b + 14 * HOUR, b + 15 * HOUR) == 0
    ensures Working(cal, due - 1) && due <= WindowEnd(cal, a)
  {
    WorkFromMidnight(cal, 0, a, b);
    WorkFromMidnight(cal, 1, b, c);
    WorkFromMidnight(cal, 2, c, due);
    WorkFromMidnight(cal, 1, b + 14 * HOUR, b + 15 * HOUR);
  }

  /** 36 hours from that midnight. */
  lemma {:induction false} DueAroundDayOff(cal: Calendar, a: int, b: int, c: int, due: int)
    requires AroundDayOff(cal, a, b, c, due)
    ensures Advance(cal, a, 36 * HOUR) == Success(due)
    ensures Work(cal, b + 14 * HOUR, b + 15 * HOUR) == 0 && Working(cal, due - 1)
  {
    WorkAroundDayOff(cal, a, b, c, due);
    WorkSplit(cal, a, b, c);
    WorkSplit(cal, a, c, due);
    AdvanceIs(cal, a, 36 * HOUR, due);
  }

  /** A 36-hour service, its student, the clerk who handles the request and what the
      clerk writes when returning it. */
  predicate Cast(student: User, service: Catalogue.Category, clerk: User, why: string) {
    && Catalogue.RowOk(service) && service.parentId.Some?
    && service.slaHours == 36 && service.routing.FacultyManager?
    && !clerk.ReadOnly() && !Text.Blank(why)
  }

  lemma {:induction false} SomeCast()
    returns (student: User, service: Catalogue.Category, clerk: User, why: string)
    ensures Cast(student, service, clerk, why)
  {
    student, clerk, why := User(7, Some(Student), true, None, None), User(9, Some(Staff), true, None, None), "?";
    service := Catalogue.Category(
      5, Some(1), "x", None, 36, Catalogue.Normal, Catalogue.FacultyManager, None, None, None, true);
    assert why[0] in why && !Text.IsSpace(why[0]);
  }

  lemma {:induction false} SomeDayOff() returns (cal: Calendar, a: int, b: int, c: int, due: int)
    ensures AroundDayOff(cal, a, b, c, due)
  {
    cal, a, b, c, due := OneDayOff(), 0, DAY, 2 * DAY, 2 * DAY + 12 * HOUR;
  }

  lemma {:induction false} FiledBeforeDayOff(
      cal: Calendar, a: int, b: int, c: int, due: int,
      student: User, service: Catalogue.Category, clerk: User, why: string)
    requires AroundDayOff(cal, a, b, c, due) && Cast(student, service, clerk, why)
    ensures var filed := File(cal, student, service, Some(clerk.id), a);
      && filed.Success? && Unwarned(filed.value) && Handles(filed.value, clerk)
      && filed.value.deadline == due && filed.value.studentId == student.id
      && Count(filed.value.history, WarningNotice) == 0
  {
    DueAroundDayOff(cal, a, b, c, due);
    FiledHasNoNotices(cal, student, service, Some(clerk.id), a);
  }

  /** Filed a day before a day off and due at noon after it; warned, returned, resumed
      and swept again on the day off, an hour apart. */
  lemma {:induction false} TwiceOnDayOff(
      cal: Calendar, a: int, b: int, c: int, due: int, r: Req, clerk: User, why: string,
      t: int, p: int, now: int, again: int)
    requires AroundDayOff(cal, a, b, c, due)
    requires t == b + 13 * HOUR && p == t + HOUR && now == p + HOUR && again == now + HOUR
    requires Unwarned(r) && r.deadline == due && Handles(r, clerk) && !Text.Blank(why)
    requires Count(r.history, WarningNotice) == 0
    ensures var calls := Twice(r.studentId, t, p, now, again, clerk, why);
      && Count(After(cal, r, calls).history, WarningNotice) == 2 && CountMoves(cal, r, calls) == 0
  {
    DueAroundDayOff(cal, a, b, c, due);
    WarnedTwiceWithoutMoving(cal, r, t, p, now, again, clerk, why);
  }

  /** A resume after an idle pause that `BoundBreaksExactlyWhenIdle` speaks of. */
  lemma {:induction false} IdleResumeFits(cal: Calendar, b: Req, now: int, again: int)
    requires Ok(cal, b) && b.status.Returned? && Last(b).at <= now && b.pausedAt.value <= now
    requires Work(cal, b.pausedAt.value, now) == 0
    requires now <= again < b.deadline < again + WARN_BEFORE && b.deadline <= WindowEnd(cal, now)
    ensures ResumedThenSwept(cal, b, SendBack(b.studentId), now, again)
  {
    var back := Next(cal, b, SendBack(b.studentId), now);
    TimeIsLeft(cal, b.pausedAt.value, now, b.deadline);
    IdlePause(cal, b, now);
    BackFits(cal, b, back, now, again);
  }

  lemma {:induction false} TimeIsLeft(cal: Calendar, p: int, now: int, due: int)
    requires p <= now < due && Working(cal, due - 1)
    ensures Work(cal, p, due) > 0
  {
    assert Work(cal, p, due) == Work(cal, p, due - 1) + 1;
  }

  lemma {:induction false} BackFits(cal: Calendar, b: Req, back: Req, now: int, again: int)
    requires Ok(cal, b) && b.status.Returned? && Last(b).at <= now
    requires back == Next(cal, b, SendBack(b.studentId), now)
    requires Unwarned(back) && back.deadline == b.deadline && LeftAtPause(cal, b) > 0
    requires now <= again < b.deadline < again + WARN_BEFORE
    ensures ResumedThenSwept(cal, b, SendBack(b.studentId), now, again)
  {
  }

  /** A run that ends before such a resume and has used the bound up: warned at `t`
      and returned at `p`. */
  lemma {:induction false} WarnedAndReturnedIsTight(
      cal: Calendar, r: Req, calls: seq<Call>, warned: Req, t: int, p: int, clerk: User, why: string)
    requires Ok(cal, r) && Last(r).at <= t && Count(r.history, WarningNotice) == 0
    requires Unwarned(r) && t <= p && t <= r.deadline < t + WARN_BEFORE
    requires Handles(r, clerk) && !Text.Blank(why)
    requires warned == Next(cal, r, Swept, t)
    requires calls == [] + [Call(t, Swept)] + [Call(p, Transit(clerk, Returned, Some(why)))]
    ensures var b := After(cal, r, calls);
      && Ok(cal, b) && b.status.Returned? && b.pausedAt == Some(p) && Last(b).at <= p && b.deadline == r.deadline
      && Count(b.history, WarningNotice) == 1 + CountMoves(cal, r, calls)
  {
    WarnStep(cal, r, t);
    NextOk(cal, r, Swept, t);
    WarnAndReturn(cal, r, t, p, clerk, why);
    NextOk(cal, warned, Transit(clerk, Returned, Some(why)), p);
    OneCallMore(cal, r, [], Call(t, Swept));
    OneCallMore(cal, r, [] + [Call(t, Swept)], Call(p, Transit(clerk, Returned, Some(why))));
  }

  /** Such a request exists: two warnings, no resume that moved the deadline. */
  lemma {:induction false} WarnedTwiceHappens()
    returns (cal: Calendar, student: User, service: Catalogue.Category, clerk: User, filedAt: int, calls: seq<Call>)
    ensures Catalogue.RowOk(service) && service.parentId.Some?
    ensures File(cal, student, service, Some(clerk.id), filedAt).Success? && InOrder(filedAt, calls)
    ensures var filed := File(cal, student, service, Some(clerk.id), filedAt).value;
      && Count(After(cal, filed, calls).history, WarningNotice) == 2
      && CountMoves(cal, filed, calls) == 0
  {
    var a, b, c, due;
    cal, a, b, c, due := SomeDayOff();
    var why;
    student, service, clerk, why := SomeCast();
    filedAt := a;
    var t, p, now, again := b + 13 * HOUR, b + 14 * HOUR, b + 15 * HOUR, b + 16 * HOUR;
    calls := Twice(student.id, t, p, now, again, clerk, why);
    FiledBeforeDayOff(cal, a, b, c, due, student, service, clerk, why);
    var filed := File(cal, student, service, Some(clerk.id), a).value;
    TwiceOnDayOff(cal, a, b, c, due, filed, clerk, why, t, p, now, again);
    TwiceInOrder(student.id, t, p, now, again, clerk, why, a);
  }

  lemma {:induction false} TwiceInOrder(
      studentId: int, t: int, p: int, now: int, again: int, clerk: User, why: string, filedAt: int)
    requires filedAt <= t <= p <= now <= again
    ensures InOrder(filedAt, Twice(studentId, t, p, now, again, clerk, why))
  {
    var one := [] + [Call(t, Swept)];
    var two := one + [Call(p, Transit(clerk, Returned, Some(why)))];
    var three := two + [Call(now, SendBack(studentId))];
    InOrderOneMore(filedAt, [], Call(t, Swept));
    InOrderOneMore(filedAt, one, Call(p, Transit(clerk, Returned, Some(why))));
    InOrderOneMore(filedAt, two, Call(now, SendBack(studentId)));
    InOrderOneMore(filedAt, three, Call(again, Swept));
  }

  lemma {:induction false} InOrderOneMore(start: int, calls: seq<Call>, c: Call)
    requires InOrder(start, calls) && End(start, calls) <= c.at
    ensures InOrder(start, calls + [c]) && End(start, calls + [c]) == c.at
  {
    assert (calls + [c])[..|calls|] == calls;
  }
}
