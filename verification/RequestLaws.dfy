/** What holds of a stored request after every step, and what follows: the SLA
    accounting, the finality of closing and of a breach, and how a resume moves
    the deadline. */
module RequestLaws {
  import opened Wrappers
  import opened Text
  import opened People
  import opened WorkingTime
  import opened CalendarLaws
  import opened Requests
  import opened SlaLedger

  /** The request as `_apply_status` finds it: unchanged, or with a final answer
      already written into it. */
  ghost predicate ReadyFor(r: Req, a: Req, to: Status) {
    if to.Completed? then
      && a == r.(answerText := a.answerText, answeredAt := a.answeredAt, answeredBy := a.answeredBy)
      && a.answerText.Some? && !Blank(a.answerText.value) && a.answeredAt.Some?
    else a == r
  }

  lemma {:induction false} ApplyStatusClock(cal: Calendar, r: Req, to: Status, now: int)
    requires Ok(cal, r) && r.status.Open() && to != r.status && !to.Rejected? && !to.Accepted? && !to.New?
    requires Last(r).at <= now && ApplyStatus(cal, r, to, now).Success?
    ensures var r' := ApplyStatus(cal, r, to, now).value;
      && InStep(cal, r'.deadline, Held(cal, r.history, now), now, Budget(r))
      && Working(cal, r'.deadline - 1)
      && (r'.deadline != r.deadline ==> now < r'.deadline)
      && (r.status.Returned? && LeftAtPause(cal, r) > 0 ==> now < r'.deadline)
      && (r'.pausedAt.Some? <==> to.Returned?) && (to.Returned? ==> r'.pausedAt == Some(now))
      && (r'.breachedAt.Some? ==>
            r'.breachedAt == r.breachedAt && r'.warnedAt == r.warnedAt && r'.deadline == r.deadline)
  {
    ClockForward(cal, r, now);
    if r.status.Returned? {
      var held := Held(cal, r.history, now);
      if LeftAtPause(cal, r) > 0 {
        ResumedInStep(cal, r.deadline, held, r.pausedAt.value, now, Budget(r));
      } else {
        StoppedInStep(cal, r.deadline, held, r.pausedAt.value, now, Budget(r));
      }
    }
  }

  /** A status change the program may make to a request in order. */
  ghost predicate ChangeFits(cal: Calendar, r: Req, a: Req, to: Status, now: int, note: Note) {
    && Ok(cal, r) && Last(r).at <= now
    && r.status.Open() && to != r.status && (to.InProgress? || to.Returned? || to.Completed?)
    && ReadyFor(r, a, to) && LegalMove(r.status, to, note)
    && ApplyStatus(cal, a, to, now).Success?
  }

  ghost function Changed(cal: Calendar, r: Req, a: Req, to: Status, now: int, changedBy: Option<int>, note: Note): Req
    requires ChangeFits(cal, r, a, to, now, note)
  {
    Log(ApplyStatus(cal, a, to, now).value, now, changedBy, r.status, to, note)
  }

  lemma {:induction false} ChangedShape(
      cal: Calendar, r: Req, a: Req, to: Status, now: int, changedBy: Option<int>, note: Note)
    requires ChangeFits(cal, r, a, to, now, note)
    ensures var r' := Changed(cal, r, a, to, now, changedBy, note);
      ShapeOk(r') && r'.history == r.history + [Entry(now, changedBy, Some(r.status), to, note)]
  {
  }

  /** What a status change does to the columns the clock is read from. */
  lemma {:induction false} ChangedColumns(
      cal: Calendar, r: Req, a: Req, to: Status, now: int, changedBy: Option<int>, note: Note)
    requires ChangeFits(cal, r, a, to, now, note)
    ensures ApplyStatus(cal, r, to, now).Success?
    ensures var r', m := Changed(cal, r, a, to, now, changedBy, note), ApplyStatus(cal, r, to, now).value;
      && r'.status == to && r'.slaHours == r.slaHours && r'.deadline == m.deadline
      && r'.pausedAt == m.pausedAt && r'.warnedAt == m.warnedAt && r'.breachedAt == m.breachedAt
      && r'.closedAt == (if to.Closed() then Some(now) else r.closedAt)
      && r'.history == r.history + [Entry(now, changedBy, Some(r.status), to, note)]
  {
  }

  lemma {:induction false} ChangedStamps(
      cal: Calendar, r: Req, a: Req, to: Status, now: int, changedBy: Option<int>, note: Note)
    requires ChangeFits(cal, r, a, to, now, note)
    ensures StampsOk(Changed(cal, r, a, to, now, changedBy, note))
  {
    ChangedColumns(cal, r, a, to, now, changedBy, note);
    ApplyStatusClock(cal, r, to, now);
  }

  lemma {:induction false} ChangedClock(
      cal: Calendar, r: Req, a: Req, to: Status, now: int, changedBy: Option<int>, note: Note)
    requires ChangeFits(cal, r, a, to, now, note)
    ensures ClockOk(cal, Changed(cal, r, a, to, now, changedBy, note))
  {
    ChangedColumns(cal, r, a, to, now, changedBy, note);
    ApplyStatusClock(cal, r, to, now);
    LogClock(cal, r.history, Entry(now, changedBy, Some(r.status), to, note));
    var r' := Changed(cal, r, a, to, now, changedBy, note);
    assert Last(r').at == now && ClockAt(r') == now;
  }

  /** Every status change keeps the request in order. */
  lemma {:induction false} StatusChangeOk(
      cal: Calendar, r: Req, a: Req, to: Status, now: int, changedBy: Option<int>, note: Note)
    requires ChangeFits(cal, r, a, to, now, note)
    ensures var r' := Changed(cal, r, a, to, now, changedBy, note);
      Ok(cal, r') && Last(r').at == now
  {
    ChangedShape(cal, r, a, to, now, changedBy, note);
    ChangedStamps(cal, r, a, to, now, changedBy, note);
    ChangedClock(cal, r, a, to, now, changedBy, note);
    LogHistory(r, now, changedBy, to, note);
  }

  lemma {:induction false} AssignOk(cal: Calendar, r: Req, actor: User, users: map<int, User>, assigneeId: int,
                  f: Option<int>, d: Option<int>, now: int)
    requires Ok(cal, r) && Last(r).at <= now
    requires Assign(r, actor, users, assigneeId, f, d, now).Success?
    ensures var r' := Assign(r, actor, users, assigneeId, f, d, now).value;
      Ok(cal, r') && Last(r').at == now && r'.deadline == r.deadline
  {
    var r' := Assign(r, actor, users, assigneeId, f, d, now).value;
    var e := Entry(now, Some(actor.id), Some(r.status), r.status, Assigned);
    assert r'.history == r.history + [e];
    LogHistory(r, now, Some(actor.id), r.status, Assigned);
    LogClock(cal, r.history, e);
    ClockForward(cal, r, now);
  }

  lemma {:induction false} SweepClock(cal: Calendar, r: Req, now: int, e: Entry)
    requires Ok(cal, r) && Last(r).at <= now && r.status.SlaRunning()
    requires Sweep(r, now).history == r.history + [e] && e.at == now
    ensures ClockOk(cal, Sweep(r, now))
  {
    LogClock(cal, r.history, e);
    ClockForward(cal, r, now);
  }

  lemma {:induction false} SweepOk(cal: Calendar, r: Req, now: int)
    requires Ok(cal, r) && Last(r).at <= now && Candidate(r, now)
    ensures Ok(cal, Sweep(r, now)) && Last(Sweep(r, now)).at == now
  {
    var note := if r.deadline < now then BreachNotice else WarningNotice;
    LogHistory(r, now, None, r.status, note);
    SweepClock(cal, r, now, Entry(now, None, Some(r.status), r.status, note));
  }

  /** Every step keeps every request in order. */
  lemma {:induction false} NextOk(cal: Calendar, r: Req, e: Event, now: int)
    requires Ok(cal, r) && Last(r).at <= now
    ensures Ok(cal, Next(cal, r, e, now)) && Last(Next(cal, r, e, now)).at <= now
  {
    if Try(cal, r, e, now).Success? {
      match e
      case Transit(actor, to, comment) =>
        StatusChangeOk(cal, r, r, to, now, Some(actor.id), Moved);
      case Reply(actor, text) =>
        StripBlank(text);
        var a := r.(answerText := Some(Strip(text)), answeredAt := Some(now), answeredBy := Some(actor.id));
        StatusChangeOk(cal, r, a, Completed, now, Some(actor.id), Note.Answered);
      case SendBack(studentId) =>
        StatusChangeOk(cal, r, r, InProgress, now, Some(studentId), Resubmitted);
      case Reassign(actor, users, assigneeId, f, d) =>
        AssignOk(cal, r, actor, users, assigneeId, f, d, now);
      case Swept =>
        if Candidate(r, now) {
          SweepOk(cal, r, now);
        }
    }
  }

  // Consequences for a single request.

  /** At any instant the clock runs, the deadline has passed exactly when the
      working time the office has held the request has reached the budget. */
  lemma {:induction false} OverdueExactlyWhenBudgetSpent(cal: Calendar, r: Req, now: int)
    requires Ok(cal, r) && r.status.SlaRunning() && Last(r).at <= now
    ensures r.deadline <= now <==> Budget(r) <= Held(cal, r.history, now)
  {
    ClockForward(cal, r, now);
    PassedExactlyWhenSpent(cal, r.deadline, Held(cal, r.history, now), now, Budget(r));
  }

  /** A request closed before its budget was used is on time, one closed on time
      never used more than its budget, and apart from closing at the very instant
      of the deadline the two are the same. */
  lemma {:induction false} ClosedOnTime(cal: Calendar, r: Req, now: int)
    requires Ok(cal, r) && r.status.Closed() && r.closedAt.value <= now
    ensures var held := Held(cal, r.history, now);
      && (held < Budget(r) ==> r.closedAt.value < r.deadline)
      && (r.closedAt.value <= r.deadline ==> held <= Budget(r))
      && (r.closedAt.value <= r.deadline <==> held < Budget(r) || r.closedAt.value == r.deadline)
  {
    PassedExactlyWhenSpent(cal, r.deadline, Held(cal, r.history, now), r.closedAt.value, Budget(r));
  }

  /** After closing no step changes anything. */
  lemma {:induction false} ClosedIsFinal(cal: Calendar, r: Req, e: Event, now: int)
    requires r.status.Closed()
    ensures Next(cal, r, e, now) == r
  {
  }

  /** A status change out of `returned`. */
  predicate Resumes(r: Req, r': Req) {
    r.status.Returned? && !r'.status.Returned?
  }

  /** A resume moves the deadline by exactly the pause: what was left at the pause
      is left from now, the working time between the deadlines is the working
      time of the pause, and the deadline moves, later, exactly if the pause
      held any. */
  lemma {:induction false} ResumeMovesByThePause(cal: Calendar, r: Req, e: Event, now: int)
    requires Ok(cal, r) && Last(r).at <= now
    requires Resumes(r, Next(cal, r, e, now)) && LeftAtPause(cal, r) > 0
    ensures var p, d, d' := r.pausedAt.value, r.deadline, Next(cal, r, e, now).deadline;
      && p < d <= d' && now < d'
      && Work(cal, now, d') == Work(cal, p, d)
      && Work(cal, d, d') == Work(cal, p, now)
      && (d' == d <==> Work(cal, p, now) == 0)
  {
    assert Advance(cal, now, LeftAtPause(cal, r)) == Success(Next(cal, r, e, now).deadline);
    MovedByThePause(cal, r.pausedAt.value, r.deadline, now, Next(cal, r, e, now).deadline);
  }

  lemma {:induction false} MovedByThePause(cal: Calendar, p: int, d: int, now: int, d': int)
    requires p <= now && Working(cal, d - 1) && Work(cal, p, d) > 0
    requires Advance(cal, now, Work(cal, p, d)) == Success(d')
    ensures p < d <= d' && now < d'
    ensures Work(cal, now, d') == Work(cal, p, d) && Work(cal, d, d') == Work(cal, p, now)
    ensures d' == d <==> Work(cal, p, now) == 0
  {
    WorkSplit(cal, p, now, d');
    if d' < d {
      WorkMonotone(cal, p, p, d', d - 1);
    }
    WorkSplit(cal, p, d, d');
    if d < d' {
      assert Work(cal, d, d') == Work(cal, d, d' - 1) + 1;
    }
  }

  /** What was left at the pause was never more than the budget. */
  lemma {:induction false} LeftWithinBudget(cal: Calendar, r: Req)
    requires Ok(cal, r) && r.status.Returned?
    ensures LeftAtPause(cal, r) <= Max(0, Budget(r))
  {
  }

  /** With a Monday-to-Friday week and few enough holidays ahead, a request whose
      service allows at most 720 hours never meets the calendar's limit. */
  lemma {:induction false} CalendarNeverGivesUp(cal: Calendar, r: Req, e: Event, now: int)
    requires Ok(cal, r) && r.slaHours <= 720
    requires cal.workdays == MONDAY_TO_FRIDAY && LostDays(cal, DayOf(cal, now), MAX_DAYS) <= 2583
    ensures Try(cal, r, e, now) != Failure(CalendarGaveUp)
  {
    if r.status.Returned? {
      LeftWithinBudget(cal, r);
      WeekNeverRunsOut(cal, now, LeftAtPause(cal, r));
    }
  }

  /** With nothing left at the pause, the deadline and the markers stay. */
  lemma {:induction false} ResumeWithNothingLeft(cal: Calendar, r: Req, e: Event, now: int)
    requires Ok(cal, r) && Resumes(r, Next(cal, r, e, now)) && LeftAtPause(cal, r) == 0
    ensures var r' := Next(cal, r, e, now);
      r'.deadline == r.deadline && r'.warnedAt == r.warnedAt && r'.breachedAt == r.breachedAt
    ensures r.deadline <= r.pausedAt.value
  {
  }

  /** Once a breach is marked, no step clears the mark or moves the deadline. */
  lemma {:induction false} BreachIsFinal(cal: Calendar, r: Req, e: Event, now: int)
    requires Ok(cal, r) && r.breachedAt.Some? && Last(r).at <= now
    ensures var r' := Next(cal, r, e, now);
      r'.breachedAt == r.breachedAt && r'.warnedAt == r.warnedAt && r'.deadline == r.deadline
  {
  }

  /** Any other way to change the deadline puts it after the present. */
  lemma {:induction false} NewDeadlinesAreAhead(cal: Calendar, r: Req, e: Event, now: int)
    requires Ok(cal, r) && Last(r).at <= now
    ensures var r' := Next(cal, r, e, now);
      r'.deadline == r.deadline || (now < r'.deadline && r.breachedAt.None?)
  {
  }

  /** Late, and if it waits on the student, it was late before it was returned. */
  predicate Late(r: Req, now: int) {
    r.deadline < now && (r.pausedAt.Some? ==> r.deadline <= r.pausedAt.value)
  }

  /** Lateness cannot be returned or resumed away. */
  lemma {:induction false} LateStaysLate(cal: Calendar, r: Req, e: Event, from: int, now: int)
    requires Ok(cal, r) && Last(r).at <= from <= now && Late(r, from)
    ensures Late(Next(cal, r, e, now), now) && Next(cal, r, e, now).deadline == r.deadline
    ensures !e.Swept? ==> Next(cal, r, e, now).breachedAt == r.breachedAt
  {
  }
}
