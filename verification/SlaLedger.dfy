/** What a deadline means: the working time the office has held a request, read
    off its history, against the hours its service allows. */
module SlaLedger {
  import opened Wrappers
  import opened Text
  import opened People
  import opened WorkingTime
  import opened Requests
  import Catalogue

  /** Working time with the office up to the last entry: the spans between entries
      in which the clock was running. */
  ghost function HeldBefore(cal: Calendar, h: seq<Entry>): nat {
    if |h| < 2 then 0
    else
      var prev, last := h[|h| - 2], h[|h| - 1];
      HeldBefore(cal, h[..|h| - 1]) + if prev.newStatus.SlaRunning() then Work(cal, prev.at, last.at) else 0
  }

  /** Working time the office has held the request by `now`. */
  ghost function Held(cal: Calendar, h: seq<Entry>, now: int): nat
    requires h != []
  {
    var last := h[|h| - 1];
    HeldBefore(cal, h) + if last.newStatus.SlaRunning() then Work(cal, last.at, now) else 0
  }

  lemma {:induction false} HeldAfterEntry(cal: Calendar, h: seq<Entry>, e: Entry, now: int)
    requires h != []
    ensures Held(cal, h + [e], now)
         == Held(cal, h, e.at) + if e.newStatus.SlaRunning() then Work(cal, e.at, now) else 0
  {
    assert (h + [e])[..|h|] == h;
  }

  function Last(r: Req): Entry
    requires r.history != []
  {
    r.history[|r.history| - 1]
  }

  function Budget(r: Req): int {
    r.slaHours * HOUR
  }

  /** The instant the deadline was last in step with the ledger: now for a running
      clock, the pause for a stopped one, the end for a closed request. */
  function ClockAt(r: Req): int
    requires r.history != []
  {
    if r.status.Returned? && r.pausedAt.Some? then r.pausedAt.value
    else if r.status.Closed() && r.closedAt.Some? then r.closedAt.value
    else Last(r).at
  }

  /** At instant `x`, with `held` on the ledger, the deadline leaves exactly the
      rest of the budget; once it has passed, the budget is used up. */
  ghost predicate InStep(cal: Calendar, deadline: int, held: nat, x: int, budget: int) {
    if x <= deadline then held + Work(cal, x, deadline) == budget else budget <= held
  }

  /** A deadline follows a working microsecond and is in step with the ledger. */
  ghost predicate ClockOk(cal: Calendar, r: Req) {
    && r.history != []
    && Working(cal, r.deadline - 1)
    && InStep(cal, r.deadline, Held(cal, r.history, Last(r).at), ClockAt(r), Budget(r))
  }

  /** While the clock runs, both move together. */
  lemma {:induction false} StaysInStep(cal: Calendar, deadline: int, held: nat, x: int, x': int, budget: int)
    requires x <= x' && InStep(cal, deadline, held, x, budget)
    ensures InStep(cal, deadline, held + Work(cal, x, x'), x', budget)
  {
    if x' <= deadline {
      WorkSplit(cal, x, x', deadline);
    } else {
      WorkMonotone(cal, x, x, deadline, x');
    }
  }

  /** While it is stopped nothing is added, and a deadline with nothing left
      before it is either reached or past. */
  lemma {:induction false} StoppedInStep(cal: Calendar, deadline: int, held: nat, x: int, x': int, budget: int)
    requires x <= x' && InStep(cal, deadline, held, x, budget)
    requires Working(cal, deadline - 1) && Work(cal, x, deadline) == 0
    ensures deadline <= x && InStep(cal, deadline, held, x', budget)
  {
  }

  /** A deadline in step has passed exactly when the ledger has reached the budget. */
  lemma {:induction false} PassedExactlyWhenSpent(cal: Calendar, deadline: int, held: nat, x: int, budget: int)
    requires InStep(cal, deadline, held, x, budget) && Working(cal, deadline - 1)
    ensures deadline <= x <==> budget <= held
    ensures x <= deadline ==> held <= budget
  {
    if x < deadline {
      assert Work(cal, x, deadline) == Work(cal, x, deadline - 1) + 1;
    }
  }

  /** Resuming with time left puts the new deadline in step at once. */
  lemma {:induction false} ResumedInStep(cal: Calendar, deadline: int, held: nat, pausedAt: int, now: int, budget: int)
    requires InStep(cal, deadline, held, pausedAt, budget)
    requires Work(cal, pausedAt, deadline) > 0
    requires Advance(cal, now, Work(cal, pausedAt, deadline)).Success?
    ensures var d := Advance(cal, now, Work(cal, pausedAt, deadline)).value;
      InStep(cal, d, held, now, budget) && Working(cal, d - 1) && now < d
  {
  }

  // The shape every stored request keeps.

  ghost predicate ShapeOk(r: Req) {
    && (r.status.InProgress? || r.status.Completed? || r.status.Returned?)
    && (r.pausedAt.Some? <==> r.status.Returned?)
    && (r.closedAt.Some? <==> r.status.Closed())
    && (r.answerText.Some? <==> r.status.Completed?)
    && (r.answeredAt.Some? <==> r.status.Completed?)
    && (r.answerText.Some? ==> !Blank(r.answerText.value))
  }

  /** The moves a history may show. Equal statuses mark assignments and notices. */
  predicate LegalMove(from: Status, to: Status, note: Note) {
    match note
    case Filed => false
    case Routed => from.New? && to.InProgress?
    case AutoAnswered => from.New? && to.Completed?
    case Moved => to in Allowed(from)
    case Resubmitted => from.Returned? && to.InProgress?
    case Answered => from.Open() && to.Completed?
    case Assigned => from == to && from.Open()
    case BreachNotice => from == to && from.SlaRunning()
    case WarningNotice => from == to && from.SlaRunning()
  }

  /** Entries chain from `new` to the current status by legal moves, in time order. */
  ghost predicate HistoryOk(r: Req) {
    var h := r.history;
    && |h| >= 2
    && h[0].oldStatus.None? && h[0].newStatus.New? && h[0].note.Filed?
    && Last(r).newStatus == r.status
    && (forall i :: 0 < i < |h| ==>
          && h[i].oldStatus == Some(h[i - 1].newStatus)
          && LegalMove(h[i - 1].newStatus, h[i].newStatus, h[i].note)
          && h[i - 1].at <= h[i].at)
  }

  ghost predicate StampsOk(r: Req)
    requires r.history != []
  {
    && (r.pausedAt.Some? ==> r.pausedAt.value <= Last(r).at)
    && (r.closedAt.Some? ==> r.closedAt.value == Last(r).at)
    && (r.breachedAt.Some? ==>
          && r.warnedAt.Some?
          && r.deadline < r.breachedAt.value <= Last(r).at
          && (r.pausedAt.Some? ==> r.breachedAt.value <= r.pausedAt.value))
  }

  ghost predicate Ok(cal: Calendar, r: Req) {
    ShapeOk(r) && HistoryOk(r) && StampsOk(r) && ClockOk(cal, r)
  }

  /** A service as the catalogue keeps it can be filed under. */
  lemma {:induction false} FiledOk(
      cal: Calendar, student: User, service: Catalogue.Category, handler: Option<int>, now: int)
    requires Catalogue.RowOk(service) && service.parentId.Some?
    requires File(cal, student, service, handler, now).Success?
    ensures Ok(cal, File(cal, student, service, handler, now).value)
    ensures now < File(cal, student, service, handler, now).value.deadline
  {
    var r := File(cal, student, service, handler, now).value;
    var h := r.history;
    assert HeldBefore(cal, h[..1]) == 0;
    assert Held(cal, h, now) == 0;
  }

  lemma {:induction false} LogHistory(r: Req, now: int, changedBy: Option<int>, to: Status, note: Note)
    requires HistoryOk(r) && Last(r).at <= now && LegalMove(r.status, to, note)
    ensures var r' := Log(r.(status := to), now, changedBy, r.status, to, note);
      HistoryOk(r') && Last(r').at == now
  {
  }

  /** The clock after an entry, given that the deadline is in step with what the
      office had held when it was written. */
  lemma {:induction false} LogClock(cal: Calendar, h: seq<Entry>, e: Entry)
    requires h != []
    ensures Held(cal, h + [e], e.at) == Held(cal, h, e.at)
  {
    HeldAfterEntry(cal, h, e, e.at);
  }

  /** What the ledger holds at `now`, and that the old deadline is in step there
      unless the clock is stopped. */
  lemma {:induction false} ClockForward(cal: Calendar, r: Req, now: int)
    requires Ok(cal, r) && r.status.Open() && Last(r).at <= now
    ensures r.status.SlaRunning() ==> InStep(cal, r.deadline, Held(cal, r.history, now), now, Budget(r))
    ensures r.status.Returned? ==>
      InStep(cal, r.deadline, Held(cal, r.history, now), r.pausedAt.value, Budget(r))
  {
    if r.status.SlaRunning() {
      StaysInStep(cal, r.deadline, Held(cal, r.history, Last(r).at), Last(r).at, now, Budget(r));
    }
  }
}
