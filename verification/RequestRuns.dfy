/** Whole lives of a request: any sequence of calls and sweeps at times that never
    go back, from the moment it is filed. */
module RequestRuns {
  import opened Wrappers
  import opened People
  import Text
  import opened WorkingTime
  import opened Requests
  import opened SlaLedger
  import opened RequestLaws
  import Catalogue

  datatype Call = Call(at: int, event: Event)

  /** The time of the last call. */
  function End(start: int, calls: seq<Call>): int {
    if calls == [] then start else calls[|calls| - 1].at
  }

  /** The clock never goes back. */
  predicate InOrder(start: int, calls: seq<Call>) {
    calls == [] ||
    (InOrder(start, calls[..|calls| - 1]) && End(start, calls[..|calls| - 1]) <= calls[|calls| - 1].at)
  }

  /** The request after all calls. */
  ghost function After(cal: Calendar, r: Req, calls: seq<Call>): Req {
    if calls == [] then r
    else
      var last := calls[|calls| - 1];
      Next(cal, After(cal, r, calls[..|calls| - 1]), last.event, last.at)
  }

  lemma {:induction false} RunOk(cal: Calendar, r: Req, calls: seq<Call>)
    requires Ok(cal, r) && InOrder(Last(r).at, calls)
    ensures Ok(cal, After(cal, r, calls)) && Last(After(cal, r, calls)).at <= End(Last(r).at, calls)
    ensures Budget(After(cal, r, calls)) == Budget(r)
  {
    if calls != [] {
      var init, last := calls[..|calls| - 1], calls[|calls| - 1];
      RunOk(cal, r, init);
      NextOk(cal, After(cal, r, init), last.event, last.at);
      BudgetKept(cal, After(cal, r, init), last.event, last.at);
    }
  }

  lemma {:induction false} BudgetKept(cal: Calendar, r: Req, e: Event, now: int)
    ensures Next(cal, r, e, now).slaHours == r.slaHours
  {
  }

  /** SLA accounting over every run. The budget is the one of the service the
      request was filed under; the ledger is read off the history. */
  lemma {:induction false} SlaAccounting(
      cal: Calendar, student: User, service: Catalogue.Category, handler: Option<int>, filedAt: int,
      calls: seq<Call>, now: int)
    requires Catalogue.RowOk(service) && service.parentId.Some?
    requires File(cal, student, service, handler, filedAt).Success?
    requires InOrder(filedAt, calls) && End(filedAt, calls) <= now
    ensures var r := After(cal, File(cal, student, service, handler, filedAt).value, calls);
      var budget := service.slaHours * HOUR;
      && r.history != []
      && (r.status.SlaRunning() ==> (r.deadline <= now <==> budget <= Held(cal, r.history, now)))
      && (r.status.Closed() ==>
            && r.closedAt.Some?
            && (Held(cal, r.history, now) < budget ==> r.closedAt.value < r.deadline)
            && (r.closedAt.value <= r.deadline ==> Held(cal, r.history, now) <= budget))
  {
    var filed := File(cal, student, service, handler, filedAt).value;
    FiledOk(cal, student, service, handler, filedAt);
    RunOk(cal, filed, calls);
    var r := After(cal, filed, calls);
    if r.status.SlaRunning() {
      OverdueExactlyWhenBudgetSpent(cal, r, now);
    }
    if r.status.Closed() {
      ClosedOnTime(cal, r, now);
    }
  }

  /** A closed request and a breach mark are for ever. */
  lemma {:induction false} FinalForEver(cal: Calendar, r: Req, calls: seq<Call>)
    requires Ok(cal, r) && InOrder(Last(r).at, calls)
    ensures r.status.Closed() ==> After(cal, r, calls) == r
    ensures r.breachedAt.Some? ==>
      && After(cal, r, calls).breachedAt == r.breachedAt
      && After(cal, r, calls).warnedAt == r.warnedAt
      && After(cal, r, calls).deadline == r.deadline
  {
    if calls != [] {
      var init, last := calls[..|calls| - 1], calls[|calls| - 1];
      FinalForEver(cal, r, init);
      RunOk(cal, r, init);
      if r.breachedAt.Some? {
        BreachIsFinal(cal, After(cal, r, init), last.event, last.at);
      }
    }
  }

  // Notices.

  function Count(h: seq<Entry>, note: Note): nat {
    if h == [] then 0 else Count(h[..|h| - 1], note) + if h[|h| - 1].note == note then 1 else 0
  }

  lemma {:induction false} CountOneMore(h: seq<Entry>, e: Entry, note: Note)
    ensures Count(h + [e], note) == Count(h, note) + if e.note == note then 1 else 0
  {
    assert (h + [e])[..|h|] == h;
  }

  /** A breach notice is sent once, together with the mark, and ends the notices. */
  ghost predicate NoticesOk(r: Req) {
    && Count(r.history, BreachNotice) == (if r.breachedAt.Some? then 1 else 0)
    && (forall i, j :: 0 <= i < j < |r.history| && r.history[i].note.BreachNotice? ==>
          !r.history[j].note.BreachNotice? && !r.history[j].note.WarningNotice?)
  }

  lemma {:induction false} NoBreachNotice(h: seq<Entry>, i: nat)
    requires i < |h| && Count(h, BreachNotice) == 0
    ensures !h[i].note.BreachNotice?
  {
    if i < |h| - 1 {
      NoBreachNotice(h[..|h| - 1], i);
    }
  }

  /** A resume that recomputes the deadline, which is also what re-arms the notices. */
  ghost predicate Rearms(cal: Calendar, r: Req, r': Req) {
    Resumes(r, r') && r.pausedAt.Some? && LeftAtPause(cal, r) > 0
  }

  /** How an entry fits the change it was written for. */
  ghost predicate EntryFits(cal: Calendar, r: Req, entry: Entry, r': Req) {
    && r'.history == r.history + [entry]
    && match entry.note
       case BreachNotice =>
         r.status.SlaRunning() && r.breachedAt.None? && r'.breachedAt.Some? && r'.warnedAt.Some?
       case WarningNotice =>
         r.status.SlaRunning() && r.breachedAt.None? && r'.breachedAt.None? && r.warnedAt.None? && r'.warnedAt.Some?
       case _ =>
         && r'.breachedAt.Some? == r.breachedAt.Some?
         && if Rearms(cal, r, r') then r'.warnedAt.None? else r'.warnedAt == r.warnedAt
  }

  /** A step leaves the request alone or adds one entry. */
  lemma {:induction false} OneEntry(cal: Calendar, r: Req, e: Event, now: int)
    requires Ok(cal, r) && Last(r).at <= now
    ensures var r' := Next(cal, r, e, now);
      r' == r || (r'.history != [] && EntryFits(cal, r, Last(r'), r'))
  {
    match e
    case Swept =>
    case Reassign(_, _, _, _, _) =>
    case Transit(_, to, _) => MovedEntry(cal, r, r, to, now);
    case Reply(actor, text) =>
      var a := r.(answerText := Some(Text.Strip(text)), answeredAt := Some(now), answeredBy := Some(actor.id));
      MovedEntry(cal, r, a, Completed, now);
    case SendBack(_) => MovedEntry(cal, r, r, InProgress, now);
  }

  /** The markers after a status change. */
  lemma {:induction false} MovedEntry(cal: Calendar, r: Req, a: Req, to: Status, now: int)
    requires Ok(cal, r) && a == r.(answerText := a.answerText, answeredAt := a.answeredAt, answeredBy := a.answeredBy)
    ensures var c := ApplyStatus(cal, a, to, now);
      c.Success? ==>
        && c.value.history == r.history && c.value.status == to
        && c.value.breachedAt.Some? == r.breachedAt.Some?
        && if Rearms(cal, r, c.value) then c.value.warnedAt.None? else c.value.warnedAt == r.warnedAt
  {
  }

  lemma {:induction false} NextNotices(cal: Calendar, r: Req, e: Event, now: int)
    requires Ok(cal, r) && Last(r).at <= now && NoticesOk(r)
    ensures NoticesOk(Next(cal, r, e, now))
  {
    var r' := Next(cal, r, e, now);
    OneEntry(cal, r, e, now);
    if r' != r {
      CountOneMore(r.history, Last(r'), BreachNotice);
      if r.breachedAt.None? {
        forall i | 0 <= i < |r.history|
          ensures !r.history[i].note.BreachNotice?
        {
          NoBreachNotice(r.history, i);
        }
      }
    }
  }

  /** Resumes with time left at the pause, among the calls. */
  ghost function CountRearms(cal: Calendar, r: Req, calls: seq<Call>): nat {
    if calls == [] then 0
    else
      var init := calls[..|calls| - 1];
      CountRearms(cal, r, init) + if Rearms(cal, After(cal, r, init), After(cal, r, calls)) then 1 else 0
  }

  /** Over every run: at most one breach notice, and no notice after it. */
  lemma {:induction false} NoticesOverRuns(cal: Calendar, r: Req, calls: seq<Call>)
    requires Ok(cal, r) && InOrder(Last(r).at, calls) && NoticesOk(r)
    ensures NoticesOk(After(cal, r, calls))
  {
    if calls != [] {
      var init, last := calls[..|calls| - 1], calls[|calls| - 1];
      NoticesOverRuns(cal, r, init);
      RunOk(cal, r, init);
      NextNotices(cal, After(cal, r, init), last.event, last.at);
    }
  }

  /** The notices were armed, sent no warning, and are armed anew or ended by a breach. */
  ghost predicate EndsSilently(cal: Calendar, r: Req, r': Req) {
    r.warnedAt.None? && (Rearms(cal, r, r') || (r.breachedAt.None? && r'.breachedAt.Some?))
  }

  /** Times the notices were armed that ended without a warning, in a resume or in
      a breach. */
  ghost function CountSilent(cal: Calendar, r: Req, calls: seq<Call>): nat {
    if calls == [] then 0
    else
      var init := calls[..|calls| - 1];
      var before, after := After(cal, r, init), After(cal, r, calls);
      CountSilent(cal, r, init)
      + if EndsSilently(cal, before, after) then 1 else 0
  }

  /** Armed now, and not warned yet. */
  function StillSilent(r: Req): nat {
    if r.warnedAt.None? then 1 else 0
  }

  /** Each time the notices are armed, at filing and by every resume with time left,
      at most one warning is sent. */
  lemma {:induction false} OneWarningEach(cal: Calendar, r: Req, calls: seq<Call>)
    requires Ok(cal, r) && InOrder(Last(r).at, calls)
    requires Count(r.history, WarningNotice) == 0 && r.warnedAt.None?
    ensures var r' := After(cal, r, calls);
      Count(r'.history, WarningNotice) + CountSilent(cal, r, calls) + StillSilent(r') == 1 + CountRearms(cal, r, calls)
    ensures Count(After(cal, r, calls).history, WarningNotice) <= 1 + CountRearms(cal, r, calls)
  {
    if calls != [] {
      var init, last := calls[..|calls| - 1], calls[|calls| - 1];
      OneWarningEach(cal, r, init);
      RunOk(cal, r, init);
      var before, after := After(cal, r, init), After(cal, r, calls);
      OneEntry(cal, before, last.event, last.at);
      if after != before {
        CountOneMore(before.history, Last(after), WarningNotice);
      }
    }
  }

  lemma {:induction false} FiledHasNoNotices(
      cal: Calendar, student: User, service: Catalogue.Category, handler: Option<int>, now: int)
    requires File(cal, student, service, handler, now).Success?
    ensures var r := File(cal, student, service, handler, now).value;
      NoticesOk(r) && Count(r.history, WarningNotice) == 0 && r.warnedAt.None?
  {
    var h := File(cal, student, service, handler, now).value.history;
    CountOfTwo(h, BreachNotice);
    CountOfTwo(h, WarningNotice);
  }

  lemma {:induction false} CountOfTwo(h: seq<Entry>, note: Note)
    requires |h| == 2 && h[0].note != note && h[1].note != note
    ensures Count(h, note) == 0
  {
    assert h[..1][..0] == [];
    assert Count(h[..1], note) == 0;
  }
}
