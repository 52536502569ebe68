/** The office as one system: the catalogue, the stored requests and the clock,
    with filings, calls on requests, catalogue changes and sweeps interleaved in
    any order. Each step is atomic, and one sweep runs at a time. */
module Office {
  import opened Wrappers
  import opened People
  import opened WorkingTime
  import opened Requests
  import opened SlaLedger
  import opened RequestLaws
  import opened RequestRecord
  import Catalogue
  import Routing

  datatype State = State(now: int, catalogue: Catalogue.Rows, rows: map<int, Req>)

  datatype Action =
    | FileNew(id: int, student: User, serviceId: int, typeId: Option<int>, staff: seq<User>, listing: seq<int>)
    | OnRequest(id: int, event: Event)
    | OnCatalogue(users: Catalogue.Users, change: Catalogue.Action)
    | RunSweep(batch: seq<int>)

  const BATCH: nat := 200

  /** The sweep's query: the candidates with the earliest deadlines, in order, at
      most `limit` of them. Equal deadlines may come in any order. */
  ghost predicate IsBatch(rows: map<int, Req>, batch: seq<int>, now: int, limit: nat) {
    && |batch| <= limit
    && (forall j, k :: 0 <= j < k < |batch| ==> batch[j] != batch[k])
    && (forall k :: 0 <= k < |batch| ==> batch[k] in rows && Candidate(rows[batch[k]], now))
    && (forall j, k :: 0 <= j < k < |batch| ==> rows[batch[j]].deadline <= rows[batch[k]].deadline)
    && (forall i :: i in rows && Candidate(rows[i], now) && i !in batch ==>
          |batch| == limit && forall k :: 0 <= k < |batch| ==> rows[batch[k]].deadline <= rows[i].deadline)
  }

  /** The stored requests, each once, in any order. */
  ghost predicate Lists(listing: seq<int>, rows: map<int, Req>) {
    && (forall k :: 0 <= k < |listing| ==> listing[k] in rows)
    && (forall i :: i in rows ==> i in listing)
    && (forall j, k :: 0 <= j < k < |listing| ==> listing[j] != listing[k])
  }

  /** What routing reads of them. */
  ghost function HeldIn(rows: map<int, Req>, listing: seq<int>): seq<Routing.Held>
    requires Lists(listing, rows)
  {
    seq(|listing|, k requires 0 <= k < |listing| && listing[k] in rows =>
      Routing.Held(rows[listing[k]].assignedTo, rows[listing[k]].status))
  }

  /** Who gets the request, or nothing if routing refuses it. */
  ghost function HandlerFor(s: State, a: Action, service: Catalogue.Category): Option<Option<int>>
    requires a.FileNew? && Lists(a.listing, s.rows)
  {
    if service.routing.AutoReply? then Some(None)
    else
      var h := Routing.ResolveHandler(a.staff, HeldIn(s.rows, a.listing), a.student, service);
      if h.Success? then Some(Some(h.value.id)) else None
  }

  /** The program's filing: resolve the service, route, then create the request. */
  ghost function FileInto(cal: Calendar, s: State, a: Action, now: int): map<int, Req>
    requires a.FileNew? && Lists(a.listing, s.rows)
  {
    var service := Catalogue.ResolveService(s.catalogue, a.serviceId, a.typeId);
    if service.Failure? || a.id in s.rows then s.rows
    else
      var handler := HandlerFor(s, a, service.value);
      if handler.None? then s.rows
      else
        var r := File(cal, a.student, service.value, handler.value, now);
        if r.Failure? then s.rows else s.rows[a.id := r.value]
  }

  ghost predicate Step(cal: Calendar, s: State, a: Action, s': State) {
    && s.now <= s'.now
    && match a
       case FileNew(_, _, _, _, _, listing) =>
         s'.catalogue == s.catalogue && Lists(listing, s.rows) && s'.rows == FileInto(cal, s, a, s'.now)
       case OnRequest(id, e) =>
         && s'.catalogue == s.catalogue && !e.Swept? && id in s.rows
         && s'.rows == s.rows[id := Next(cal, s.rows[id], e, s'.now)]
       case OnCatalogue(users, change) =>
         s'.catalogue == Catalogue.Step(s.catalogue, users, change) && s'.rows == s.rows
       case RunSweep(batch) =>
         && s'.catalogue == s.catalogue
         && IsBatch(s.rows, batch, s'.now, BATCH) && s'.rows == SweepAll(s.rows, batch, s'.now)
  }

  /** Somebody has it, or it is done. */
  predicate Handled(r: Req) {
    r.assignedTo.Some? || r.status.Completed?
  }

  /** In order at `now`, and nobody's only if it is done. */
  ghost predicate RowOk(cal: Calendar, r: Req, now: int) {
    Ok(cal, r) && Last(r).at <= now && Handled(r)
  }

  /** What every reachable state keeps. */
  ghost predicate Sound(cal: Calendar, s: State) {
    && Catalogue.Sound(s.catalogue)
    && forall i :: i in s.rows ==> RowOk(cal, s.rows[i], s.now)
  }

  lemma {:induction false} StaysHandled(cal: Calendar, r: Req, e: Event, now: int)
    requires Handled(r)
    ensures Handled(Next(cal, r, e, now))
  {
  }

  /** States visited and the actions between them. */
  ghost predicate Run(cal: Calendar, states: seq<State>, actions: seq<Action>) {
    && |states| == |actions| + 1
    && forall i :: 0 <= i < |actions| ==> Step(cal, states[i], actions[i], states[i + 1])
  }

  lemma {:induction false} FilingSound(cal: Calendar, s: State, a: Action, now: int)
    requires Sound(cal, s) && s.now <= now && a.FileNew? && Lists(a.listing, s.rows)
    ensures forall i :: i in FileInto(cal, s, a, now) ==>
      && RowOk(cal, FileInto(cal, s, a, now)[i], now)
      && (i !in s.rows ==> now < FileInto(cal, s, a, now)[i].deadline)
      && (i in s.rows ==> FileInto(cal, s, a, now)[i] == s.rows[i])
  {
    var service := Catalogue.ResolveService(s.catalogue, a.serviceId, a.typeId);
    if service.Success? && HandlerFor(s, a, service.value).Some? {
      var handler := HandlerFor(s, a, service.value).value;
      if File(cal, a.student, service.value, handler, now).Success? {
        FiledOk(cal, a.student, service.value, handler, now);
      }
    }
  }

  lemma {:induction false} SweepingSound(cal: Calendar, rows: map<int, Req>, batch: seq<int>, now: int, i: int)
    requires i in rows && RowOk(cal, rows[i], now) && IsBatch(rows, batch, now, BATCH)
    ensures RowOk(cal, SweepAll(rows, batch, now)[i], now)
  {
    if i in batch {
      SweepOk(cal, rows[i], now);
    }
  }

  lemma {:induction false} StepSound(cal: Calendar, s: State, a: Action, s': State)
    requires Sound(cal, s) && Step(cal, s, a, s')
    ensures Sound(cal, s')
  {
    match a
    case FileNew(_, _, _, _, _, _) => FilingSound(cal, s, a, s'.now);
    case OnRequest(id, e) =>
      NextOk(cal, s.rows[id], e, s'.now);
      StaysHandled(cal, s.rows[id], e, s'.now);
    case OnCatalogue(users, change) => Catalogue.StepSound(s.catalogue, users, change);
    case RunSweep(batch) =>
      forall i | i in s.rows
        ensures RowOk(cal, s'.rows[i], s'.now)
      {
        SweepingSound(cal, s.rows, batch, s'.now, i);
      }
  }

  /** Every state of every run is sound: all that is proved of a sound request or
      catalogue holds at any moment, whatever is interleaved. */
  lemma {:induction false} RunSound(cal: Calendar, states: seq<State>, actions: seq<Action>, n: nat)
    requires Run(cal, states, actions) && Sound(cal, states[0]) && n < |states|
    ensures Sound(cal, states[n])
  {
    if n > 0 {
      RunSound(cal, states, actions, n - 1);
      StepSound(cal, states[n - 1], actions[n - 1], states[n]);
    }
  }

  /** A filing is stored exactly if the id is new, the service takes requests, routing
      finds somebody (or the service answers by itself) and the calendar gives a date;
      then it is the request filed with that handler, and nothing else changes. */
  lemma {:induction false} FilingStores(cal: Calendar, s: State, a: Action, now: int)
    requires a.FileNew? && Lists(a.listing, s.rows) && a.id !in s.rows
    ensures var service := Catalogue.ResolveService(s.catalogue, a.serviceId, a.typeId);
      var rows := FileInto(cal, s, a, now);
      && (a.id in rows <==>
            && service.Success?
            && (service.value.routing.AutoReply?
                || Routing.ResolveHandler(a.staff, HeldIn(s.rows, a.listing), a.student, service.value).Success?)
            && Advance(cal, now, service.value.slaHours * 3_600_000_000).Success?)
      && (forall i :: i in s.rows ==> i in rows && rows[i] == s.rows[i])
      && (forall i :: i in rows && i != a.id ==> i in s.rows)
      && (a.id in rows && !service.value.routing.AutoReply? ==>
            && rows[a.id].studentId == a.student.id && rows[a.id].serviceId == service.value.id
            && rows[a.id].assignedTo ==
               Some(Routing.ResolveHandler(a.staff, HeldIn(s.rows, a.listing), a.student, service.value).value.id))
  {
  }

  /** So at any moment a running request is past its deadline exactly when the
      office has held it for as long as its service allows. */
  lemma {:induction false} DeadlinesTellTheTruth(
      cal: Calendar, states: seq<State>, actions: seq<Action>, n: nat, id: int)
    requires Run(cal, states, actions) && Sound(cal, states[0]) && n < |states|
    requires id in states[n].rows && states[n].rows[id].status.SlaRunning()
    ensures var r, now := states[n].rows[id], states[n].now;
      r.history != [] && (r.deadline <= now <==> Budget(r) <= Held(cal, r.history, now))
  {
    RunSound(cal, states, actions, n);
    assert RowOk(cal, states[n].rows[id], states[n].now);
    OverdueExactlyWhenBudgetSpent(cal, states[n].rows[id], states[n].now);
  }

  // There is always a batch to sweep.

  /** The earliest deadline among `ids`, found from any member. */
  lemma {:induction false} EarliestOf(rows: map<int, Req>, ids: set<int>, one: int) returns (first: int)
    requires one in ids && forall i :: i in ids ==> i in rows
    ensures first in ids && forall i :: i in ids ==> rows[first].deadline <= rows[i].deadline
    decreases |ids|
  {
    first := one;
    var rest := ids - {one};
    assert forall i :: i in ids ==> i == one || i in rest;
    if other :| other in rest {
      var next := EarliestOf(rows, rest, other);
      if rows[next].deadline < rows[one].deadline {
        first := next;
      }
    }
  }

  /** Whatever is stored, the sweep's query has an answer. */
  lemma {:induction false} BatchExists(rows: map<int, Req>, now: int, limit: nat) returns (batch: seq<int>)
    ensures IsBatch(rows, batch, now, limit)
  {
    if limit == 0 {
      batch := [];
    } else {
      batch := BatchExists(rows, now, limit - 1);
      if one :| one in rows && Candidate(rows[one], now) && one !in batch {
        var rest := set i | i in rows && Candidate(rows[i], now) && i !in batch;
        var next := EarliestOf(rows, rest, one);
        batch := batch + [next];
      }
    }
  }
}
