/** Report rows of requests the life cycle can produce. On these the KPI report and
    the dashboard agree, whatever has happened in the office. */
module ReachableRows {
  import opened Wrappers
  import opened People
  import opened WorkingTime
  import opened Requests
  import opened SlaLedger
  import opened RequestRuns
  import opened Kpi
  import opened Dashboard
  import Catalogue
  import Office

  predicate TakesIntoWork(e: Entry) {
    e.newStatus.Accepted? || e.newStatus.InProgress?
  }

  /** `MIN(created_at)` over the entries that take a request into work. */
  function FirstAccepted(h: seq<Entry>): Option<int> {
    if h == [] then None
    else
      var before, last := FirstAccepted(h[..|h| - 1]), h[|h| - 1];
      if !TakesIntoWork(last) then before
      else if before.Some? && before.value <= last.at then before
      else Some(last.at)
  }

  predicate WasReturned(h: seq<Entry>) {
    exists i :: 0 <= i < |h| && h[i].newStatus.Returned?
  }

  /** The report's query for one request; `typeId` is the parent of its service. */
  function RowOf(r: Req, typeId: Key): Row {
    Row(r.status, r.assignedTo, r.facultyId, r.departmentId, typeId,
        r.createdAt, r.closedAt, r.deadline, FirstAccepted(r.history), WasReturned(r.history))
  }

  function RowsOf(requests: map<int, Req>, typeOf: int -> Key, ids: seq<int>): (rows: seq<Row>)
    requires forall i :: 0 <= i < |ids| ==> ids[i] in requests
    ensures |rows| == |ids| && forall i :: 0 <= i < |ids| ==> rows[i] == RowOf(requests[ids[i]], typeOf(ids[i]))
  {
    seq(|ids|, i requires 0 <= i < |ids| => RowOf(requests[ids[i]], typeOf(ids[i])))
  }

  lemma {:induction false} DatedWhenSound(cal: Calendar, s: Office.State, id: int, typeId: Key)
    requires Office.Sound(cal, s) && id in s.rows
    ensures Dated(RowOf(s.rows[id], typeId))
  {
    assert Office.RowOk(cal, s.rows[id], s.now);
  }

  /** At any moment of any run of the office, over any of its requests: the two
      compliances agree, and so do the numbers of requests closed on time. */
  lemma {:induction false} ReportsAgree(
      cal: Calendar, states: seq<Office.State>, actions: seq<Office.Action>, n: nat,
      typeOf: int -> Key, ids: seq<int>, now: int)
    requires Office.Run(cal, states, actions) && Office.Sound(cal, states[0]) && n < |states|
    requires forall i :: 0 <= i < |ids| ==> ids[i] in states[n].rows
    ensures var rows := RowsOf(states[n].rows, typeOf, ids);
      var t := TallyOf(rows, now);
      && AsRow(t, None, "Jami").compliance == OnDashboard(rows, Closed(rows, now))
      && t.closedOnTime == Closed(rows, now) - Asked(rows, ClosedLate)
  {
    Office.RunSound(cal, states, actions, n);
    var rows := RowsOf(states[n].rows, typeOf, ids);
    forall i | 0 <= i < |rows|
      ensures Dated(rows[i])
    {
      DatedWhenSound(cal, states[n], ids[i], typeOf(ids[i]));
    }
    DatedLeaveNone(rows);
    ComplianceAgrees(rows, now);
    TwoCountsOfOnTime(rows, now);
  }

  // Acceptance speed.

  lemma {:induction false} KeepsStart(cal: Calendar, r: Req, calls: seq<Call>)
    requires Ok(cal, r) && InOrder(Last(r).at, calls)
    ensures var r' := After(cal, r, calls);
      r'.createdAt == r.createdAt && |r'.history| >= |r.history| && r'.history[..|r.history|] == r.history
  {
    if calls != [] {
      var init, last := calls[..|calls| - 1], calls[|calls| - 1];
      KeepsStart(cal, r, init);
      RunOk(cal, r, init);
      StepKeepsStart(cal, After(cal, r, init), last.event, last.at);
    }
  }

  lemma {:induction false} StepKeepsStart(cal: Calendar, r: Req, e: Event, now: int)
    requires Ok(cal, r) && Last(r).at <= now
    ensures var r' := Next(cal, r, e, now);
      r'.createdAt == r.createdAt && |r'.history| >= |r.history| && r'.history[..|r.history|] == r.history
  {
    OneEntry(cal, r, e, now);
  }

  lemma {:induction false} LaterThanStart(r: Req, i: nat)
    requires HistoryOk(r) && i < |r.history|
    ensures r.history[0].at <= r.history[i].at
  {
    if i > 0 {
      LaterThanStart(r, i - 1);
    }
  }

  /** The second entry routes at the time of the first, and none is earlier. */
  lemma {:induction false} FirstIsSecond(h: seq<Entry>)
    requires |h| >= 2 && !TakesIntoWork(h[0]) && TakesIntoWork(h[1])
    requires forall i :: 1 <= i < |h| ==> h[1].at <= h[i].at
    ensures FirstAccepted(h) == Some(h[1].at)
  {
    if |h| == 2 {
      assert h[..1][..0] == [];
      assert FirstAccepted(h[..1]) == None;
    } else {
      FirstIsSecond(h[..|h| - 1]);
    }
  }

  /** A request is taken into work by the entry its own filing writes or, answered
      automatically, never: after any run, the acceptance time of its report row is
      zero or missing. It is exactly zero because a filing reads the clock once here;
      the program stamps the request and that entry microseconds apart. */
  lemma {:induction false} AcceptedOnFiling(
      cal: Calendar, student: User, service: Catalogue.Category, handler: Option<int>, filedAt: int,
      calls: seq<Call>, typeId: Key)
    requires Catalogue.RowOk(service) && service.parentId.Some?
    requires File(cal, student, service, handler, filedAt).Success? && InOrder(filedAt, calls)
    ensures var row := RowOf(After(cal, File(cal, student, service, handler, filedAt).value, calls), typeId);
      && row.createdAt == filedAt
      && row.firstAcceptedAt == if service.routing.AutoReply? then None else Some(filedAt)
    ensures var h := After(cal, File(cal, student, service, handler, filedAt).value, calls).history;
      !service.routing.AutoReply? ==> |h| >= 2 && h[1].note.Routed? && FirstAccepted(h) == Some(h[1].at)
  {
    var filed := File(cal, student, service, handler, filedAt).value;
    FiledOk(cal, student, service, handler, filedAt);
    RunOk(cal, filed, calls);
    KeepsStart(cal, filed, calls);
    var r := After(cal, filed, calls);
    if service.routing.AutoReply? {
      FinalForEver(cal, filed, calls);
      assert filed.history[..1][..0] == [];
      assert FirstAccepted(filed.history[..1]) == None;
    } else {
      assert r.history[0] == filed.history[0] && r.history[1] == filed.history[1];
      forall i | 1 <= i < |r.history|
        ensures r.history[1].at <= r.history[i].at
      {
        LaterThanStart(r, i);
      }
      FirstIsSecond(r.history);
    }
  }

  /** As those rows are. */
  predicate TakenAtOnce(r: Row) {
    r.firstAcceptedAt.Some? ==> r.firstAcceptedAt.value == r.createdAt
  }

  /** So on such rows the report's mean acceptance time never says anything. */
  lemma {:induction false} AcceptanceSaysNothing(rows: seq<Row>, now: int)
    requires forall i :: 0 <= i < |rows| ==> TakenAtOnce(rows[i])
    ensures AsRow(TallyOf(rows, now), None, "Jami").meanAccept in {None, Some(0.0)}
  {
    AcceptanceSum(rows, now);
    MeanOfZero(TallyOf(rows, now).accept);
  }

  lemma {:induction false} MeanOfZero(s: seq<int>)
    requires Sum(s) == 0
    ensures MeanHours(s) == None || MeanHours(s) == Some(0.0)
  {
  }

  lemma {:induction false} AcceptanceSum(rows: seq<Row>, now: int)
    requires forall i :: 0 <= i < |rows| ==> TakenAtOnce(rows[i])
    ensures Sum(TallyOf(rows, now).accept) == 0
  {
    if rows != [] {
      var before, last := TallyOf(rows[..|rows| - 1], now).accept, rows[|rows| - 1];
      AcceptanceSum(rows[..|rows| - 1], now);
      assert TakenAtOnce(last);
      if last.firstAcceptedAt.Some? {
        assert (before + [0])[..|before|] == before;
      } else {
        assert before + [] == before;
      }
    }
  }
}
