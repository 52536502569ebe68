/** The dashboard's counters (backend/app/services/stats_service.py), a second
    computation over the same requests that the KPI report counts. */
module Dashboard {
  import opened Wrappers
  import opened WorkingTime
  import opened Kpi
  import opened Requests

  /** What the queries ask of a request. A missing closing date compares with
      nothing. */
  datatype Query =
    | WithStatus(status: Status)
    | PastDeadline(now: int)
    | DueSoon(now: int)
    | CompletedSince(from: int)
    | CreatedSince(from: int)
    | ClosedLate
    | Unassigned
    | OpenButOnTime
    | ClosedUndated

  predicate Meets(q: Query, r: Row) {
    match q
    case WithStatus(s) => r.status == s
    case PastDeadline(now) => r.status.SlaRunning() && r.deadline < now
    case DueSoon(now) => r.status.SlaRunning() && now <= r.deadline < now + SOON
    case CompletedSince(from) => r.status.Completed? && r.closedAt.Some? && from <= r.closedAt.value
    case CreatedSince(from) => from <= r.createdAt
    case ClosedLate => r.status.Closed() && r.closedAt.Some? && r.closedAt.value > r.deadline
    case Unassigned => r.assignedTo.None? && r.status.Open()
    case OpenButOnTime => r.status.Open() && OnTime(r)
    case ClosedUndated => r.status.Closed() && r.closedAt.None?
  }

  const SOON: int := 24 * HOUR

  function Asked(rows: seq<Row>, q: Query): nat {
    if rows == [] then 0 else Asked(rows[..|rows| - 1], q) + One(Meets(q, rows[|rows| - 1]))
  }

  const ALL: seq<Status> := [New, Accepted, InProgress, Completed, Rejected, Returned]
  const OPEN: seq<Status> := [New, Accepted, InProgress, Returned]
  const CLOSED: seq<Status> := [Completed, Rejected]

  datatype Stats = Stats(
    total: nat, open: nat, byStatus: map<Status, nat>, overdue: nat, dueSoon: nat,
    completedToday: nat, createdThisWeek: nat, unassigned: nat,
    meanResolution: Option<real>, compliance: Option<real>)

  /** `GROUP BY status`: only the statuses that occur. */
  function ByStatus(rows: seq<Row>): map<Status, nat> {
    map s | s in ALL && Asked(rows, WithStatus(s)) > 0 :: Asked(rows, WithStatus(s))
  }

  function Get(byStatus: map<Status, nat>, s: Status): nat {
    if s in byStatus then byStatus[s] else 0
  }

  function SumOver(byStatus: map<Status, nat>, statuses: seq<Status>): nat {
    if statuses == [] then 0 else Get(byStatus, statuses[0]) + SumOver(byStatus, statuses[1..])
  }

  /** The durations of the requests with a closing date. */
  function Resolutions(rows: seq<Row>): seq<int> {
    if rows == [] then [] else Resolutions(rows[..|rows| - 1]) + Resolution(rows[|rows| - 1])
  }

  lemma {:induction false} GetsCount(rows: seq<Row>, s: Status)
    ensures s in ALL && Get(ByStatus(rows), s) == Asked(rows, WithStatus(s))
  {
    assert ALL[0] == New && ALL[1] == Accepted && ALL[2] == InProgress;
    assert ALL[3] == Completed && ALL[4] == Rejected && ALL[5] == Returned;
  }

  lemma {:induction false} SumOneMore(counts: map<Status, nat>, s: Status, rest: seq<Status>)
    ensures SumOver(counts, [s] + rest) == Get(counts, s) + SumOver(counts, rest)
  {
    assert ([s] + rest)[1..] == rest;
  }

  lemma {:induction false} SumOfTwo(counts: map<Status, nat>, s: Status, t: Status, rest: seq<Status>)
    ensures SumOver(counts, [s, t] + rest) == Get(counts, s) + Get(counts, t) + SumOver(counts, rest)
  {
    assert [s, t] + rest == [s] + ([t] + rest);
    SumOneMore(counts, s, [t] + rest);
    SumOneMore(counts, t, rest);
  }

  lemma {:induction false} StatusSums(rows: seq<Row>, now: int)
    ensures var t, counts := TallyOf(rows, now), ByStatus(rows);
      && SumOver(counts, ALL) == t.total && SumOver(counts, OPEN) == t.open
      && SumOver(counts, CLOSED) == t.completed + t.rejected
  {
    var counts := ByStatus(rows);
    StatusCounts(rows, now);
    GetsCount(rows, New);
    GetsCount(rows, Accepted);
    GetsCount(rows, InProgress);
    GetsCount(rows, Completed);
    GetsCount(rows, Rejected);
    GetsCount(rows, Returned);
    assert CLOSED == [Completed, Rejected] + [];
    SumOfTwo(counts, Completed, Rejected, []);
    assert OPEN == [New, Accepted] + ([InProgress, Returned] + []);
    SumOfTwo(counts, InProgress, Returned, []);
    SumOfTwo(counts, New, Accepted, [InProgress, Returned] + []);
    SumOfSix(counts);
  }

  lemma {:induction false} SumOfSix(counts: map<Status, nat>)
    ensures SumOver(counts, ALL) == Get(counts, New) + Get(counts, Accepted) + Get(counts, InProgress)
                                  + Get(counts, Completed) + Get(counts, Rejected) + Get(counts, Returned)
  {
    var last := [Rejected, Returned] + [];
    assert ALL == [New, Accepted] + ([InProgress, Completed] + last);
    SumOfTwo(counts, New, Accepted, [InProgress, Completed] + last);
    SumOfTwo(counts, InProgress, Completed, last);
    SumOfTwo(counts, Rejected, Returned, []);
  }

  /** `by_status` with a zero for every status that does not occur. */
  function AllStatuses(rows: seq<Row>): (m: map<Status, nat>)
    ensures forall s :: s in ALL ==> s in m && m[s] == Asked(rows, WithStatus(s))
  {
    map s | s in ALL :: Get(ByStatus(rows), s)
  }

  lemma {:induction false} StatusCounts(rows: seq<Row>, now: int)
    ensures var t := TallyOf(rows, now);
      && t.completed == Asked(rows, WithStatus(Completed)) && t.rejected == Asked(rows, WithStatus(Rejected))
      && t.open == Asked(rows, WithStatus(New)) + Asked(rows, WithStatus(Accepted))
                 + Asked(rows, WithStatus(InProgress)) + Asked(rows, WithStatus(Returned))
      && t.total == t.open + t.completed + t.rejected
      && t.overdueOpen == Asked(rows, PastDeadline(now))
      && t.resolution == Resolutions(rows)
  {
    if rows != [] {
      StatusCounts(rows[..|rows| - 1], now);
    }
  }

  /** Whatever the rows, the sums over the statuses, the overdue count and the mean
      resolution time are the KPI report's. */
  lemma {:induction false} CountersAgree(rows: seq<Row>, now: int)
    ensures var counts, t := ByStatus(rows), TallyOf(rows, now);
      && SumOver(counts, ALL) == t.total == |rows| && SumOver(counts, OPEN) == t.open
      && Asked(rows, PastDeadline(now)) == t.overdueOpen
      && MeanHours(Resolutions(rows)) == MeanHours(t.resolution)
  {
    StatusSums(rows, now);
    StatusCounts(rows, now);
    TotalIsLength(rows, now);
  }

  lemma {:induction false} TotalIsLength(rows: seq<Row>, now: int)
    ensures TallyOf(rows, now).total == |rows|
  {
    if rows != [] {
      TotalIsLength(rows[..|rows| - 1], now);
    }
  }

  /** Closed requests, as the report counts them. */
  function Closed(rows: seq<Row>, now: int): nat {
    TallyOf(rows, now).completed + TallyOf(rows, now).rejected
  }

  lemma {:induction false} ClosedSum(rows: seq<Row>, now: int)
    ensures SumOver(ByStatus(rows), CLOSED) == Closed(rows, now) && Asked(rows, ClosedLate) <= Closed(rows, now)
  {
    StatusSums(rows, now);
    LateWithinClosed(rows, now);
  }

  // What the tiles count, in the words of the rows.

  /** The clock runs and ends within 24 hours. */
  predicate IsDueSoon(r: Row, now: int) {
    r.status in {New, Accepted, InProgress} && now <= r.deadline < now + 24 * 3_600_000_000
  }

  predicate IsUnassigned(r: Row) {
    r.assignedTo == None && r.status in {New, Accepted, InProgress, Returned}
  }

  /** Closed as completed on today's UTC day or later. */
  predicate WasCompletedToday(r: Row, now: int) {
    r.status == Completed && r.closedAt != None && r.closedAt.value / 86_400_000_000 >= now / 86_400_000_000
  }

  predicate WasCreatedLately(r: Row, now: int) {
    r.createdAt >= now - 7 * 86_400_000_000
  }

  /** The rows that meet a query, by index. */
  function Meeting(rows: seq<Row>, q: Query): set<int> {
    set i | 0 <= i < |rows| && Meets(q, rows[i])
  }

  lemma {:induction false} OneMoreMeeting(rows: seq<Row>, r: Row, q: Query)
    ensures |Meeting(rows + [r], q)| == |Meeting(rows, q)| + One(Meets(q, r))
  {
    var n, before, after := |rows|, Meeting(rows, q), Meeting(rows + [r], q);
    forall i | 0 <= i < n
      ensures (rows + [r])[i] == rows[i]
    {
    }
    assert (rows + [r])[n] == r;
    assert before <= after <= before + {n};
    assert after == if Meets(q, r) then before + {n} else before;
  }

  /** A query counts the rows that meet it. */
  lemma {:induction false} AskedIsNumber(rows: seq<Row>, q: Query)
    ensures Asked(rows, q) == |Meeting(rows, q)|
  {
    if rows == [] {
      assert Meeting(rows, q) == {};
    } else {
      var init, last := rows[..|rows| - 1], rows[|rows| - 1];
      AskedIsNumber(init, q);
      OneMoreMeeting(init, last, q);
      assert rows == init + [last];
    }
  }

  lemma {:induction false} TilesCount(rows: seq<Row>, now: int)
    ensures Asked(rows, DueSoon(now)) == |set i | 0 <= i < |rows| && IsDueSoon(rows[i], now)|
    ensures Asked(rows, Unassigned) == |set i | 0 <= i < |rows| && IsUnassigned(rows[i])|
    ensures Asked(rows, CompletedSince(now - now % DAY)) == |set i | 0 <= i < |rows| && WasCompletedToday(rows[i], now)|
    ensures Asked(rows, CreatedSince(now - 7 * DAY)) == |set i | 0 <= i < |rows| && WasCreatedLately(rows[i], now)|
  {
    AskedIsNumber(rows, DueSoon(now));
    AskedIsNumber(rows, Unassigned);
    AskedIsNumber(rows, CompletedSince(now - now % DAY));
    AskedIsNumber(rows, CreatedSince(now - 7 * DAY));
    assert Meeting(rows, DueSoon(now)) == set i | 0 <= i < |rows| && IsDueSoon(rows[i], now);
    assert Meeting(rows, Unassigned) == set i | 0 <= i < |rows| && IsUnassigned(rows[i]);
    forall i | 0 <= i < |rows|
      ensures Meets(CompletedSince(now - now % DAY), rows[i]) <==> WasCompletedToday(rows[i], now)
    {
    }
    assert Meeting(rows, CompletedSince(now - now % DAY)) == set i | 0 <= i < |rows| && WasCompletedToday(rows[i], now);
    assert Meeting(rows, CreatedSince(now - 7 * DAY)) == set i | 0 <= i < |rows| && WasCreatedLately(rows[i], now);
  }

  /** `dashboard_stats`, after its role's scope. Totals, open, overdue, mean
      resolution time are the KPI report's, overdue, due soon and returned requests
      are different open ones, and the compliance is what the late ones leave of the
      closed. The day begins at midnight UTC. */
  method DashboardStats(rows: seq<Row>, now: int) returns (stats: Stats)
    ensures stats.total == |rows| && stats.total == TallyOf(rows, now).total
    ensures stats.open == TallyOf(rows, now).open && stats.overdue == TallyOf(rows, now).overdueOpen
    ensures stats.meanResolution == MeanHours(TallyOf(rows, now).resolution)
    ensures forall s :: s in ALL ==> s in stats.byStatus && stats.byStatus[s] == Asked(rows, WithStatus(s))
    ensures stats.dueSoon == Asked(rows, DueSoon(now)) && stats.unassigned == Asked(rows, Unassigned)
    ensures stats.completedToday == Asked(rows, CompletedSince(now - now % DAY))
    ensures stats.createdThisWeek == Asked(rows, CreatedSince(now - 7 * DAY))
    ensures stats.dueSoon == |set i | 0 <= i < |rows| && IsDueSoon(rows[i], now)|
    ensures stats.unassigned == |set i | 0 <= i < |rows| && IsUnassigned(rows[i])|
    ensures stats.completedToday == |set i | 0 <= i < |rows| && WasCompletedToday(rows[i], now)|
    ensures stats.createdThisWeek == |set i | 0 <= i < |rows| && WasCreatedLately(rows[i], now)|
    ensures stats.overdue + stats.dueSoon + Asked(rows, WithStatus(Returned)) <= stats.open
    ensures stats.unassigned <= stats.open && stats.completedToday <= Asked(rows, WithStatus(Completed))
    ensures stats.compliance == OnDashboard(rows, Closed(rows, now))
  {
    CountersAgree(rows, now);
    LateWithinClosed(rows, now);
    ClosedSum(rows, now);
    TilesCount(rows, now);
    var byStatus := ByStatus(rows);
    var compliance := Compliance(rows, SumOver(byStatus, CLOSED));
    stats := Stats(
      SumOver(byStatus, ALL), SumOver(byStatus, OPEN), AllStatuses(rows),
      Asked(rows, PastDeadline(now)), Asked(rows, DueSoon(now)),
      Asked(rows, CompletedSince(now - now % DAY)), Asked(rows, CreatedSince(now - 7 * DAY)),
      Asked(rows, Unassigned), MeanHours(Resolutions(rows)), compliance);
  }

  method Compliance(rows: seq<Row>, closedTotal: nat) returns (compliance: Option<real>)
    requires Asked(rows, ClosedLate) <= closedTotal
    ensures compliance == OnDashboard(rows, closedTotal)
  {
    compliance := None;
    if closedTotal > 0 {
      var breached := Asked(rows, ClosedLate);
      compliance := Percent(closedTotal - breached, closedTotal);
    }
  }

  /** The dashboard's compliance among `closed` closed requests. */
  function OnDashboard(rows: seq<Row>, closed: nat): Option<real> {
    var late := Asked(rows, ClosedLate);
    if closed == 0 || closed < late then None else Percent(closed - late, closed)
  }

  lemma {:induction false} LateWithinClosed(rows: seq<Row>, now: int)
    ensures var t := TallyOf(rows, now);
      && Asked(rows, ClosedLate) <= t.completed + t.rejected
      && Asked(rows, PastDeadline(now)) + Asked(rows, DueSoon(now)) + Asked(rows, WithStatus(Returned)) <= t.open
      && Asked(rows, Unassigned) <= t.open
      && forall from :: Asked(rows, CompletedSince(from)) <= Asked(rows, WithStatus(Completed))
  {
    if rows != [] {
      LateWithinClosed(rows[..|rows| - 1], now);
    }
  }

  // Agreement with the KPI report.

  /** The two ways to count what was closed on time differ by the open requests
      with an on-time closing date and the closed ones without a date. */
  lemma {:induction false} TwoCountsOfOnTime(rows: seq<Row>, now: int)
    ensures var t := TallyOf(rows, now);
      t.closedOnTime + Asked(rows, ClosedUndated) + Asked(rows, ClosedLate)
      == t.completed + t.rejected + Asked(rows, OpenButOnTime)
  {
    if rows != [] {
      TwoCountsOfOnTime(rows[..|rows| - 1], now);
    }
  }

  lemma {:induction false} PercentInjective(a: nat, b: nat, whole: nat)
    requires whole > 0 && Percent(a, whole) == Percent(b, whole)
    ensures a == b
  {
    var w := whole as real;
    assert 100.0 * a as real / w * w == 100.0 * a as real;
    assert 100.0 * b as real / w * w == 100.0 * b as real;
  }

  /** The dashboard's compliance is the KPI report's exactly if nothing is closed
      or those two kinds of request are equally many. */
  lemma {:induction false} ComplianceAgrees(rows: seq<Row>, now: int)
    ensures AsRow(TallyOf(rows, now), None, "Jami").compliance == OnDashboard(rows, Closed(rows, now))
      <==> (Closed(rows, now) == 0 || Asked(rows, OpenButOnTime) == Asked(rows, ClosedUndated))
  {
    var t, closed := TallyOf(rows, now), Closed(rows, now);
    TwoCountsOfOnTime(rows, now);
    LateWithinClosed(rows, now);
    if closed > 0 && Percent(t.closedOnTime, closed) == OnDashboard(rows, closed) {
      PercentInjective(t.closedOnTime, closed - Asked(rows, ClosedLate), closed);
    }
  }

  /** A closing date exactly on closed requests. */
  predicate Dated(r: Row) {
    r.closedAt.Some? <==> r.status.Closed()
  }

  lemma {:induction false} DatedLeaveNone(rows: seq<Row>)
    requires forall i :: 0 <= i < |rows| ==> Dated(rows[i])
    ensures Asked(rows, OpenButOnTime) == 0 && Asked(rows, ClosedUndated) == 0
  {
    if rows != [] {
      DatedLeaveNone(rows[..|rows| - 1]);
    }
  }
}
