/** KPI reports (backend/app/services/report_service.py): one tally per group and
    one for the totals, filled row by row. Durations are kept exactly, in
    microseconds, and percentages and means are exact rationals. */
module Kpi {
  import opened Wrappers
  import opened WorkingTime
  import opened Decimals
  import Requests

  type Key = Option<int>

  datatype GroupBy = ByStaff | ByFaculty | ByDepartment | ByServiceType

  datatype Row = Row(
    status: Requests.Status, assignedTo: Key, facultyId: Key, departmentId: Key, serviceTypeId: Key,
    createdAt: int, closedAt: Option<int>, deadline: int, firstAcceptedAt: Option<int>, wasReturned: bool)

  function KeyOf(r: Row, grouping: GroupBy): Key {
    match grouping
    case ByStaff => r.assignedTo
    case ByFaculty => r.facultyId
    case ByDepartment => r.departmentId
    case ByServiceType => r.serviceTypeId
  }

  datatype Tally = Tally(
    total: nat, open: nat, completed: nat, rejected: nat, overdueOpen: nat, closedOnTime: nat, returnedOnce: nat,
    resolution: seq<int>, accept: seq<int>)

  const EMPTY: Tally := Tally(0, 0, 0, 0, 0, 0, 0, [], [])

  function One(b: bool): nat {
    if b then 1 else 0
  }

  predicate Overdue(r: Row, now: int) {
    r.status.SlaRunning() && r.deadline < now
  }

  predicate OnTime(r: Row) {
    r.closedAt.Some? && r.closedAt.value <= r.deadline
  }

  function Resolution(r: Row): seq<int> {
    if r.closedAt.Some? then [r.closedAt.value - r.createdAt] else []
  }

  function Acceptance(r: Row): seq<int> {
    if r.firstAcceptedAt.Some? then [r.firstAcceptedAt.value - r.createdAt] else []
  }

  function Plus(t: Tally, r: Row, now: int): Tally {
    Tally(t.total + 1, t.open + One(r.status.Open()), t.completed + One(r.status.Completed?),
          t.rejected + One(r.status.Rejected?), t.overdueOpen + One(Overdue(r, now)),
          t.closedOnTime + One(OnTime(r)), t.returnedOnce + One(r.wasReturned),
          t.resolution + Resolution(r), t.accept + Acceptance(r))
  }

  function TallyOf(rows: seq<Row>, now: int): Tally {
    if rows == [] then EMPTY else Plus(TallyOf(rows[..|rows| - 1], now), rows[|rows| - 1], now)
  }

  /** `_Acc`. */
  class Acc {
    var total: nat
    var open: nat
    var completed: nat
    var rejected: nat
    var overdueOpen: nat
    var closedOnTime: nat
    var returnedOnce: nat
    var resolution: seq<int>
    var accept: seq<int>

    constructor ()
      ensures Value() == EMPTY
    {
      total, open, completed, rejected, overdueOpen, closedOnTime, returnedOnce := 0, 0, 0, 0, 0, 0, 0;
      resolution, accept := [], [];
    }

    function Value(): Tally
      reads this
    {
      Tally(total, open, completed, rejected, overdueOpen, closedOnTime, returnedOnce, resolution, accept)
    }

    method AddStatus(r: Row, now: int)
      modifies `total, `open, `completed, `rejected, `overdueOpen
      ensures total == old(total) + 1 && open == old(open) + One(r.status.Open())
      ensures completed == old(completed) + One(r.status.Completed?)
      ensures rejected == old(rejected) + One(r.status.Rejected?)
      ensures overdueOpen == old(overdueOpen) + One(Overdue(r, now))
    {
      total := total + 1;
      if r.status.Open() {
        open := open + 1;
      }
      if r.status.Completed? {
        completed := completed + 1;
      }
      if r.status.Rejected? {
        rejected := rejected + 1;
      }
      if r.status.SlaRunning() && r.deadline < now {
        overdueOpen := overdueOpen + 1;
      }
    }

    method AddTimes(r: Row)
      modifies `closedOnTime, `resolution, `accept
      ensures closedOnTime == old(closedOnTime) + One(OnTime(r))
      ensures resolution == old(resolution) + Resolution(r) && accept == old(accept) + Acceptance(r)
    {
      if r.closedAt.Some? {
        if r.closedAt.value <= r.deadline {
          closedOnTime := closedOnTime + 1;
        }
        resolution := resolution + [r.closedAt.value - r.createdAt];
      }
      if r.firstAcceptedAt.Some? {
        accept := accept + [r.firstAcceptedAt.value - r.createdAt];
      }
    }

    method Add(r: Row, now: int)
      modifies this
      ensures Value() == Plus(old(Value()), r, now)
    {
      AddStatus(r, now);
      AddTimes(r);
      if r.wasReturned {
        returnedOnce := returnedOnce + 1;
      }
    }
  }

  // A line of the report.

  datatype Line = Line(
    key: Key, name: string, total: nat, open: nat, completed: nat, rejected: nat, overdueOpen: nat,
    compliance: Option<real>, rejection: Option<real>, returned: Option<real>,
    meanAccept: Option<real>, meanResolution: Option<real>)

  function Percent(part: nat, whole: nat): Option<real> {
    if whole == 0 then None else Some(100.0 * part as real / whole as real)
  }

  function Sum(s: seq<int>): int {
    if s == [] then 0 else Sum(s[..|s| - 1]) + s[|s| - 1]
  }

  function MeanHours(s: seq<int>): Option<real> {
    if s == [] then None else Some(Sum(s) as real / |s| as real / HOUR as real)
  }

  /** `as_row`. */
  function AsRow(t: Tally, key: Key, name: string): Line {
    var closed := t.completed + t.rejected;
    Line(key, name, t.total, t.open, t.completed, t.rejected, t.overdueOpen,
         Percent(t.closedOnTime, closed), Percent(t.rejected, closed), Percent(t.returnedOnce, t.total),
         MeanHours(t.accept), MeanHours(t.resolution))
  }

  // Grouping.

  /** The rows of one group. */
  function Select(rows: seq<Row>, grouping: GroupBy, key: Key): seq<Row> {
    if rows == [] then []
    else
      var last := rows[|rows| - 1];
      Select(rows[..|rows| - 1], grouping, key) + if KeyOf(last, grouping) == key then [last] else []
  }

  /** The keys in the order they first appear. */
  function Keys(rows: seq<Row>, grouping: GroupBy): seq<Key> {
    if rows == [] then []
    else
      var before := Keys(rows[..|rows| - 1], grouping);
      var key := KeyOf(rows[|rows| - 1], grouping);
      before + if key in before then [] else [key]
  }

  /** Larger groups first, then by label. */
  predicate Precedes(a: Line, b: Line) {
    a.total > b.total || (a.total == b.total && Leq(a.name, b.name))
  }

  /** A stable sort, as `list.sort` is. */
  function Insert(l: Line, sorted: seq<Line>): seq<Line> {
    if sorted == [] || Precedes(l, sorted[0]) then [l] + sorted else [sorted[0]] + Insert(l, sorted[1..])
  }

  function Sorted(lines: seq<Line>): seq<Line> {
    if lines == [] then [] else Insert(lines[0], Sorted(lines[1..]))
  }

  function LinesOf(tallies: map<Key, Tally>, labelOf: Key -> string, keys: seq<Key>): seq<Line>
    requires forall i :: 0 <= i < |keys| ==> keys[i] in tallies
  {
    if keys == [] then []
    else
      var n := |keys| - 1;
      LinesOf(tallies, labelOf, keys[..n]) + [AsRow(tallies[keys[n]], keys[n], labelOf(keys[n]))]
  }

  /** The tally of each group. */
  function GroupTallies(rows: seq<Row>, grouping: GroupBy, now: int): (t: map<Key, Tally>)
    ensures forall i :: 0 <= i < |Keys(rows, grouping)| ==> Keys(rows, grouping)[i] in t
  {
    map k | k in Keys(rows, grouping) :: TallyOf(Select(rows, grouping, k), now)
  }

  /** What a report contains. */
  function Report(rows: seq<Row>, grouping: GroupBy, now: int, labelOf: Key -> string): seq<Line> {
    Sorted(LinesOf(GroupTallies(rows, grouping, now), labelOf, Keys(rows, grouping)))
  }

  lemma {:induction false} OneRowMore(rows: seq<Row>, r: Row, grouping: GroupBy, now: int, k: Key)
    ensures TallyOf(rows + [r], now) == Plus(TallyOf(rows, now), r, now)
    ensures Keys(rows + [r], grouping)
         == Keys(rows, grouping) + if KeyOf(r, grouping) in Keys(rows, grouping) then [] else [KeyOf(r, grouping)]
    ensures Select(rows + [r], grouping, k) == Select(rows, grouping, k) + if KeyOf(r, grouping) == k then [r] else []
  {
    assert (rows + [r])[..|rows|] == rows;
  }

  /** `groups[row[column]].add(row, now)` on the tallies. */
  function Added(tallies: map<Key, Tally>, key: Key, r: Row, now: int): map<Key, Tally> {
    tallies[key := Plus(if key in tallies then tallies[key] else EMPTY, r, now)]
  }

  lemma {:induction false} GroupOneRowMore(rows: seq<Row>, r: Row, grouping: GroupBy, now: int, k: Key)
    requires k in Keys(rows + [r], grouping)
    ensures var t := TallyOf(Select(rows, grouping, k), now);
      TallyOf(Select(rows + [r], grouping, k), now) == if k == KeyOf(r, grouping) then Plus(t, r, now) else t
    ensures k !in Keys(rows, grouping) ==> TallyOf(Select(rows, grouping, k), now) == EMPTY
  {
    OneRowMore(rows, r, grouping, now, k);
    OneRowMore(Select(rows, grouping, k), r, grouping, now, k);
    assert Select(rows, grouping, k) + [] == Select(rows, grouping, k);
    if k !in Keys(rows, grouping) {
      NothingSelected(rows, grouping, k);
    }
  }

  ghost predicate SameAt(a: map<Key, Tally>, b: map<Key, Tally>, k: Key) {
    (k in a <==> k in b) && (k in a ==> a[k] == b[k])
  }

  lemma {:induction false} SameMap(a: map<Key, Tally>, b: map<Key, Tally>)
    requires forall k :: SameAt(a, b, k)
    ensures a == b
  {
    forall k
      ensures k in a <==> k in b
    {
      assert SameAt(a, b, k);
    }
    forall k | k in a
      ensures a[k] == b[k]
    {
      assert SameAt(a, b, k);
    }
  }

  lemma {:induction false} GroupAt(rows: seq<Row>, r: Row, grouping: GroupBy, now: int, k: Key)
    ensures SameAt(GroupTallies(rows + [r], grouping, now),
                   Added(GroupTallies(rows, grouping, now), KeyOf(r, grouping), r, now), k)
  {
    OneRowMore(rows, r, grouping, now, k);
    if k in Keys(rows + [r], grouping) {
      GroupOneRowMore(rows, r, grouping, now, k);
    }
  }

  lemma {:induction false} GroupsOneRowMore(rows: seq<Row>, r: Row, grouping: GroupBy, now: int)
    ensures GroupTallies(rows + [r], grouping, now)
         == Added(GroupTallies(rows, grouping, now), KeyOf(r, grouping), r, now)
  {
    var after := Added(GroupTallies(rows, grouping, now), KeyOf(r, grouping), r, now);
    forall k
      ensures SameAt(GroupTallies(rows + [r], grouping, now), after, k)
    {
      GroupAt(rows, r, grouping, now, k);
    }
    SameMap(GroupTallies(rows + [r], grouping, now), after);
  }

  ghost function Tallies(groups: map<Key, Acc>): map<Key, Tally>
    reads groups.Values
  {
    map k | k in groups :: groups[k].Value()
  }

  /** One accumulator per key. */
  ghost predicate Separate(groups: map<Key, Acc>) {
    forall j, k :: j in groups && k in groups && j != k ==> groups[j] != groups[k]
  }

  /** `groups[key]` of a `defaultdict`. */
  method GroupFor(groups: map<Key, Acc>, key: Key) returns (groups': map<Key, Acc>)
    requires Separate(groups)
    ensures Separate(groups') && key in groups' && fresh(groups'.Values - groups.Values)
    ensures Tallies(groups') == if key in groups then Tallies(groups) else Tallies(groups)[key := EMPTY]
  {
    groups' := groups;
    if key !in groups {
      var acc := new Acc();
      groups' := groups[key := acc];
    }
  }

  method AddTo(groups: map<Key, Acc>, key: Key, r: Row, now: int)
    requires Separate(groups) && key in groups
    modifies groups[key]
    ensures Tallies(groups) == Added(old(Tallies(groups)), key, r, now)
  {
    groups[key].Add(r, now);
    forall k | k in groups && k != key
      ensures groups[k].Value() == old(groups[k].Value())
    {
      assert groups[k] != groups[key];
    }
  }

  /** One turn of the loop, for the groups. */
  method AddRow(groups: map<Key, Acc>, key: Key, r: Row, now: int) returns (groups': map<Key, Acc>)
    requires Separate(groups)
    modifies groups.Values
    ensures Separate(groups') && fresh(groups'.Values - groups.Values)
    ensures Tallies(groups') == Added(old(Tallies(groups)), key, r, now)
  {
    groups' := GroupFor(groups, key);
    AddTo(groups', key, r, now);
  }

  /** The accumulators hold these tallies. */
  ghost predicate Filled(groups: map<Key, Acc>, all: Acc, tallies: map<Key, Tally>, total: Tally)
    reads groups.Values, all
  {
    && Separate(groups) && all !in groups.Values
    && Tallies(groups) == tallies && all.Value() == total
  }

  /** The tallies and the order of the groups are those of the rows seen so far. */
  ghost predicate InStep(
      rows: seq<Row>, grouping: GroupBy, now: int, tallies: map<Key, Tally>, total: Tally, order: seq<Key>) {
    tallies == GroupTallies(rows, grouping, now) && total == TallyOf(rows, now) && order == Keys(rows, grouping)
  }

  lemma {:induction false} StaysInStep(
      rows: seq<Row>, r: Row, grouping: GroupBy, now: int, tallies: map<Key, Tally>, total: Tally, order: seq<Key>)
    requires InStep(rows, grouping, now, tallies, total, order)
    ensures var key := KeyOf(r, grouping);
      InStep(rows + [r], grouping, now, Added(tallies, key, r, now), Plus(total, r, now),
             if key in order then order else order + [key])
  {
    OneRowMore(rows, r, grouping, now, KeyOf(r, grouping));
    GroupsOneRowMore(rows, r, grouping, now);
    assert order + [] == order;
  }

  method AddToTotals(groups: map<Key, Acc>, all: Acc, r: Row, now: int)
    requires all !in groups.Values
    modifies all
    ensures all.Value() == Plus(old(all.Value()), r, now) && Tallies(groups) == old(Tallies(groups))
  {
    all.Add(r, now);
  }

  method AddToBoth(groups: map<Key, Acc>, all: Acc, r: Row, ghost tallies: map<Key, Tally>, ghost total: Tally,
                   grouping: GroupBy, now: int) returns (groups': map<Key, Acc>)
    requires Filled(groups, all, tallies, total)
    modifies groups.Values, all
    ensures Filled(groups', all, Added(tallies, KeyOf(r, grouping), r, now), Plus(total, r, now))
    ensures fresh(groups'.Values - groups.Values)
  {
    groups' := AddRow(groups, KeyOf(r, grouping), r, now);
    AddToTotals(groups', all, r, now);
  }

  /** The accumulators after these rows. */
  ghost predicate Holds(groups: map<Key, Acc>, order: seq<Key>, all: Acc, rows: seq<Row>, grouping: GroupBy, now: int)
    reads groups.Values, all
  {
    && Filled(groups, all, GroupTallies(rows, grouping, now), TallyOf(rows, now))
    && order == Keys(rows, grouping)
  }

  /** One turn of the loop. */
  method Turn(
      groups: map<Key, Acc>, order: seq<Key>, all: Acc, r: Row, ghost rows: seq<Row>, grouping: GroupBy, now: int)
    returns (groups': map<Key, Acc>, order': seq<Key>)
    requires Holds(groups, order, all, rows, grouping, now)
    modifies groups.Values, all
    ensures Holds(groups', order', all, rows + [r], grouping, now)
    ensures fresh(groups'.Values - groups.Values)
  {
    var key := KeyOf(r, grouping);
    StaysInStep(rows, r, grouping, now, GroupTallies(rows, grouping, now), TallyOf(rows, now), order);
    groups' := AddToBoth(groups, all, r, GroupTallies(rows, grouping, now), TallyOf(rows, now), grouping, now);
    order' := if key in order then order else order + [key];
  }

  /** The loop over the rows. */
  method Accumulate(rows: seq<Row>, grouping: GroupBy, now: int)
    returns (groups: map<Key, Acc>, order: seq<Key>, all: Acc)
    ensures Holds(groups, order, all, rows, grouping, now)
  {
    groups, order := map[], [];
    all := new Acc();
    for i := 0 to |rows|
      invariant Holds(groups, order, all, rows[..i], grouping, now)
      invariant fresh(all) && fresh(groups.Values)
    {
      assert rows[..i + 1] == rows[..i] + [rows[i]];
      groups, order := Turn(groups, order, all, rows[i], rows[..i], grouping, now);
    }
    assert rows[..|rows|] == rows;
  }

  method MakeLines(groups: map<Key, Acc>, order: seq<Key>, labelOf: Key -> string) returns (lines: seq<Line>)
    requires forall i :: 0 <= i < |order| ==> order[i] in groups
    ensures lines == LinesOf(Tallies(groups), labelOf, order)
  {
    lines := [];
    for i := 0 to |order|
      invariant lines == LinesOf(Tallies(groups), labelOf, order[..i])
    {
      assert order[..i + 1][..i] == order[..i];
      lines := lines + [AsRow(groups[order[i]].Value(), order[i], labelOf(order[i]))];
    }
    assert order[..|order|] == order;
  }

  /** `kpi_report`, after its query. */
  method KpiReport(
      rows: seq<Row>, grouping: GroupBy, now: int, labelOf: Key -> string)
    returns (lines: seq<Line>, totals: Line)
    ensures lines == Report(rows, grouping, now, labelOf)
    ensures totals == AsRow(TallyOf(rows, now), None, "Jami")
  {
    var groups, order, all := Accumulate(rows, grouping, now);
    assert forall i :: 0 <= i < |order| ==> order[i] in Tallies(groups);
    lines := MakeLines(groups, order, labelOf);
    lines := Sorted(lines);
    totals := AsRow(all.Value(), None, "Jami");
  }

  lemma {:induction false} NothingSelected(rows: seq<Row>, grouping: GroupBy, key: Key)
    requires key !in Keys(rows, grouping)
    ensures Select(rows, grouping, key) == []
  {
    if rows != [] {
      NothingSelected(rows[..|rows| - 1], grouping, key);
    }
  }
}
