/** What the columns of a report line say of the rows themselves: counters are numbers
    of rows, percentages are shares of them, and means are averages of their dates.
    Nothing here mentions tallies or how a line is put together. */
module KpiLines {
  import opened Wrappers
  import opened Decimals
  import opened Requests
  import opened WorkingTime
  import opened Kpi
  import KpiLaws
  import KpiOrder

  /** All rows, or those of one group by the column the report is grouped by. */
  datatype Group = Everyone | Of(grouping: GroupBy, key: Key)

  predicate Belongs(g: Group, r: Row) {
    g.Of? ==> ColumnIs(r, g.grouping, g.key)
  }

  predicate ColumnIs(r: Row, grouping: GroupBy, key: Key) {
    && (grouping.ByStaff? ==> r.assignedTo == key)
    && (grouping.ByFaculty? ==> r.facultyId == key)
    && (grouping.ByDepartment? ==> r.departmentId == key)
    && (grouping.ByServiceType? ==> r.serviceTypeId == key)
  }

  /** What a line counts. */
  datatype Property =
    | InGroup | IsOpen | IsCompleted | IsRejected | IsClosed | Late | OnTimeClosed | WasReturned
    | HasClosing | HasAcceptance

  predicate Has(p: Property, r: Row, now: int) {
    match p
    case InGroup => true
    case IsOpen => r.status in {New, Accepted, InProgress, Returned}
    case IsCompleted => r.status == Completed
    case IsRejected => r.status == Rejected
    case IsClosed => r.status in {Completed, Rejected}
    case Late => r.status in {New, Accepted, InProgress} && r.deadline < now
    case OnTimeClosed => r.closedAt != None && r.closedAt.value <= r.deadline
    case WasReturned => r.wasReturned
    case HasClosing => r.closedAt != None
    case HasAcceptance => r.firstAcceptedAt != None
  }

  /** The rows of a group that have a property, by index, and how many they are. */
  function Those(rows: seq<Row>, g: Group, p: Property, now: int): set<int> {
    set i | 0 <= i < |rows| && Fits(rows[i], g, p, now)
  }

  predicate Fits(r: Row, g: Group, p: Property, now: int) {
    Belongs(g, r) && Has(p, r, now)
  }

  function Number(rows: seq<Row>, g: Group, p: Property, now: int): nat {
    |Those(rows, g, p, now)|
  }

  /** From filing to closing, or to being taken into work; nothing without that date. */
  function Duration(r: Row, closing: bool): int {
    var date := if closing then r.closedAt else r.firstAcceptedAt;
    if date == None then 0 else date.value - r.createdAt
  }

  /** Added up over the group. */
  function TimeTo(rows: seq<Row>, g: Group, closing: bool): int {
    if rows == [] then 0
    else
      var last := rows[|rows| - 1];
      TimeTo(rows[..|rows| - 1], g, closing) + if Belongs(g, last) then Duration(last, closing) else 0
  }

  /** A percentage is missing for nothing, and otherwise 100 times the part over the whole. */
  predicate IsShare(share: Option<real>, part: nat, whole: nat) {
    && (share == None <==> whole == 0)
    && (share != None ==> share.value * whole as real == 100.0 * part as real)
  }

  /** A mean, in hours, is missing for nothing and otherwise the sum over the count. */
  predicate IsMean(mean: Option<real>, sum: int, count: nat) {
    && (mean == None <==> count == 0)
    && (mean != None ==> mean.value * 3_600_000_000.0 * count as real == sum as real)
  }

  ghost predicate Counts(l: Line, rows: seq<Row>, g: Group, now: int) {
    && l.total == Number(rows, g, InGroup, now) && l.open == Number(rows, g, IsOpen, now)
    && l.completed == Number(rows, g, IsCompleted, now) && l.rejected == Number(rows, g, IsRejected, now)
    && l.overdueOpen == Number(rows, g, Late, now)
  }

  ghost predicate Shares(l: Line, rows: seq<Row>, g: Group, now: int) {
    && IsShare(l.compliance, Number(rows, g, OnTimeClosed, now), Number(rows, g, IsClosed, now))
    && IsShare(l.rejection, Number(rows, g, IsRejected, now), Number(rows, g, IsClosed, now))
    && IsShare(l.returned, Number(rows, g, WasReturned, now), Number(rows, g, InGroup, now))
  }

  ghost predicate Means(l: Line, rows: seq<Row>, g: Group, now: int) {
    && IsMean(l.meanAccept, TimeTo(rows, g, false), Number(rows, g, HasAcceptance, now))
    && IsMean(l.meanResolution, TimeTo(rows, g, true), Number(rows, g, HasClosing, now))
  }

  // Counting.

  lemma {:induction false} OneMoreElement(before: set<int>, after: set<int>, n: int, more: bool)
    requires n !in before && before <= after <= before + {n} && (n in after <==> more)
    ensures |after| == |before| + if more then 1 else 0
  {
    assert after == if more then before + {n} else before;
  }

  lemma {:induction false} InThose(rows: seq<Row>, r: Row, g: Group, p: Property, now: int, i: int)
    ensures i in Those(rows + [r], g, p, now) <==>
            i in Those(rows, g, p, now) || (Fits(r, g, p, now) && i == |rows|)
  {
    if 0 <= i < |rows| {
      assert (rows + [r])[i] == rows[i];
    }
  }

  lemma {:induction false} NumberOneMore(rows: seq<Row>, r: Row, g: Group, p: Property, now: int)
    ensures Number(rows + [r], g, p, now) == Number(rows, g, p, now) + if Fits(r, g, p, now) then 1 else 0
  {
    var before, after := Those(rows, g, p, now), Those(rows + [r], g, p, now);
    forall i
      ensures i in after <==> i in before || (Fits(r, g, p, now) && i == |rows|)
    {
      InThose(rows, r, g, p, now, i);
    }
    OneMoreElement(before, after, |rows|, Fits(r, g, p, now));
  }

  lemma {:induction false} NumberOfNone(g: Group, p: Property, now: int)
    ensures Number([], g, p, now) == 0
  {
    assert Those([], g, p, now) == {};
  }

  /** The rows a group's tally is made of. */
  function RowsOf(rows: seq<Row>, g: Group): seq<Row> {
    match g
    case Everyone => rows
    case Of(grouping, key) => Select(rows, grouping, key)
  }

  lemma {:induction false} KeyIsColumn(r: Row, grouping: GroupBy, key: Key)
    ensures KeyOf(r, grouping) == key <==> ColumnIs(r, grouping, key)
  {
  }

  lemma {:induction false} TallyOneMore(rows: seq<Row>, r: Row, g: Group, now: int)
    ensures var t := TallyOf(RowsOf(rows, g), now);
      TallyOf(RowsOf(rows + [r], g), now) == if Belongs(g, r) then Plus(t, r, now) else t
  {
    assert (rows + [r])[..|rows|] == rows;
    if g.Of? {
      KeyIsColumn(r, g.grouping, g.key);
      var before := Select(rows, g.grouping, g.key);
      assert (before + [r])[..|before|] == before && before + [] == before;
    }
  }

  /** The counter that belongs to a property. */
  function Counter(t: Tally, p: Property): nat {
    match p
    case InGroup => t.total
    case IsOpen => t.open
    case IsCompleted => t.completed
    case IsRejected => t.rejected
    case IsClosed => t.completed + t.rejected
    case Late => t.overdueOpen
    case OnTimeClosed => t.closedOnTime
    case WasReturned => t.returnedOnce
    case HasClosing => |t.resolution|
    case HasAcceptance => |t.accept|
  }

  lemma {:induction false} CounterOneMore(t: Tally, p: Property, r: Row, now: int)
    ensures Counter(Plus(t, r, now), p) == Counter(t, p) + if Has(p, r, now) then 1 else 0
  {
  }

  lemma {:induction false} CounterIsNumber(rows: seq<Row>, g: Group, p: Property, now: int)
    ensures Counter(TallyOf(RowsOf(rows, g), now), p) == Number(rows, g, p, now)
  {
    if rows == [] {
      NumberOfNone(g, p, now);
      assert RowsOf(rows, g) == [];
    } else {
      var init, last := rows[..|rows| - 1], rows[|rows| - 1];
      assert rows == init + [last];
      CounterIsNumber(init, g, p, now);
      TallyOneMore(init, last, g, now);
      NumberOneMore(init, last, g, p, now);
      CounterOneMore(TallyOf(RowsOf(init, g), now), p, last, now);
    }
  }

  lemma {:induction false} SumOneMore(s: seq<int>, x: seq<int>)
    requires |x| <= 1
    ensures Sum(s + x) == Sum(s) + if x == [] then 0 else x[0]
  {
    if x == [] {
      assert s + x == s;
    } else {
      assert (s + x)[..|s|] == s;
    }
  }

  /** The list that belongs to a date. */
  function Durations(t: Tally, closing: bool): seq<int> {
    if closing then t.resolution else t.accept
  }

  lemma {:induction false} DurationOneMore(t: Tally, r: Row, now: int, closing: bool)
    ensures Sum(Durations(Plus(t, r, now), closing)) == Sum(Durations(t, closing)) + Duration(r, closing)
  {
    SumOneMore(t.resolution, Resolution(r));
    SumOneMore(t.accept, Acceptance(r));
  }

  lemma {:induction false} DurationsAddUp(rows: seq<Row>, g: Group, now: int, closing: bool)
    ensures Sum(Durations(TallyOf(RowsOf(rows, g), now), closing)) == TimeTo(rows, g, closing)
  {
    if rows == [] {
      assert RowsOf(rows, g) == [];
    } else {
      var init, last := rows[..|rows| - 1], rows[|rows| - 1];
      assert rows == init + [last];
      DurationsAddUp(init, g, now, closing);
      TallyOneMore(init, last, g, now);
      DurationOneMore(TallyOf(RowsOf(init, g), now), last, now, closing);
    }
  }

  // Lines.

  lemma {:induction false} PercentIsShare(part: nat, whole: nat)
    ensures IsShare(Percent(part, whole), part, whole)
  {
    if whole > 0 {
      var w := whole as real;
      assert 100.0 * part as real / w * w == 100.0 * part as real;
    }
  }

  lemma {:induction false} MeanIsMean(s: seq<int>)
    ensures IsMean(MeanHours(s), Sum(s), |s|)
  {
    if s != [] {
      var n, h := |s| as real, HOUR as real;
      var mean := Sum(s) as real / n;
      assert mean * n == Sum(s) as real;
      assert mean / h * h == mean;
      Reorder(mean / h, h, n);
    }
  }

  lemma {:induction false} Reorder(x: real, h: real, n: real)
    ensures x * h * n == (x * h) * n
  {
  }

  /** A line against the tally it is made of. */
  lemma {:induction false} LineColumns(t: Tally, key: Key, name: string)
    ensures var l, closed := AsRow(t, key, name), t.completed + t.rejected;
      && l.key == key && l.name == name && l.total == t.total && l.open == t.open
      && l.completed == t.completed && l.rejected == t.rejected && l.overdueOpen == t.overdueOpen
      && IsShare(l.compliance, t.closedOnTime, closed) && IsShare(l.rejection, t.rejected, closed)
      && IsShare(l.returned, t.returnedOnce, t.total)
      && IsMean(l.meanAccept, Sum(t.accept), |t.accept|)
      && IsMean(l.meanResolution, Sum(t.resolution), |t.resolution|)
  {
    PercentIsShare(t.closedOnTime, t.completed + t.rejected);
    PercentIsShare(t.rejected, t.completed + t.rejected);
    PercentIsShare(t.returnedOnce, t.total);
    MeanIsMean(t.accept);
    MeanIsMean(t.resolution);
  }

  lemma {:induction false} LineCounts(rows: seq<Row>, g: Group, now: int, l: Line, t: Tally)
    requires t == TallyOf(RowsOf(rows, g), now)
    requires l.total == t.total && l.open == t.open && l.completed == t.completed
    requires l.rejected == t.rejected && l.overdueOpen == t.overdueOpen
    ensures Counts(l, rows, g, now)
  {
    CounterIsNumber(rows, g, InGroup, now);
    CounterIsNumber(rows, g, IsOpen, now);
    CounterIsNumber(rows, g, IsCompleted, now);
    CounterIsNumber(rows, g, IsRejected, now);
    CounterIsNumber(rows, g, Late, now);
  }

  lemma {:induction false} LineShares(rows: seq<Row>, g: Group, now: int, l: Line, t: Tally)
    requires t == TallyOf(RowsOf(rows, g), now)
    requires IsShare(l.compliance, t.closedOnTime, t.completed + t.rejected)
    requires IsShare(l.rejection, t.rejected, t.completed + t.rejected)
    requires IsShare(l.returned, t.returnedOnce, t.total)
    ensures Shares(l, rows, g, now)
  {
    CounterIsNumber(rows, g, InGroup, now);
    CounterIsNumber(rows, g, IsRejected, now);
    CounterIsNumber(rows, g, IsClosed, now);
    CounterIsNumber(rows, g, OnTimeClosed, now);
    CounterIsNumber(rows, g, WasReturned, now);
  }

  lemma {:induction false} LineMeans(rows: seq<Row>, g: Group, now: int, l: Line, t: Tally)
    requires t == TallyOf(RowsOf(rows, g), now)
    requires IsMean(l.meanAccept, Sum(t.accept), |t.accept|)
    requires IsMean(l.meanResolution, Sum(t.resolution), |t.resolution|)
    ensures Means(l, rows, g, now)
  {
    CounterIsNumber(rows, g, HasClosing, now);
    CounterIsNumber(rows, g, HasAcceptance, now);
    DurationsAddUp(rows, g, now, true);
    DurationsAddUp(rows, g, now, false);
  }

  ghost predicate Says(l: Line, rows: seq<Row>, g: Group, now: int) {
    Counts(l, rows, g, now) && Shares(l, rows, g, now) && Means(l, rows, g, now)
  }

  /** Whoever the line is for and however it is labelled. */
  lemma {:induction false} LineSays(rows: seq<Row>, g: Group, now: int, key: Key, name: string)
    ensures Says(AsRow(TallyOf(RowsOf(rows, g), now), key, name), rows, g, now)
  {
    var t := TallyOf(RowsOf(rows, g), now);
    var l := AsRow(t, key, name);
    LineColumns(t, key, name);
    LineCounts(rows, g, now, l, t);
    LineShares(rows, g, now, l, t);
    LineMeans(rows, g, now, l, t);
  }

  ghost predicate SaysItsGroup(l: Line, rows: seq<Row>, grouping: GroupBy, now: int, labelOf: Key -> string) {
    l.name == labelOf(l.key) && l.total > 0 && Says(l, rows, Of(grouping, l.key), now)
  }

  ghost predicate OneLineEach(lines: seq<Line>) {
    forall i, j :: 0 <= i < j < |lines| ==> lines[i].key != lines[j].key
  }

  ghost predicate HasLine(lines: seq<Line>, grouping: GroupBy, r: Row) {
    exists j :: 0 <= j < |lines| && ColumnIs(r, grouping, lines[j].key)
  }

  ghost predicate Ordered(lines: seq<Line>) {
    forall i, j :: 0 <= i < j < |lines| ==>
      lines[i].total > lines[j].total || (lines[i].total == lines[j].total && Leq(lines[i].name, lines[j].name))
  }

  /** A report: one line for every group that occurs, each saying what its group's rows
      say, labelled by its key, larger groups first and then by label. */
  ghost predicate IsReport(lines: seq<Line>, rows: seq<Row>, grouping: GroupBy, now: int, labelOf: Key -> string) {
    && (forall i :: 0 <= i < |lines| ==> SaysItsGroup(lines[i], rows, grouping, now, labelOf))
    && (forall i :: 0 <= i < |rows| ==> HasLine(lines, grouping, rows[i]))
    && OneLineEach(lines) && Ordered(lines)
  }

  lemma {:induction false} LineOfKey(
      rows: seq<Row>, grouping: GroupBy, now: int, labelOf: Key -> string, l: Line) returns (i: nat)
    requires l in Report(rows, grouping, now, labelOf)
    ensures i < |Keys(rows, grouping)| && l == KpiOrder.GroupLine(rows, grouping, now, labelOf, Keys(rows, grouping)[i])
  {
    var unsorted := KpiOrder.Lines(rows, grouping, now, labelOf);
    KpiOrder.SortedOrders(unsorted);
    assert l in multiset(unsorted);
    KpiOrder.LinesByKey(rows, grouping, now, labelOf);
    i :| 0 <= i < |unsorted| && unsorted[i] == l;
  }

  lemma {:induction false} GroupLineSays(rows: seq<Row>, grouping: GroupBy, now: int, labelOf: Key -> string, key: Key)
    requires key in Keys(rows, grouping)
    ensures SaysItsGroup(KpiOrder.GroupLine(rows, grouping, now, labelOf, key), rows, grouping, now, labelOf)
  {
    LineSays(rows, Of(grouping, key), now, key, labelOf(key));
    KpiOrder.SelectedExactlyWhenKey(rows, grouping, key);
    KpiOrder.SizeIsTotal(Select(rows, grouping, key), now);
  }

  /** No key has two lines. */
  lemma {:induction false} KeysOnce(rows: seq<Row>, grouping: GroupBy, now: int, labelOf: Key -> string)
    ensures OneLineEach(Report(rows, grouping, now, labelOf))
  {
    var unsorted := KpiOrder.Lines(rows, grouping, now, labelOf);
    KpiOrder.LinesByKey(rows, grouping, now, labelOf);
    KpiLaws.KeysDistinct(rows, grouping);
    KpiOrder.SortedOrders(unsorted);
    KeysStayOnce(unsorted, Report(rows, grouping, now, labelOf));
  }

  function LineKeys(lines: seq<Line>): multiset<Key> {
    if lines == [] then multiset{} else LineKeys(lines[..|lines| - 1]) + multiset{lines[|lines| - 1].key}
  }

  lemma {:induction false} LineKeysWithout(lines: seq<Line>, i: nat)
    requires i < |lines|
    ensures LineKeys(lines) == LineKeys(lines[..i] + lines[i + 1..]) + multiset{lines[i].key}
  {
    var n := |lines| - 1;
    if i < n {
      LineKeysWithout(lines[..n], i);
      var without := lines[..n][..i] + lines[..n][i + 1..];
      KpiLaws.RemoveBeforeLast(lines, i);
      assert (without + [lines[n]])[..|without|] == without;
    } else {
      assert lines[..i] + lines[i + 1..] == lines[..n];
    }
  }

  lemma {:induction false} LineKeysIgnoreOrder(a: seq<Line>, b: seq<Line>)
    requires multiset(a) == multiset(b)
    ensures LineKeys(a) == LineKeys(b)
    decreases |a|
  {
    if a == [] {
      KpiLaws.NothingLeft(b);
    } else {
      var i := KpiLaws.TakeOut(a, b);
      LineKeysIgnoreOrder(a[..|a| - 1], b[..i] + b[i + 1..]);
      LineKeysWithout(b, i);
    }
  }

  lemma {:induction false} KeysListed(lines: seq<Line>, k: Key)
    ensures k in LineKeys(lines) <==> exists i :: 0 <= i < |lines| && lines[i].key == k
  {
    if lines != [] {
      var n := |lines| - 1;
      KeysListed(lines[..n], k);
      if i :| 0 <= i < n && lines[i].key == k {
        assert lines[..n][i].key == k;
      }
    }
  }

  lemma {:induction false} OnceMeansOne(lines: seq<Line>, k: Key)
    requires OneLineEach(lines)
    ensures LineKeys(lines)[k] <= 1
  {
    if lines != [] {
      var n := |lines| - 1;
      assert forall i :: 0 <= i < n ==> lines[..n][i] == lines[i];
      OnceMeansOne(lines[..n], k);
      KeysListed(lines[..n], k);
    }
  }

  lemma {:induction false} OneMeansOnce(lines: seq<Line>)
    requires forall k :: LineKeys(lines)[k] <= 1
    ensures OneLineEach(lines)
  {
    if lines != [] {
      var n := |lines| - 1;
      forall k
        ensures LineKeys(lines[..n])[k] <= 1
      {
        assert LineKeys(lines)[k] <= 1;
      }
      OneMeansOnce(lines[..n]);
      LastIsNew(lines);
    }
  }

  lemma {:induction false} LastIsNew(lines: seq<Line>)
    requires lines != [] && OneLineEach(lines[..|lines| - 1]) && LineKeys(lines)[lines[|lines| - 1].key] <= 1
    ensures OneLineEach(lines)
  {
    var n := |lines| - 1;
    KeysListed(lines[..n], lines[n].key);
    assert LineKeys(lines[..n])[lines[n].key] == 0;
    forall i, j | 0 <= i < j < |lines|
      ensures lines[i].key != lines[j].key
    {
      assert lines[..n][i] == lines[i];
      if j < n {
        assert lines[..n][j] == lines[j];
      }
    }
  }

  lemma {:induction false} KeysStayOnce(a: seq<Line>, b: seq<Line>)
    requires multiset(a) == multiset(b) && OneLineEach(a)
    ensures OneLineEach(b)
  {
    LineKeysIgnoreOrder(a, b);
    forall k
      ensures LineKeys(b)[k] <= 1
    {
      OnceMeansOne(a, k);
    }
    OneMeansOnce(b);
  }

  lemma {:induction false} KeyListed(rows: seq<Row>, grouping: GroupBy, i: nat) returns (k: nat)
    requires i < |rows|
    ensures k < |Keys(rows, grouping)| && Keys(rows, grouping)[k] == KeyOf(rows[i], grouping)
  {
    KpiLaws.KeysDistinct(rows, grouping);
    assert KeyOf(rows[i], grouping) in Keys(rows, grouping);
    k :| 0 <= k < |Keys(rows, grouping)| && Keys(rows, grouping)[k] == KeyOf(rows[i], grouping);
  }

  lemma {:induction false} KeyHasLine(rows: seq<Row>, grouping: GroupBy, now: int, labelOf: Key -> string, k: nat)
    returns (j: nat)
    requires k < |Keys(rows, grouping)|
    ensures j < |Report(rows, grouping, now, labelOf)|
    ensures Report(rows, grouping, now, labelOf)[j].key == Keys(rows, grouping)[k]
  {
    var lines, unsorted := Report(rows, grouping, now, labelOf), KpiOrder.Lines(rows, grouping, now, labelOf);
    KpiOrder.LinesByKey(rows, grouping, now, labelOf);
    KpiOrder.SortedOrders(unsorted);
    SameLine(unsorted, lines, k);
    j :| 0 <= j < |lines| && lines[j] == unsorted[k];
  }

  /** Every row is in some line's group. */
  lemma {:induction false} NobodyLeftOut(
      rows: seq<Row>, grouping: GroupBy, now: int, labelOf: Key -> string, i: nat)
    requires i < |rows|
    ensures HasLine(Report(rows, grouping, now, labelOf), grouping, rows[i])
  {
    var k := KeyListed(rows, grouping, i);
    var j := KeyHasLine(rows, grouping, now, labelOf, k);
    KeyIsColumn(rows[i], grouping, Keys(rows, grouping)[k]);
  }

  lemma {:induction false} SameLine(a: seq<Line>, b: seq<Line>, k: nat)
    requires multiset(a) == multiset(b) && k < |a|
    ensures a[k] in b
  {
    assert a[k] in multiset(a);
    assert a[k] in multiset(b);
  }

  /** What `KpiReport` returns is such a report. */
  lemma {:induction false} ReportSays(rows: seq<Row>, grouping: GroupBy, now: int, labelOf: Key -> string)
    ensures IsReport(Report(rows, grouping, now, labelOf), rows, grouping, now, labelOf)
  {
    var lines := Report(rows, grouping, now, labelOf);
    forall i | 0 <= i < |lines|
      ensures SaysItsGroup(lines[i], rows, grouping, now, labelOf)
    {
      var k := LineOfKey(rows, grouping, now, labelOf, lines[i]);
      GroupLineSays(rows, grouping, now, labelOf, Keys(rows, grouping)[k]);
    }
    KeysOnce(rows, grouping, now, labelOf);
    forall i | 0 <= i < |rows|
      ensures HasLine(lines, grouping, rows[i])
    {
      NobodyLeftOut(rows, grouping, now, labelOf, i);
    }
    ReportOrdered(rows, grouping, now, labelOf);
  }

  lemma {:induction false} ReportOrdered(rows: seq<Row>, grouping: GroupBy, now: int, labelOf: Key -> string)
    ensures Ordered(Report(rows, grouping, now, labelOf))
  {
    KpiOrder.SortedOrders(KpiOrder.Lines(rows, grouping, now, labelOf));
  }

  /** And its totals line says what all rows say. */
  lemma {:induction false} TotalsSay(rows: seq<Row>, now: int)
    ensures Says(AsRow(TallyOf(rows, now), None, "Jami"), rows, Everyone, now)
  {
    LineSays(rows, Everyone, now, None, "Jami");
  }
}
