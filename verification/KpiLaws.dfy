/** What every KPI report satisfies: groups add up to the totals, adjacent periods
    to the longer one, and the order of the rows does not matter, except that
    groups of equal size and equal label keep the order they were met in. */
module KpiLaws {
  import opened Wrappers
  import opened WorkingTime
  import opened Kpi

  /** What a tally counts. A list of durations counts as one column for every
      duration it may hold. */
  datatype Column =
    | Total | Open | Completed | Rejected | OverdueOpen | ClosedOnTime | ReturnedOnce
    | ResolvedIn(duration: int) | AcceptedIn(duration: int)

  function Cell(c: Column, t: Tally): nat {
    match c
    case Total => t.total
    case Open => t.open
    case Completed => t.completed
    case Rejected => t.rejected
    case OverdueOpen => t.overdueOpen
    case ClosedOnTime => t.closedOnTime
    case ReturnedOnce => t.returnedOnce
    case ResolvedIn(d) => multiset(t.resolution)[d]
    case AcceptedIn(d) => multiset(t.accept)[d]
  }

  /** Whether one row counts in a column. */
  predicate Counts(c: Column, r: Row, now: int) {
    match c
    case Total => true
    case Open => r.status.Open()
    case Completed => r.status.Completed?
    case Rejected => r.status.Rejected?
    case OverdueOpen => r.status.SlaRunning() && r.deadline < now
    case ClosedOnTime => r.closedAt.Some? && r.closedAt.value <= r.deadline
    case ReturnedOnce => r.wasReturned
    case ResolvedIn(d) => r.closedAt.Some? && r.closedAt.value - r.createdAt == d
    case AcceptedIn(d) => r.firstAcceptedAt.Some? && r.firstAcceptedAt.value - r.createdAt == d
  }

  function CountRows(c: Column, rows: seq<Row>, now: int): nat {
    if rows == [] then 0
    else CountRows(c, rows[..|rows| - 1], now) + One(Counts(c, rows[|rows| - 1], now))
  }

  lemma {:induction false} CellOfPlus(c: Column, t: Tally, r: Row, now: int)
    ensures Cell(c, Plus(t, r, now)) == Cell(c, t) + One(Counts(c, r, now))
  {
  }

  /** Every column of a tally is the number of rows that count in it. */
  lemma {:induction false} TallyCounts(c: Column, rows: seq<Row>, now: int)
    ensures Cell(c, TallyOf(rows, now)) == CountRows(c, rows, now)
  {
    if rows != [] {
      TallyCounts(c, rows[..|rows| - 1], now);
      CellOfPlus(c, TallyOf(rows[..|rows| - 1], now), rows[|rows| - 1], now);
    }
  }

  lemma {:induction false} CountOneMore(c: Column, rows: seq<Row>, r: Row, now: int)
    ensures CountRows(c, rows + [r], now) == CountRows(c, rows, now) + One(Counts(c, r, now))
  {
    assert (rows + [r])[..|rows|] == rows;
  }

  // Conservation over groups.

  ghost predicate Distinct(keys: seq<Key>) {
    forall i, j :: 0 <= i < j < |keys| ==> keys[i] != keys[j]
  }

  lemma {:induction false} KeysDistinct(rows: seq<Row>, grouping: GroupBy)
    ensures Distinct(Keys(rows, grouping))
    ensures forall k :: k in Keys(rows, grouping) <==> exists i :: 0 <= i < |rows| && KeyOf(rows[i], grouping) == k
  {
    if rows != [] {
      var n := |rows| - 1;
      KeysDistinct(rows[..n], grouping);
      forall k
        ensures k in Keys(rows, grouping) <==> exists i :: 0 <= i < |rows| && KeyOf(rows[i], grouping) == k
      {
        if i :| 0 <= i < n && KeyOf(rows[i], grouping) == k {
          assert rows[..n][i] == rows[i];
        }
      }
    }
  }

  /** A column added up over the groups with these keys. */
  function OverGroups(c: Column, rows: seq<Row>, grouping: GroupBy, now: int, keys: seq<Key>): nat {
    if keys == [] then 0
    else OverGroups(c, rows, grouping, now, keys[1..]) + Cell(c, TallyOf(Select(rows, grouping, keys[0]), now))
  }

  lemma {:induction false} GroupCellOneMore(c: Column, rows: seq<Row>, r: Row, grouping: GroupBy, now: int, k: Key)
    ensures Cell(c, TallyOf(Select(rows + [r], grouping, k), now))
         == Cell(c, TallyOf(Select(rows, grouping, k), now))
            + if KeyOf(r, grouping) == k then One(Counts(c, r, now)) else 0
  {
    var selected := Select(rows, grouping, k);
    OneRowMore(rows, r, grouping, now, k);
    if KeyOf(r, grouping) == k {
      OneRowMore(selected, r, grouping, now, k);
      CellOfPlus(c, TallyOf(selected, now), r, now);
    } else {
      assert selected + [] == selected;
    }
  }

  lemma {:induction false} OverGroupsOneMore(
      c: Column, rows: seq<Row>, r: Row, grouping: GroupBy, now: int, keys: seq<Key>)
    requires Distinct(keys)
    ensures OverGroups(c, rows + [r], grouping, now, keys)
         == OverGroups(c, rows, grouping, now, keys) + if KeyOf(r, grouping) in keys then One(Counts(c, r, now)) else 0
  {
    if keys != [] {
      OverGroupsOneMore(c, rows, r, grouping, now, keys[1..]);
      GroupCellOneMore(c, rows, r, grouping, now, keys[0]);
      assert keys == [keys[0]] + keys[1..];
    }
  }

  lemma {:induction false} OverGroupsOfNone(c: Column, grouping: GroupBy, now: int, keys: seq<Key>)
    ensures OverGroups(c, [], grouping, now, keys) == 0
  {
    if keys != [] {
      OverGroupsOfNone(c, grouping, now, keys[1..]);
    }
  }

  lemma {:induction false} OverAllKeys(c: Column, rows: seq<Row>, grouping: GroupBy, now: int, keys: seq<Key>)
    requires Distinct(keys) && forall i :: 0 <= i < |rows| ==> KeyOf(rows[i], grouping) in keys
    ensures OverGroups(c, rows, grouping, now, keys) == CountRows(c, rows, now)
  {
    if rows == [] {
      OverGroupsOfNone(c, grouping, now, keys);
    } else {
      var init, last := rows[..|rows| - 1], rows[|rows| - 1];
      assert rows == init + [last];
      OverAllKeys(c, init, grouping, now, keys);
      OverGroupsOneMore(c, init, last, grouping, now, keys);
      CountOneMore(c, init, last, now);
    }
  }

  /** For every row set and grouping, each counter and each list of durations adds
      up over the groups to the totals. */
  lemma {:induction false} GroupsAddUp(c: Column, rows: seq<Row>, grouping: GroupBy, now: int)
    ensures OverGroups(c, rows, grouping, now, Keys(rows, grouping)) == Cell(c, TallyOf(rows, now))
  {
    KeysDistinct(rows, grouping);
    OverAllKeys(c, rows, grouping, now, Keys(rows, grouping));
    TallyCounts(c, rows, now);
  }

  /** Every request is open, completed or rejected. */
  lemma {:induction false} StatusesAddUp(rows: seq<Row>, now: int)
    ensures var t := TallyOf(rows, now);
      t.open + t.completed + t.rejected == t.total == |rows| && t.overdueOpen <= t.open
  {
    if rows != [] {
      StatusesAddUp(rows[..|rows| - 1], now);
    }
  }

  /** Every row of `part` is one of `rows`. */
  ghost predicate PartOf(part: seq<Row>, rows: seq<Row>) {
    forall i :: 0 <= i < |part| ==> part[i] in rows
  }

  lemma {:induction false} OnTimeAtMost(part: seq<Row>, now: int)
    requires forall i :: 0 <= i < |part| ==> !(part[i].status.Open() && OnTime(part[i]))
    ensures TallyOf(part, now).closedOnTime <= TallyOf(part, now).completed + TallyOf(part, now).rejected
  {
    if part != [] {
      OnTimeAtMost(part[..|part| - 1], now);
    }
  }

  /** On-time never exceeds closed in any selection of the rows exactly if no open
      row carries an on-time closing date. */
  lemma {:induction false} OnTimeWithinClosed(rows: seq<Row>, now: int)
    ensures (forall part | PartOf(part, rows) ::
               TallyOf(part, now).closedOnTime <= TallyOf(part, now).completed + TallyOf(part, now).rejected)
       <==> forall r :: r in rows ==> !(r.status.Open() && OnTime(r))
  {
    if forall r :: r in rows ==> !(r.status.Open() && OnTime(r)) {
      forall part | PartOf(part, rows)
        ensures TallyOf(part, now).closedOnTime <= TallyOf(part, now).completed + TallyOf(part, now).rejected
      {
        OnTimeAtMost(part, now);
      }
    } else {
      var r :| r in rows && r.status.Open() && OnTime(r);
      assert PartOf([r], rows);
      assert [r][..0] == [];
      assert TallyOf([r], now).closedOnTime == 1 && TallyOf([r], now).completed + TallyOf([r], now).rejected == 0;
    }
  }

  // Periods.

  /** `_utc_bounds` and the query's filter. */
  predicate InPeriod(cal: Calendar, r: Row, from: int, to: int) {
    Midnight(cal, from) <= r.createdAt < Midnight(cal, to + 1)
  }

  function Filed(cal: Calendar, rows: seq<Row>, from: int, to: int): seq<Row> {
    if rows == [] then []
    else
      var last := rows[|rows| - 1];
      Filed(cal, rows[..|rows| - 1], from, to) + if InPeriod(cal, last, from, to) then [last] else []
  }

  /** Two adjacent periods partition the requests of the period they make up. */
  lemma {:induction false} PeriodsAddUp(
      c: Column, cal: Calendar, rows: seq<Row>, from: int, mid: int, to: int, now: int)
    requires from <= mid < to
    ensures Cell(c, TallyOf(Filed(cal, rows, from, to), now))
         == Cell(c, TallyOf(Filed(cal, rows, from, mid), now)) + Cell(c, TallyOf(Filed(cal, rows, mid + 1, to), now))
  {
    TallyCounts(c, Filed(cal, rows, from, to), now);
    TallyCounts(c, Filed(cal, rows, from, mid), now);
    TallyCounts(c, Filed(cal, rows, mid + 1, to), now);
    CountsOfPeriods(c, cal, rows, from, mid, to, now);
  }

  lemma {:induction false} FiledOneMore(c: Column, cal: Calendar, rows: seq<Row>, from: int, to: int, now: int)
    requires rows != []
    ensures var init, last := rows[..|rows| - 1], rows[|rows| - 1];
      CountRows(c, Filed(cal, rows, from, to), now)
      == CountRows(c, Filed(cal, init, from, to), now) + One(InPeriod(cal, last, from, to) && Counts(c, last, now))
  {
    var before, last := Filed(cal, rows[..|rows| - 1], from, to), rows[|rows| - 1];
    CountOneMore(c, before, last, now);
    assert before + [] == before;
  }

  lemma {:induction false} EitherPeriod(cal: Calendar, r: Row, from: int, mid: int, to: int)
    requires from <= mid < to
    ensures One(InPeriod(cal, r, from, to)) == One(InPeriod(cal, r, from, mid)) + One(InPeriod(cal, r, mid + 1, to))
  {
  }

  lemma {:induction false} CountsOfPeriods(
      c: Column, cal: Calendar, rows: seq<Row>, from: int, mid: int, to: int, now: int)
    requires from <= mid < to
    ensures CountRows(c, Filed(cal, rows, from, to), now)
         == CountRows(c, Filed(cal, rows, from, mid), now) + CountRows(c, Filed(cal, rows, mid + 1, to), now)
  {
    if rows != [] {
      CountsOfPeriods(c, cal, rows[..|rows| - 1], from, mid, to, now);
      EitherPeriod(cal, rows[|rows| - 1], from, mid, to);
      FiledOneMore(c, cal, rows, from, to, now);
      FiledOneMore(c, cal, rows, from, mid, now);
      FiledOneMore(c, cal, rows, mid + 1, to, now);
    }
  }

  /** A request filed at any microsecond x of a local day belongs to the periods that
      contain the day. */
  lemma {:induction false} PeriodIsByLocalDay(cal: Calendar, r: Row, day: int, x: int, from: int, to: int)
    requires 0 <= x < 86_400_000_000 && r.createdAt == day * 86_400_000_000 - cal.utcOffset + x
    ensures InPeriod(cal, r, from, to) <==> from <= day <= to
  {
  }

  // Row order.

  lemma {:induction false} RemoveBeforeLast<T>(s: seq<T>, i: nat)
    requires i < |s| - 1
    ensures var init := s[..|s| - 1];
      s[..i] + s[i + 1..] == (init[..i] + init[i + 1..]) + [s[|s| - 1]]
  {
    var n := |s| - 1;
    assert s[..n][..i] == s[..i] && s[..n][i + 1..] == s[i + 1..n];
    assert s[i + 1..] == s[i + 1..n] + [s[n]];
  }

  lemma {:induction false} CountRemove(c: Column, rows: seq<Row>, i: nat, now: int)
    requires i < |rows|
    ensures CountRows(c, rows, now) == CountRows(c, rows[..i] + rows[i + 1..], now) + One(Counts(c, rows[i], now))
  {
    var n := |rows| - 1;
    if i < n {
      CountRemove(c, rows[..n], i, now);
      var without := rows[..n][..i] + rows[..n][i + 1..];
      RemoveBeforeLast(rows, i);
      CountOneMore(c, without, rows[n], now);
    } else {
      assert rows[..i] + rows[i + 1..] == rows[..n];
    }
  }

  lemma {:induction false} Without<T>(s: seq<T>, i: nat)
    requires i < |s|
    ensures multiset(s[..i] + s[i + 1..]) == multiset(s) - multiset{s[i]}
  {
    assert s == s[..i] + [s[i]] + s[i + 1..];
  }

  /** Taking the last element of one arrangement out of another. */
  lemma {:induction false} TakeOut<T>(a: seq<T>, b: seq<T>) returns (i: nat)
    requires multiset(a) == multiset(b) && a != []
    ensures i < |b| && b[i] == a[|a| - 1]
    ensures multiset(a[..|a| - 1]) == multiset(b[..i] + b[i + 1..])
  {
    var n, last := |a| - 1, a[|a| - 1];
    assert last in multiset(a);
    assert last in multiset(b);
    i :| 0 <= i < |b| && b[i] == last;
    Without(b, i);
    Without(a, n);
    assert a[..n] + a[n + 1..] == a[..n];
  }

  lemma {:induction false} NothingLeft<T>(b: seq<T>)
    requires multiset(b) == multiset{}
    ensures b == []
  {
    assert |b| == |multiset(b)|;
  }

  /** Counts do not depend on the order of the rows. */
  lemma {:induction false} CountIgnoresOrder(c: Column, a: seq<Row>, b: seq<Row>, now: int)
    requires multiset(a) == multiset(b)
    ensures CountRows(c, a, now) == CountRows(c, b, now)
    decreases |a|
  {
    if a == [] {
      NothingLeft(b);
    } else {
      var i := TakeOut(a, b);
      CountIgnoresOrder(c, a[..|a| - 1], b[..i] + b[i + 1..], now);
      CountRemove(c, b, i, now);
    }
  }

  lemma {:induction false} DurationsRemove(s: seq<int>, i: nat)
    requires i < |s|
    ensures Sum(s) == Sum(s[..i] + s[i + 1..]) + s[i]
  {
    var n := |s| - 1;
    if i < n {
      DurationsRemove(s[..n], i);
      var without := s[..n][..i] + s[..n][i + 1..];
      RemoveBeforeLast(s, i);
      assert (without + [s[n]])[..|without|] == without;
    } else {
      assert s[..i] + s[i + 1..] == s[..n];
    }
  }

  lemma {:induction false} MeanIgnoresOrder(a: seq<int>, b: seq<int>)
    requires multiset(a) == multiset(b)
    ensures MeanHours(a) == MeanHours(b) && |a| == |b| && Sum(a) == Sum(b)
    decreases |a|
  {
    if a == [] {
      NothingLeft(b);
    } else {
      var i := TakeOut(a, b);
      MeanIgnoresOrder(a[..|a| - 1], b[..i] + b[i + 1..]);
      DurationsRemove(b, i);
    }
  }

  /** A report line depends only on the columns. */
  lemma {:induction false} LineOfCells(a: Tally, b: Tally, key: Key, name: string)
    requires forall c :: Cell(c, a) == Cell(c, b)
    ensures AsRow(a, key, name) == AsRow(b, key, name)
  {
    assert Cell(Total, a) == Cell(Total, b) && Cell(Open, a) == Cell(Open, b);
    assert Cell(Completed, a) == Cell(Completed, b) && Cell(Rejected, a) == Cell(Rejected, b);
    assert Cell(OverdueOpen, a) == Cell(OverdueOpen, b) && Cell(ClosedOnTime, a) == Cell(ClosedOnTime, b);
    assert Cell(ReturnedOnce, a) == Cell(ReturnedOnce, b);
    forall d
      ensures multiset(a.resolution)[d] == multiset(b.resolution)[d]
    {
      assert Cell(ResolvedIn(d), a) == Cell(ResolvedIn(d), b);
    }
    assert multiset(a.resolution) == multiset(b.resolution);
    forall d
      ensures multiset(a.accept)[d] == multiset(b.accept)[d]
    {
      assert Cell(AcceptedIn(d), a) == Cell(AcceptedIn(d), b);
    }
    assert multiset(a.accept) == multiset(b.accept);
    MeanIgnoresOrder(a.resolution, b.resolution);
    MeanIgnoresOrder(a.accept, b.accept);
  }
}
