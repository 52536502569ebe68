/** The order of a report's lines: larger groups first, then by label, and lines
    that agree in both stay in the order their groups were met in. So the report
    ignores the order of the rows exactly if no two groups agree in both. */
module KpiOrder {
  import opened Wrappers
  import opened Decimals
  import opened Kpi
  import opened KpiLaws
  import Requests

  predicate SameRank(a: Line, b: Line) {
    a.total == b.total && a.name == b.name
  }

  /** The lines with this total and label, as they come. */
  function OfRank(lines: seq<Line>, total: nat, name: string): seq<Line> {
    if lines == [] then []
    else
      (if lines[0].total == total && lines[0].name == name then [lines[0]] else []) + OfRank(lines[1..], total, name)
  }

  ghost predicate InOrder(lines: seq<Line>) {
    forall i, j :: 0 <= i < j < |lines| ==> Precedes(lines[i], lines[j])
  }

  lemma {:induction false} PrecedesOrders(a: Line, b: Line, c: Line)
    ensures Precedes(a, b) || Precedes(b, a)
    ensures Precedes(a, b) && Precedes(b, a) ==> a.total == b.total && a.name == b.name
    ensures Precedes(a, b) && Precedes(b, c) ==> Precedes(a, c)
  {
    LeqTotal(a.name, b.name);
    if Leq(a.name, b.name) && Leq(b.name, a.name) {
      LeqAntisymmetric(a.name, b.name);
    }
    if Leq(a.name, b.name) && Leq(b.name, c.name) {
      LeqTransitive(a.name, b.name, c.name);
    }
  }

  // The sort.

  lemma {:induction false} InsertOrders(l: Line, sorted: seq<Line>)
    requires InOrder(sorted)
    ensures InOrder(Insert(l, sorted)) && multiset(Insert(l, sorted)) == multiset(sorted) + multiset{l}
  {
    if sorted == [] {
    } else if Precedes(l, sorted[0]) {
      forall j | 0 <= j < |sorted|
        ensures Precedes(l, sorted[j])
      {
        PrecedesOrders(l, sorted[0], sorted[j]);
      }
    } else {
      var rest := Insert(l, sorted[1..]);
      InsertOrders(l, sorted[1..]);
      PrecedesOrders(l, sorted[0], l);
      assert sorted == [sorted[0]] + sorted[1..];
      forall j | 0 <= j < |rest|
        ensures Precedes(sorted[0], rest[j])
      {
        assert rest[j] in multiset(rest);
        assert rest[j] in multiset(sorted[1..]) || rest[j] == l;
      }
    }
  }

  /** Sorting orders the lines and loses none. */
  lemma {:induction false} SortedOrders(lines: seq<Line>)
    ensures InOrder(Sorted(lines)) && multiset(Sorted(lines)) == multiset(lines)
  {
    if lines != [] {
      SortedOrders(lines[1..]);
      InsertOrders(lines[0], Sorted(lines[1..]));
      assert lines == [lines[0]] + lines[1..];
    }
  }

  lemma {:induction false} InsertKeepsRanks(l: Line, sorted: seq<Line>, total: nat, name: string)
    ensures OfRank(Insert(l, sorted), total, name) == OfRank([l] + sorted, total, name)
  {
    assert ([l] + sorted)[1..] == sorted;
    if sorted != [] && !Precedes(l, sorted[0]) {
      LeqReflexive(l.name);
      InsertKeepsRanks(l, sorted[1..], total, name);
      assert ([l] + sorted[1..])[1..] == sorted[1..];
      assert Insert(l, sorted)[1..] == Insert(l, sorted[1..]);
    }
  }

  /** It is stable. */
  lemma {:induction false} SortedKeepsRanks(lines: seq<Line>, total: nat, name: string)
    ensures OfRank(Sorted(lines), total, name) == OfRank(lines, total, name)
  {
    if lines != [] {
      SortedKeepsRanks(lines[1..], total, name);
      InsertKeepsRanks(lines[0], Sorted(lines[1..]), total, name);
      assert ([lines[0]] + Sorted(lines[1..]))[1..] == Sorted(lines[1..]);
    }
  }

  ghost predicate SameRanks(a: seq<Line>, b: seq<Line>) {
    forall total, name :: OfRank(a, total, name) == OfRank(b, total, name)
  }

  lemma {:induction false} InRank(lines: seq<Line>, i: nat)
    requires i < |lines|
    ensures lines[i] in OfRank(lines, lines[i].total, lines[i].name)
  {
    if i > 0 {
      InRank(lines[1..], i - 1);
    }
  }

  lemma {:induction false} RankHas(lines: seq<Line>, total: nat, name: string, l: Line)
    requires l in OfRank(lines, total, name)
    ensures l in lines && l.total == total && l.name == name
  {
    if l !in OfRank(lines[1..], total, name) {
      assert l == lines[0];
    } else {
      RankHas(lines[1..], total, name, l);
    }
  }

  lemma {:induction false} FirstIsLeast(lines: seq<Line>, l: Line)
    requires InOrder(lines) && l in lines
    ensures Precedes(lines[0], l)
  {
    LeqReflexive(l.name);
  }

  /** Two arrangements in order with the same lines of each rank start alike. */
  lemma {:induction false} SameFirst(a: seq<Line>, b: seq<Line>)
    requires InOrder(a) && InOrder(b) && a != []
    requires SameRanks(a, b)
    ensures b != [] && a[0] == b[0]
  {
    InRank(a, 0);
    RankHas(b, a[0].total, a[0].name, a[0]);
    InRank(b, 0);
    RankHas(a, b[0].total, b[0].name, b[0]);
    FirstIsLeast(a, b[0]);
    FirstIsLeast(b, a[0]);
    PrecedesOrders(a[0], b[0], b[0]);
    assert OfRank(a, a[0].total, a[0].name)[0] == a[0];
    assert OfRank(b, a[0].total, a[0].name)[0] == b[0];
  }

  /** What is in order is fixed by its lines of each rank. */
  lemma {:induction false} RanksFixOrder(a: seq<Line>, b: seq<Line>)
    requires InOrder(a) && InOrder(b)
    requires SameRanks(a, b)
    ensures a == b
  {
    if a != [] {
      SameFirst(a, b);
      forall total, name
        ensures OfRank(a[1..], total, name) == OfRank(b[1..], total, name)
      {
        var head := if a[0].total == total && a[0].name == name then [a[0]] else [];
        assert OfRank(a[1..], total, name) == OfRank(a, total, name)[|head|..];
        assert OfRank(b[1..], total, name) == OfRank(b, total, name)[|head|..];
      }
      RanksFixOrder(a[1..], b[1..]);
      assert a == [a[0]] + a[1..] && b == [b[0]] + b[1..];
    } else if b != [] {
      SameFirst(b, a);
    }
  }

  /** Two lists of lines sort to the same report exactly if they have the same
      lines of each rank in the same order. */
  lemma {:induction false} SortsAlike(a: seq<Line>, b: seq<Line>)
    ensures Sorted(a) == Sorted(b) <==> SameRanks(a, b)
  {
    SortedOrders(a);
    SortedOrders(b);
    forall total, name
      ensures OfRank(Sorted(a), total, name) == OfRank(a, total, name)
    {
      SortedKeepsRanks(a, total, name);
    }
    forall total, name
      ensures OfRank(Sorted(b), total, name) == OfRank(b, total, name)
    {
      SortedKeepsRanks(b, total, name);
    }
    if SameRanks(a, b) {
      RanksFixOrder(Sorted(a), Sorted(b));
    }
  }

  // The lines of a report.

  function GroupLine(rows: seq<Row>, grouping: GroupBy, now: int, labelOf: Key -> string, k: Key): Line {
    AsRow(TallyOf(Select(rows, grouping, k), now), k, labelOf(k))
  }

  /** The lines before sorting. */
  function Lines(rows: seq<Row>, grouping: GroupBy, now: int, labelOf: Key -> string): seq<Line> {
    LinesOf(GroupTallies(rows, grouping, now), labelOf, Keys(rows, grouping))
  }

  lemma {:induction false} LinesAre(tallies: map<Key, Tally>, labelOf: Key -> string, keys: seq<Key>)
    requires forall i :: 0 <= i < |keys| ==> keys[i] in tallies
    ensures var lines := LinesOf(tallies, labelOf, keys);
      && |lines| == |keys|
      && forall i :: 0 <= i < |keys| ==> lines[i] == AsRow(tallies[keys[i]], keys[i], labelOf(keys[i]))
  {
    if keys != [] {
      LinesAre(tallies, labelOf, keys[..|keys| - 1]);
    }
  }

  lemma {:induction false} LinesByKey(rows: seq<Row>, grouping: GroupBy, now: int, labelOf: Key -> string)
    ensures var lines, keys := Lines(rows, grouping, now, labelOf), Keys(rows, grouping);
      && |lines| == |keys|
      && forall i :: 0 <= i < |keys| ==> lines[i] == GroupLine(rows, grouping, now, labelOf, keys[i])
  {
    LinesAre(GroupTallies(rows, grouping, now), labelOf, Keys(rows, grouping));
  }

  /** The lines of a rank that only one line has. */
  lemma {:induction false} AloneInRank(lines: seq<Line>, i: nat)
    requires i < |lines|
    requires forall j :: 0 <= j < |lines| && j != i ==> !SameRank(lines[j], lines[i])
    ensures OfRank(lines, lines[i].total, lines[i].name) == [lines[i]]
  {
    if i == 0 {
      EmptyRank(lines[1..], lines[0].total, lines[0].name);
    } else {
      AloneInRank(lines[1..], i - 1);
    }
  }

  lemma {:induction false} EmptyRank(lines: seq<Line>, total: nat, name: string)
    requires forall j :: 0 <= j < |lines| ==> lines[j].total != total || lines[j].name != name
    ensures OfRank(lines, total, name) == []
  {
    if lines != [] {
      EmptyRank(lines[1..], total, name);
    }
  }

  /** A selection keeps every row of its group, as often as it comes. */
  lemma {:induction false} SelectCounts(rows: seq<Row>, grouping: GroupBy, k: Key, r: Row)
    ensures multiset(Select(rows, grouping, k))[r] == if KeyOf(r, grouping) == k then multiset(rows)[r] else 0
  {
    if rows != [] {
      var n := |rows| - 1;
      SelectCounts(rows[..n], grouping, k, r);
      assert rows == rows[..n] + [rows[n]];
    }
  }

  /** The groups and the line of each group do not depend on the order of the rows. */
  lemma {:induction false} LineIgnoresOrder(
      a: seq<Row>, b: seq<Row>, grouping: GroupBy, now: int, labelOf: Key -> string, k: Key)
    requires multiset(a) == multiset(b)
    ensures GroupLine(a, grouping, now, labelOf, k) == GroupLine(b, grouping, now, labelOf, k)
    ensures k in Keys(a, grouping) <==> k in Keys(b, grouping)
  {
    var inA, inB := Select(a, grouping, k), Select(b, grouping, k);
    forall r
      ensures multiset(inA)[r] == multiset(inB)[r]
    {
      SelectCounts(a, grouping, k, r);
      SelectCounts(b, grouping, k, r);
    }
    assert multiset(inA) == multiset(inB);
    forall c
      ensures Cell(c, TallyOf(inA, now)) == Cell(c, TallyOf(inB, now))
    {
      CountIgnoresOrder(c, inA, inB, now);
      TallyCounts(c, inA, now);
      TallyCounts(c, inB, now);
    }
    LineOfCells(TallyOf(inA, now), TallyOf(inB, now), k, labelOf(k));
    SelectedExactlyWhenKey(a, grouping, k);
    SelectedExactlyWhenKey(b, grouping, k);
    assert |inA| == |multiset(inA)| && |inB| == |multiset(inB)|;
  }

  lemma {:induction false} SelectedExactlyWhenKey(rows: seq<Row>, grouping: GroupBy, k: Key)
    ensures k in Keys(rows, grouping) <==> Select(rows, grouping, k) != []
  {
    if rows != [] {
      SelectedExactlyWhenKey(rows[..|rows| - 1], grouping, k);
    }
  }

  // When the order of the rows shows.

  /** Two different groups of one size and one label. */
  ghost predicate Tied(rows: seq<Row>, grouping: GroupBy, labelOf: Key -> string, j: Key, k: Key) {
    && j != k && j in Keys(rows, grouping) && k in Keys(rows, grouping)
    && |Select(rows, grouping, j)| == |Select(rows, grouping, k)| && labelOf(j) == labelOf(k)
  }

  lemma {:induction false} SizeIsTotal(rows: seq<Row>, now: int)
    ensures TallyOf(rows, now).total == |rows|
  {
    StatusesAddUp(rows, now);
  }

  lemma {:induction false} RankOfKey(
      rows: seq<Row>, grouping: GroupBy, now: int, labelOf: Key -> string, k: Key)
    requires forall i, j :: !Tied(rows, grouping, labelOf, i, j)
    requires k in Keys(rows, grouping)
    ensures var l := GroupLine(rows, grouping, now, labelOf, k);
      OfRank(Lines(rows, grouping, now, labelOf), l.total, l.name) == [l]
  {
    var keys, lines := Keys(rows, grouping), Lines(rows, grouping, now, labelOf);
    LinesByKey(rows, grouping, now, labelOf);
    KeysDistinct(rows, grouping);
    var i :| 0 <= i < |keys| && keys[i] == k;
    forall j | 0 <= j < |lines| && j != i
      ensures !SameRank(lines[j], lines[i])
    {
      SizeIsTotal(Select(rows, grouping, keys[j]), now);
      SizeIsTotal(Select(rows, grouping, k), now);
      assert !Tied(rows, grouping, labelOf, k, keys[j]);
    }
    AloneInRank(lines, i);
  }

  /** Without ties, a rank that occurs has the one same line in both. */
  lemma {:induction false} RanksWithoutTies(
      a: seq<Row>, b: seq<Row>, grouping: GroupBy, now: int, labelOf: Key -> string, total: nat, name: string)
    requires multiset(a) == multiset(b)
    requires forall i, j :: !Tied(a, grouping, labelOf, i, j)
    requires forall i, j :: !Tied(b, grouping, labelOf, i, j)
    requires OfRank(Lines(a, grouping, now, labelOf), total, name) != []
    ensures OfRank(Lines(a, grouping, now, labelOf), total, name)
         == OfRank(Lines(b, grouping, now, labelOf), total, name)
  {
    var lines := Lines(a, grouping, now, labelOf);
    var l := OfRank(lines, total, name)[0];
    RankHas(lines, total, name, l);
    LinesByKey(a, grouping, now, labelOf);
    var i :| 0 <= i < |lines| && lines[i] == l;
    var k := Keys(a, grouping)[i];
    LineIgnoresOrder(a, b, grouping, now, labelOf, k);
    RankOfKey(a, grouping, now, labelOf, k);
    RankOfKey(b, grouping, now, labelOf, k);
  }

  lemma {:induction false} TiesIgnoreOrder(
      a: seq<Row>, b: seq<Row>, grouping: GroupBy, labelOf: Key -> string, j: Key, k: Key)
    requires multiset(a) == multiset(b) && Tied(b, grouping, labelOf, j, k)
    ensures Tied(a, grouping, labelOf, j, k)
  {
    forall x
      ensures |Select(a, grouping, x)| == |Select(b, grouping, x)|
    {
      LineIgnoresOrder(a, b, grouping, 0, labelOf, x);
      SizeIsTotal(Select(a, grouping, x), 0);
      SizeIsTotal(Select(b, grouping, x), 0);
    }
    LineIgnoresOrder(a, b, grouping, 0, labelOf, j);
    LineIgnoresOrder(a, b, grouping, 0, labelOf, k);
  }

  lemma {:induction false} SameReport(a: seq<Row>, b: seq<Row>, grouping: GroupBy, now: int, labelOf: Key -> string)
    requires multiset(a) == multiset(b)
    requires forall j, k :: !Tied(a, grouping, labelOf, j, k)
    ensures Report(a, grouping, now, labelOf) == Report(b, grouping, now, labelOf)
  {
    forall j, k
      ensures !Tied(b, grouping, labelOf, j, k)
    {
      if Tied(b, grouping, labelOf, j, k) {
        TiesIgnoreOrder(a, b, grouping, labelOf, j, k);
      }
    }
    var la, lb := Lines(a, grouping, now, labelOf), Lines(b, grouping, now, labelOf);
    forall total, name
      ensures OfRank(la, total, name) == OfRank(lb, total, name)
    {
      if OfRank(la, total, name) != [] {
        RanksWithoutTies(a, b, grouping, now, labelOf, total, name);
      } else if OfRank(lb, total, name) != [] {
        RanksWithoutTies(b, a, grouping, now, labelOf, total, name);
      }
    }
    SortsAlike(la, lb);
  }

  lemma {:induction false} FirstKey(rows: seq<Row>, grouping: GroupBy)
    requires rows != []
    ensures Keys(rows, grouping) != [] && Keys(rows, grouping)[0] == KeyOf(rows[0], grouping)
  {
    if |rows| > 1 {
      FirstKey(rows[..|rows| - 1], grouping);
    }
  }

  /** The same rows with a row of this group in front. */
  lemma {:induction false} InFront(rows: seq<Row>, grouping: GroupBy, k: Key) returns (b: seq<Row>)
    requires k in Keys(rows, grouping)
    ensures multiset(b) == multiset(rows)
    ensures Keys(b, grouping) != [] && Keys(b, grouping)[0] == k
  {
    KeysDistinct(rows, grouping);
    var i :| 0 <= i < |rows| && KeyOf(rows[i], grouping) == k;
    b := [rows[i]] + (rows[..i] + rows[i + 1..]);
    Without(rows, i);
    assert rows[i] in multiset(rows);
    FirstKey(b, grouping);
  }

  /** The first line of its rank then belongs to that group. */
  lemma {:induction false} FirstInRank(rows: seq<Row>, grouping: GroupBy, now: int, labelOf: Key -> string)
    requires Keys(rows, grouping) != []
    ensures var l := GroupLine(rows, grouping, now, labelOf, Keys(rows, grouping)[0]);
      var ranked := OfRank(Report(rows, grouping, now, labelOf), l.total, l.name);
      ranked != [] && ranked[0] == l
  {
    var l := GroupLine(rows, grouping, now, labelOf, Keys(rows, grouping)[0]);
    LinesByKey(rows, grouping, now, labelOf);
    SortedKeepsRanks(Lines(rows, grouping, now, labelOf), l.total, l.name);
  }

  lemma {:induction false} TiesShow(
      rows: seq<Row>, grouping: GroupBy, now: int, labelOf: Key -> string, j: Key, k: Key) returns (b: seq<Row>)
    requires Tied(rows, grouping, labelOf, j, k)
    ensures multiset(b) == multiset(rows) && Report(b, grouping, now, labelOf) != Report(rows, grouping, now, labelOf)
  {
    var first := InFront(rows, grouping, j);
    var second := InFront(rows, grouping, k);
    FirstInRank(first, grouping, now, labelOf);
    FirstInRank(second, grouping, now, labelOf);
    LineIgnoresOrder(rows, first, grouping, now, labelOf, j);
    LineIgnoresOrder(rows, second, grouping, now, labelOf, k);
    SizeIsTotal(Select(rows, grouping, j), now);
    SizeIsTotal(Select(rows, grouping, k), now);
    var total := |Select(rows, grouping, j)|;
    assert OfRank(Report(first, grouping, now, labelOf), total, labelOf(j))[0].key == j;
    assert OfRank(Report(second, grouping, now, labelOf), total, labelOf(j))[0].key == k;
    b := if Report(first, grouping, now, labelOf) == Report(rows, grouping, now, labelOf) then second else first;
  }

  /** The order of the rows never shows in the report exactly if no two groups
      have one size and one label. */
  lemma {:induction false} ReportIgnoresOrder(rows: seq<Row>, grouping: GroupBy, now: int, labelOf: Key -> string)
    ensures (forall b | multiset(b) == multiset(rows) ::
               Report(b, grouping, now, labelOf) == Report(rows, grouping, now, labelOf))
       <==> (forall j, k :: !Tied(rows, grouping, labelOf, j, k))
  {
    if j, k :| Tied(rows, grouping, labelOf, j, k) {
      var b := TiesShow(rows, grouping, now, labelOf, j, k);
    } else {
      forall b | multiset(b) == multiset(rows)
        ensures Report(b, grouping, now, labelOf) == Report(rows, grouping, now, labelOf)
      {
        SameReport(rows, b, grouping, now, labelOf);
      }
    }
  }

  /** A row of an open request that this person holds. */
  function HeldBy(person: int): Row {
    Row(Requests.InProgress, Some(person), None, None, None, 0, None, 0, None, false)
  }

  /** A tie from real data: two people of one name with one request each. */
  lemma {:induction false} NamesakesTie(one: int, other: int, name: string)
    requires one != other
    ensures Tied([HeldBy(one), HeldBy(other)], ByStaff, _ => name, Some(one), Some(other))
  {
    var rows := [HeldBy(one), HeldBy(other)];
    assert rows[..1] == [HeldBy(one)] && rows[..1][..0] == [];
    assert Keys(rows[..1], ByStaff) == [Some(one)];
    assert Keys(rows, ByStaff) == [Some(one), Some(other)];
    assert Keys(rows, ByStaff)[0] == Some(one) && Keys(rows, ByStaff)[1] == Some(other);
    assert Select(rows[..1], ByStaff, Some(one)) == [HeldBy(one)];
    assert Select(rows[..1], ByStaff, Some(other)) == [];
  }
}
