/** Tracking numbers (`generate_tracking_no` in
    backend/app/services/request_service.py): a counter per year that may be lost
    and is then seeded from the highest number stored, highest as text. */
module Tracking {
  import opened Wrappers
  import opened Decimals

  function Prefix(year: nat): string {
    "REQ-" + Dec(year) + "-"
  }

  /** `REQ-{year}-{seq:05d}`. */
  function Number(year: nat, n: nat): string {
    Prefix(year) + Pad(n, 5)
  }

  /** What follows the last dash. */
  function AfterLastDash(s: string): Option<string> {
    if s == "" then None
    else if s[|s| - 1] == '-' then Some("")
    else
      var rest := AfterLastDash(s[..|s| - 1]);
      if rest.None? then None else Some(rest.value + [s[|s| - 1]])
  }

  /** `int(highest.rsplit("-", 1)[1])`, or nothing where that raises. */
  function Recovered(s: string): Option<nat> {
    var t := AfterLastDash(s);
    if t.None? || t.value == "" || !AllDigits(t.value) then None
    else if Val(t.value) < 0 then None else Some(Val(t.value))
  }

  lemma {:induction false} AfterDash(p: string, digits: string)
    requires AllDigits(digits)
    ensures AfterLastDash(p + "-" + digits) == Some(digits)
  {
    var s := p + "-" + digits;
    if digits == "" {
      assert s[|s| - 1] == '-';
    } else {
      var init := digits[..|digits| - 1];
      AfterDash(p, init);
      assert s[..|s| - 1] == p + "-" + init;
      assert s[|s| - 1] == digits[|digits| - 1];
      assert init + [digits[|digits| - 1]] == digits;
    }
  }

  /** Parsing undoes formatting. */
  lemma {:induction false} ParseNumber(year: nat, n: nat)
    ensures Recovered(Number(year, n)) == Some(n)
  {
    AfterDash("REQ-" + Dec(year), Pad(n, 5));
    ValPad(n, 5);
  }

  lemma {:induction false} SameYear(year: nat, year': nat, n: nat)
    requires Prefix(year) <= Number(year', n)
    ensures year == year'
  {
    var d, d', s := Dec(year), Dec(year'), Number(year', n);
    assert forall k :: 0 <= k < |d| ==> s[4 + k] == d[k];
    assert forall k :: 0 <= k < |d'| ==> s[4 + k] == d'[k];
    assert s[4 + |d|] == '-' && s[4 + |d'|] == '-';
    assert |d| == |d'|;
    assert d == d';
    ValPad(year, 1);
    ValPad(year', 1);
  }

  /** How a number is written: the year and the number in decimal, the number with at
      least five digits and no more than it needs. */
  lemma {:induction false} NumberShape(year: nat, n: nat) returns (y: string, s: string)
    ensures Number(year, n) == "REQ-" + y + "-" + s
    ensures AllDigits(y) && AllDigits(s) && Val(y) == year && Val(s) == n
    ensures |s| >= 5 && (|s| > 5 ==> s[0] != '0')
  {
    y, s := Dec(year), Pad(n, 5);
    ValPad(year, 1);
    ValPad(n, 5);
    PadWidth(n, 5);
    if |s| > 5 {
      TenAtLeast(5);
      NoLeadingZero(n, 5);
    }
  }

  lemma {:induction false} NoLeadingZero(n: nat, width: nat)
    requires |Pad(n, width)| > width && n > 0
    ensures Pad(n, width)[0] != '0'
    decreases n + width
  {
    if n >= 10 {
      NoLeadingZero(n / 10, if width == 0 then 0 else width - 1);
    } else {
      ShortPad(n, width);
    }
  }

  lemma {:induction false} ShortPad(n: nat, width: nat)
    requires n < 10
    ensures if width <= 1 then Pad(n, width) == [Digit(n)] else |Pad(n, width)| == width
  {
    if width > 1 {
      PadWidth(n, width);
      TenAtLeast(width);
    }
  }

  lemma {:induction false} TenAtLeast(width: nat)
    requires width > 0
    ensures Pow10(width) >= 10
  {
    if width > 1 {
      TenAtLeast(width - 1);
    } else {
      assert Pow10(1) == 10 * Pow10(0);
    }
  }

  /** Distinct year or number, distinct text. */
  lemma {:induction false} NumberInjective(year: nat, n: nat, year': nat, n': nat)
    requires Number(year, n) == Number(year', n')
    ensures year == year' && n == n'
  {
    SameYear(year, year', n');
    ParseNumber(year, n);
    ParseNumber(year', n');
  }

  /** The database's answer: the greatest stored text of the year, if any. */
  ghost predicate Highest(stored: set<string>, year: nat, h: Option<string>) {
    match h
    case None => forall s :: s in stored ==> !(Prefix(year) <= s)
    case Some(m) => m in stored && Prefix(year) <= m && forall s :: s in stored && Prefix(year) <= s ==> Leq(s, m)
  }

  /** The counter after the call and the number it gives out. */
  function Issue(counters: map<nat, nat>, year: nat, highest: Option<string>): (map<nat, nat>, nat) {
    var seq0 := (if year in counters then counters[year] else 0) + 1;
    if seq0 == 1 && highest.Some? && Recovered(highest.value).Some? then
      var n := Recovered(highest.value).value + 1;
      (counters[year := n], n)
    else (counters[year := seq0], seq0)
  }

  class TrackingCounter {
    var counters: map<nat, nat>

    /** `generate_tracking_no`. */
    method Generate(year: nat, highest: Option<string>) returns (no: string)
      modifies this
      ensures counters == Issue(old(counters), year, highest).0
      ensures no == Number(year, Issue(old(counters), year, highest).1)
    {
      var n := (if year in counters then counters[year] else 0) + 1;
      counters := counters[year := n];
      if n == 1 && highest.Some? {
        var recovered := Recovered(highest.value);
        if recovered.Some? {
          counters := counters[year := recovered.value + 1];
          n := recovered.value + 1;
        }
      }
      return Number(year, n);
    }
  }

  datatype State = State(stored: set<string>, counters: map<nat, nat>)

  /** A filing that stores its number, one that is rolled back after taking it, and
      a counter that expires or is lost with the cache. */
  datatype Action =
    | File(year: nat, highest: Option<string>)
    | Abort(year: nat, highest: Option<string>)
    | Lose(year: nat)

  ghost predicate Step(s: State, a: Action, s': State) {
    match a
    case File(year, h) =>
      && Highest(s.stored, year, h)
      && s' == State(s.stored + {Number(year, Issue(s.counters, year, h).1)}, Issue(s.counters, year, h).0)
    case Abort(year, h) =>
      Highest(s.stored, year, h) && s' == State(s.stored, Issue(s.counters, year, h).0)
    case Lose(year) => s' == State(s.stored, s.counters - {year})
  }

  ghost predicate IsNumber(s: string) {
    exists year: nat, n: nat :: s == Number(year, n)
  }

  /** The year's numbers are still below 100000. */
  ghost predicate FewNumbers(stored: set<string>, year: nat) {
    forall n: nat :: Number(year, n) in stored ==> n < 100000
  }

  /** Only numbers are stored, and the year's counter, if alive, is not behind any
      of them. */
  ghost predicate Ahead(s: State, year: nat) {
    && (forall t :: t in s.stored ==> IsNumber(t))
    && (year in s.counters ==> s.counters[year] >= 1)
    && (year in s.counters ==> forall n: nat :: Number(year, n) in s.stored ==> n <= s.counters[year])
  }

  lemma {:induction false} TenThousands()
    ensures Pow10(4) == 10000 && Pow10(5) == 100000
  {
    assert Pow10(3) == 10 * Pow10(2) && Pow10(2) == 10 * Pow10(1) && Pow10(1) == 10 * Pow10(0);
  }

  lemma {:induction false} FiveDigits(n: nat)
    ensures n < 100000 <==> |Pad(n, 5)| == 5
  {
    TenThousands();
    PadWidth(n, 5);
  }

  /** Below 100000 the textual order is the numeric one. */
  lemma {:induction false} TextOrder(year: nat, n: nat, m: nat)
    requires n < 100000 && m < 100000
    ensures Leq(Number(year, n), Number(year, m)) <==> n <= m
  {
    FiveDigits(n);
    FiveDigits(m);
    ValPad(n, 5);
    ValPad(m, 5);
    TextOrderIsNumberOrder(Pad(n, 5), Pad(m, 5));
    LeqCommonStart(Prefix(year), Pad(n, 5), Pad(m, 5));
  }

  /** The number given out is above every stored number of its year. The limit
      matters only where the counter is reseeded. */
  lemma {:induction false} IssuedIsAbove(s: State, year: nat, h: Option<string>)
    requires Ahead(s, year) && Highest(s.stored, year, h)
    requires year in s.counters || FewNumbers(s.stored, year)
    ensures forall n: nat :: Number(year, n) in s.stored ==> n < Issue(s.counters, year, h).1
    ensures Issue(s.counters, year, h).0 == s.counters[year := Issue(s.counters, year, h).1]
    ensures Issue(s.counters, year, h).1 >= 1
  {
    if year !in s.counters {
      if h.Some? {
        assert IsNumber(h.value);
        var y: nat, k: nat :| h.value == Number(y, k);
        SameYear(year, y, k);
        ParseNumber(year, k);
        forall n: nat | Number(year, n) in s.stored
          ensures n <= k
        {
          assert Prefix(year) <= Number(year, n);
          TextOrder(year, n, k);
        }
      } else {
        forall n: nat
          ensures Number(year, n) !in s.stored
        {
          assert Prefix(year) <= Number(year, n);
        }
      }
    }
  }

  /** If the call would reseed the year's counter, the year is below the limit. */
  ghost predicate ReseedsBelow(s: State, a: Action, year: nat) {
    !a.Lose? && a.year == year && year !in s.counters ==> FewNumbers(s.stored, year)
  }

  lemma {:induction false} StepAhead(s: State, a: Action, s': State, year: nat)
    requires Ahead(s, year) && ReseedsBelow(s, a, year) && Step(s, a, s')
    ensures Ahead(s', year)
  {
    if !a.Lose? {
      var issued := Issue(s.counters, a.year, a.highest).1;
      assert IsNumber(Number(a.year, issued));
      if a.year == year {
        IssuedIsAbove(s, year, a.highest);
      }
      forall n: nat | year in s'.counters && Number(year, n) in s'.stored
        ensures n <= s'.counters[year]
      {
        if Number(year, n) == Number(a.year, issued) {
          NumberInjective(year, n, a.year, issued);
        }
      }
    }
  }

  ghost predicate Run(states: seq<State>, actions: seq<Action>) {
    && |states| == |actions| + 1 && states[0] == State({}, map[])
    && forall i :: 0 <= i < |actions| ==> Step(states[i], actions[i], states[i + 1])
  }

  lemma {:induction false} RunAhead(states: seq<State>, actions: seq<Action>, year: nat, n: nat)
    requires Run(states, actions) && n < |states|
    requires forall i :: 0 <= i < n ==> ReseedsBelow(states[i], actions[i], year)
    ensures Ahead(states[n], year)
  {
    if n > 0 {
      assert Step(states[n - 1], actions[n - 1], states[n]);
      RunAhead(states, actions, year, n - 1);
      StepAhead(states[n - 1], actions[n - 1], states[n], year);
    }
  }

  /** Over every run of filings, rolled-back filings and lost counters, a number
      given out is not stored yet, if its year was below 100000 whenever its counter
      was reseeded. Other years do not matter, nor does the limit while the counter
      is alive. */
  lemma {:induction false} NumbersStayFresh(states: seq<State>, actions: seq<Action>, n: nat)
    requires Run(states, actions) && n < |actions| && !actions[n].Lose?
    requires forall i :: 0 <= i <= n ==> ReseedsBelow(states[i], actions[i], actions[n].year)
    ensures var a := actions[n];
      Number(a.year, Issue(states[n].counters, a.year, a.highest).1) !in states[n].stored
  {
    var year := actions[n].year;
    RunAhead(states, actions, year, n);
    assert Step(states[n], actions[n], states[n + 1]);
    assert ReseedsBelow(states[n], actions[n], year);
    IssuedIsAbove(states[n], year, actions[n].highest);
  }

  lemma {:induction false} StoredGrows(states: seq<State>, actions: seq<Action>, m: nat, n: nat)
    requires Run(states, actions) && m <= n < |states|
    ensures states[m].stored <= states[n].stored
  {
    if m < n {
      assert Step(states[n - 1], actions[n - 1], states[n]);
      StoredGrows(states, actions, m, n - 1);
    }
  }

  /** In particular while the year itself is still below 100000. */
  lemma {:induction false} FreshBelowLimit(states: seq<State>, actions: seq<Action>, n: nat)
    requires Run(states, actions) && n < |actions| && !actions[n].Lose?
    requires FewNumbers(states[n].stored, actions[n].year)
    ensures var a := actions[n];
      Number(a.year, Issue(states[n].counters, a.year, a.highest).1) !in states[n].stored
  {
    var year := actions[n].year;
    forall i | 0 <= i <= n
      ensures ReseedsBelow(states[i], actions[i], year)
    {
      StoredGrows(states, actions, i, n);
    }
    NumbersStayFresh(states, actions, n);
  }

  // When the counter is lost, exactly.

  /** Of this year the numbers 1 to n are stored and nothing else; other years are
      as they may be. */
  ghost predicate GapFree(stored: set<string>, year: nat, n: nat) {
    forall s :: s in stored && Prefix(year) <= s <==> exists k: nat :: 1 <= k <= n && s == Number(year, k)
  }

  /** How many digits the number is printed with. */
  function Width(n: nat): nat {
    |Pad(n, 5)|
  }

  lemma {:induction false} WidthIs(n: nat, w: nat, d: nat)
    requires 0 < w <= d && n < Pow10(d) && (d == w || n >= Pow10(d - 1))
    ensures |Pad(n, w)| == d
    decreases d - w
  {
    if w == d {
      PadWidth(n, w);
    } else {
      Pow10Grows(w, d - 1);
      FilledWidth(n, w);
      WidthIs(n, w + 1, d);
    }
  }

  lemma {:induction false} Pow10Grows(a: nat, b: nat)
    requires a <= b
    ensures Pow10(a) <= Pow10(b)
  {
    if a < b {
      Pow10Grows(a, b - 1);
    }
  }

  /** The numbers printed with d digits. */
  lemma {:induction false} WidthBounds(n: nat, w: nat)
    requires w > 0
    ensures var d := |Pad(n, w)|;
      n < Pow10(d) && (d == w || (d > w && n >= Pow10(d - 1)))
    decreases n - w
  {
    PadWidth(n, w);
    if n >= Pow10(w) {
      FilledWidth(n, w);
      Pow10Exceeds(w);
      WidthBounds(n, w + 1);
    }
  }

  lemma {:induction false} Pow10Exceeds(n: nat)
    ensures n < Pow10(n)
  {
    if n > 0 {
      Pow10Exceeds(n - 1);
    }
  }

  lemma {:induction false} ValBelow(s: string)
    requires AllDigits(s)
    ensures 0 <= Val(s) < Pow10(|s|)
  {
    if s != "" {
      ValBelow(s[..|s| - 1]);
    }
  }

  /** All nines come after every text with no more digits. */
  lemma {:induction false} NinesAreLast(s: string, nines: string)
    requires AllDigits(s) && AllDigits(nines) && |s| <= |nines| && Val(nines) == Pow10(|nines|) - 1
    ensures Leq(s, nines)
    decreases |nines|
  {
    ValBelow(s);
    if |s| == |nines| {
      TextOrderIsNumberOrder(s, nines);
    } else {
      var k := |nines| - 1;
      ValBelow(nines[..k]);
      NinesAreLast(s, nines[..k]);
      LeqPrefix(nines, k);
      LeqTransitive(s, nines[..k], nines);
    }
  }

  lemma {:induction false} LeqPrefix(s: string, k: nat)
    requires k <= |s|
    ensures Leq(s[..k], s)
  {
    if k > 0 {
      LeqPrefix(s[1..], k - 1);
      assert s[..k][1..] == s[1..][..k - 1];
    }
  }

  /** The greatest text among the numbers 1 to n: n itself, or all nines of one
      digit less where n does not start with them. */
  function Greatest(n: nat): nat {
    if n < 100000 || n + 10 >= Pow10(Width(n)) then n else Pow10(Width(n) - 1) - 1
  }

  lemma {:induction false} GreatestWidth(n: nat, d: nat)
    requires n >= 100000 && d == Width(n)
    ensures d > 5 && Pow10(d - 1) <= n < Pow10(d) && 100000 <= Pow10(d - 1)
    ensures Width(Pow10(d - 1) - 1) == d - 1
  {
    TenThousands();
    WidthBounds(n, 5);
    Pow10Grows(5, d - 1);
    Pow10Grows(d - 2, d - 1);
    WidthIs(Pow10(d - 1) - 1, 5, d - 1);
  }

  /** The last digit printed on its own. */
  lemma {:induction false} LastDigit(n: nat)
    requires n >= 100000
    ensures Pad(n, 5) == Pad(n / 10, 5) + [Digit(n % 10)]
  {
    TenThousands();
    FilledWidth(n / 10, 4);
  }

  /** A text of at most d digits that does not start with d - 1 nines comes before them. */
  lemma {:induction false} BeforeNines(k: nat, n: nat, d: nat)
    requires n >= 100000 && d == Width(n) && k <= n && k + 10 < Pow10(d)
    ensures Leq(Pad(k, 5), Pad(Pow10(d - 1) - 1, 5))
  {
    GreatestWidth(n, d);
    var nines := Pad(Pow10(d - 1) - 1, 5);
    ValPad(Pow10(d - 1) - 1, 5);
    if k < Pow10(d - 1) {
      WidthAtMost(k, d - 1);
      NinesAreLast(Pad(k, 5), nines);
    } else {
      LastDigit(k);
      WidthAtMost(k / 10, d - 1);
      ValPad(k / 10, 5);
      WidthIs(k, 5, d);
      NinesAreLast(Pad(k / 10, 5), nines);
      LeqByLast(Pad(k / 10, 5), [Digit(k % 10)], nines, "");
      assert nines + "" == nines;
    }
  }

  lemma {:induction false} WidthAtMost(n: nat, d: nat)
    requires d >= 5 && n < Pow10(d)
    ensures Width(n) <= d
  {
    WidthBounds(n, 5);
    if Width(n) > d {
      Pow10Grows(d, Width(n) - 1);
    }
  }

  /** A number that starts with d - 1 nines is the greatest text up to it. */
  lemma {:induction false} NinesThenDigit(k: nat, n: nat, d: nat)
    requires n >= 100000 && d == Width(n) && k <= n && n + 10 >= Pow10(d)
    ensures Leq(Pad(k, 5), Pad(n, 5))
  {
    GreatestWidth(n, d);
    if k >= Pow10(d - 1) {
      WidthIs(k, 5, d);
      ValPad(k, 5);
      ValPad(n, 5);
      TextOrderIsNumberOrder(Pad(k, 5), Pad(n, 5));
    } else {
      LastDigit(n);
      BeforeNines(k, n, d);
      LeqPrefix(Pad(n, 5), d - 1);
      LeqTransitive(Pad(k, 5), Pad(Pow10(d - 1) - 1, 5), Pad(n, 5));
    }
  }

  lemma {:induction false} GreatestDigits(k: nat, n: nat, d: nat, top: nat)
    requires k <= n && n >= 100000 && d == Width(n)
    requires top == if n + 10 >= Pow10(d) then n else Pow10(d - 1) - 1
    ensures Leq(Pad(k, 5), Pad(top, 5))
  {
    if n + 10 >= Pow10(d) {
      NinesThenDigit(k, n, d);
    } else {
      BeforeNines(k, n, d);
    }
  }

  lemma {:induction false} SamePrefixOrder(year: nat, k: nat, m: nat)
    ensures Leq(Number(year, k), Number(year, m)) <==> Leq(Pad(k, 5), Pad(m, 5))
  {
    LeqCommonStart(Prefix(year), Pad(k, 5), Pad(m, 5));
  }

  lemma {:induction false} GreatestLarge(k: nat, n: nat, d: nat, top: nat)
    requires k <= n && n >= 100000 && d == Width(n) && top == Greatest(n)
    ensures Leq(Pad(k, 5), Pad(top, 5))
  {
    GreatestDigits(k, n, d, top);
  }

  lemma {:induction false} GreatestText(year: nat, k: nat, n: nat, top: nat)
    requires k <= n && top == Greatest(n)
    ensures Leq(Number(year, k), Number(year, top))
  {
    if n < 100000 {
      TextOrder(year, k, n);
    } else {
      GreatestLarge(k, n, Width(n), top);
      SamePrefixOrder(year, k, top);
    }
  }

  lemma {:induction false} GreatestInRange(n: nat)
    ensures Greatest(n) <= n && (n >= 1 ==> Greatest(n) >= 1)
    ensures Greatest(n) == n <==> n < 100000 || n + 10 >= Pow10(Width(n))
  {
    if n >= 100000 {
      GreatestWidth(n, Width(n));
    }
  }

  /** What the query finds. */
  lemma {:induction false} HighestIs(stored: set<string>, year: nat, n: nat, h: Option<string>)
    requires GapFree(stored, year, n) && Highest(stored, year, h)
    ensures h == if n == 0 then None else Some(Number(year, Greatest(n)))
  {
    if n > 0 {
      GreatestInRange(n);
      var top := Number(year, Greatest(n));
      assert top in stored && Prefix(year) <= top;
      var k: nat :| 1 <= k <= n && h.value == Number(year, k);
      GreatestText(year, k, n, Greatest(n));
      LeqAntisymmetric(h.value, top);
    }
  }

  /** With the numbers 1 to n of a year stored and its counter lost, the next number
      is new exactly if n is below 100000 or starts with nothing but nines before
      its last digit. */
  lemma {:induction false} FreshAfterLoss(s: State, year: nat, n: nat, h: Option<string>)
    requires GapFree(s.stored, year, n) && year !in s.counters && Highest(s.stored, year, h)
    ensures Number(year, Issue(s.counters, year, h).1) !in s.stored <==> n < 100000 || n + 10 >= Pow10(Width(n))
  {
    HighestIs(s.stored, year, n, h);
    GreatestInRange(n);
    var next := Greatest(n) + 1;
    if n > 0 {
      ParseNumber(year, Greatest(n));
    }
    assert Issue(s.counters, year, h).1 == next by {
      assert n == 0 ==> Greatest(n) == 0;
    }
    assert Prefix(year) <= Number(year, next);
    if Number(year, next) in s.stored {
      var k: nat :| 1 <= k <= n && Number(year, next) == Number(year, k);
      NumberInjective(year, next, year, k);
    }
  }

  /** Gaps, as rolled-back filings leave them, do no harm: while the greatest stored
      number n is such a number, the next one is new. */
  lemma {:induction false} FreshWithGaps(s: State, year: nat, n: nat, h: Option<string>)
    requires forall t :: t in s.stored ==> IsNumber(t)
    requires Number(year, n) in s.stored && forall k: nat :: Number(year, k) in s.stored ==> k <= n
    requires n < 100000 || n + 10 >= Pow10(Width(n))
    requires year !in s.counters && Highest(s.stored, year, h)
    ensures h == Some(Number(year, n)) && Number(year, Issue(s.counters, year, h).1) !in s.stored
  {
    assert Prefix(year) <= Number(year, n);
    assert IsNumber(h.value);
    var y: nat, k: nat :| h.value == Number(y, k);
    SameYear(year, y, k);
    GreatestText(year, k, n, Greatest(n));
    LeqAntisymmetric(h.value, Number(year, n));
    ParseNumber(year, n);
  }

  /** So within six digits the limit is 100000, up to 999990. */
  lemma {:induction false} LostAtSixDigits(s: State, year: nat, n: nat, h: Option<string>)
    requires GapFree(s.stored, year, n) && year !in s.counters && Highest(s.stored, year, h) && n < 999990
    ensures Number(year, Issue(s.counters, year, h).1) !in s.stored <==> n < 100000
  {
    FreshAfterLoss(s, year, n, h);
    if n >= 100000 {
      SixDigits(n);
    }
  }

  lemma {:induction false} SixDigits(n: nat)
    requires 100000 <= n < 1000000
    ensures Width(n) == 6 && Pow10(6) == 1000000
  {
    TenThousands();
    assert Pow10(6) == 10 * Pow10(5);
    WidthIs(n, 5, 6);
  }

  /** From 100000 to 999989 the greatest text is 99999, and the number given out,
      100000, is taken. */
  lemma {:induction false} CollidesAfterLoss(s: State, year: nat, n: nat, h: Option<string>)
    requires 100000 <= n < 999990 && GapFree(s.stored, year, n) && year !in s.counters
    requires Highest(s.stored, year, h)
    ensures h == Some(Number(year, 99999)) && Issue(s.counters, year, h).1 == 100000
    ensures Number(year, 100000) in s.stored
  {
    HighestIs(s.stored, year, n, h);
    SixDigits(n);
    TenThousands();
    ParseNumber(year, 99999);
    assert Prefix(year) <= Number(year, 100000);
  }

  // A run that gets there.

  function HighestOf(year: nat, n: nat): Option<string> {
    if n == 0 then None else Some(Number(year, Greatest(n)))
  }

  lemma {:induction false} HighestOfGapFree(stored: set<string>, year: nat, n: nat)
    requires GapFree(stored, year, n)
    ensures Highest(stored, year, HighestOf(year, n))
  {
    if n > 0 {
      GreatestInRange(n);
      assert Number(year, Greatest(n)) in stored && Prefix(year) <= Number(year, Greatest(n));
      forall s | s in stored && Prefix(year) <= s
        ensures Leq(s, Number(year, Greatest(n)))
      {
        var k: nat :| 1 <= k <= n && s == Number(year, k);
        GreatestText(year, k, n, Greatest(n));
      }
    }
  }

  /** What n filings of one year leave. */
  ghost predicate AfterFilings(s: State, year: nat, n: nat) {
    GapFree(s.stored, year, n) && s.counters == if n == 0 then map[] else map[year := n]
  }

  /** One filing more, with the counter alive or nothing stored yet. */
  lemma {:induction false} FileOneMore(s: State, year: nat, n: nat) returns (s': State)
    requires AfterFilings(s, year, n)
    ensures Step(s, Action.File(year, HighestOf(year, n)), s') && AfterFilings(s', year, n + 1)
  {
    HighestOfGapFree(s.stored, year, n);
    assert Issue(s.counters, year, HighestOf(year, n)) == (s.counters[year := n + 1], n + 1);
    s' := State(s.stored + {Number(year, n + 1)}, s.counters[year := n + 1]);
    assert Prefix(year) <= Number(year, n + 1);
    forall t
      ensures t in s'.stored && Prefix(year) <= t <==> exists k: nat :: 1 <= k <= n + 1 && t == Number(year, k)
    {
      if t in s.stored && Prefix(year) <= t {
        var k: nat :| 1 <= k <= n && t == Number(year, k);
      }
      if k: nat :| 1 <= k <= n + 1 && t == Number(year, k) {
        assert k <= n ==> t in s.stored && Prefix(year) <= t;
      }
    }
  }

  lemma {:induction false} RunOneMore(states: seq<State>, actions: seq<Action>, a: Action, s': State)
    requires Run(states, actions) && Step(states[|actions|], a, s')
    ensures Run(states + [s'], actions + [a])
  {
    forall i | 0 <= i < |actions| + 1
      ensures Step((states + [s'])[i], (actions + [a])[i], (states + [s'])[i + 1])
    {
      if i < |actions| {
        assert Step(states[i], actions[i], states[i + 1]);
      }
    }
  }

  lemma {:induction false} Filings(year: nat, n: nat) returns (states: seq<State>, actions: seq<Action>)
    ensures Run(states, actions) && |actions| == n && AfterFilings(states[n], year, n)
  {
    if n == 0 {
      states, actions := [State({}, map[])], [];
    } else {
      states, actions := Filings(year, n - 1);
      var s' := FileOneMore(states[n - 1], year, n - 1);
      RunOneMore(states, actions, Action.File(year, HighestOf(year, n - 1)), s');
      states, actions := states + [s'], actions + [Action.File(year, HighestOf(year, n - 1))];
    }
  }

  /** A run of n filings and a lost counter, after which the next filing is given a
      number that is stored. */
  lemma {:induction false} CollisionIsReached(year: nat, n: nat) returns (states: seq<State>, actions: seq<Action>)
    requires 100000 <= n < 999990
    ensures Run(states, actions) && |actions| == n + 2 && actions[n] == Lose(year)
    ensures actions[n + 1] == Action.File(year, HighestOf(year, n))
    ensures Number(year, Issue(states[n + 1].counters, year, HighestOf(year, n)).1) in states[n + 1].stored
  {
    states, actions := Filings(year, n);
    var lost := State(states[n].stored, states[n].counters - {year});
    RunOneMore(states, actions, Lose(year), lost);
    states, actions := states + [lost], actions + [Lose(year)];
    HighestOfGapFree(lost.stored, year, n);
    CollidesAfterLoss(lost, year, n, HighestOf(year, n));
    var issued := Issue(lost.counters, year, HighestOf(year, n));
    var last := State(lost.stored + {Number(year, issued.1)}, issued.0);
    RunOneMore(states, actions, Action.File(year, HighestOf(year, n)), last);
    states, actions := states + [last], actions + [Action.File(year, HighestOf(year, n))];
  }
}
