/** The outbox retry queue (backend/app/services/outbox_service.py): rows are sent
    in batches by id, failures are retried with exponential backoff, and a row
    that keeps failing is given up. Whether a send works is up to the world. */
module Outbox {
  import opened Wrappers

  const MINUTE: int := 60_000_000
  const BATCH: nat := 50
  const ERROR_LENGTH: nat := 2000

  datatype Status = Pending | Sent | Failed

  datatype Row = Row(status: Status, attempts: nat, nextAttemptAt: int, sentAt: Option<int>, lastError: Option<string>)

  /** How one send went: the exception's text if it failed, and when it started. */
  datatype Send = Send(at: int, error: Option<string>)

  function Pow2(n: nat): (p: int)
    ensures p >= 1
  {
    if n == 0 then 1 else 2 * Pow2(n - 1)
  }

  function Fresh(now: int): Row {
    Row(Pending, 0, now, None, None)
  }

  function Truncated(s: string): string {
    if |s| <= ERROR_LENGTH then s else s[..ERROR_LENGTH]
  }

  /** `_deliver_one`. `limit` is the configured number of attempts. */
  function Deliver(row: Row, send: Send, limit: int): Row {
    var tried := row.(attempts := row.attempts + 1);
    if send.error.None? then tried.(status := Sent, sentAt := Some(send.at), lastError := None)
    else
      var noted := tried.(lastError := Some(Truncated(send.error.value)));
      if noted.attempts >= limit then noted.(status := Failed)
      else noted.(nextAttemptAt := send.at + Pow2(row.attempts) * MINUTE)
  }

  /** A row, updated in place. */
  class Message {
    var status: Status
    var attempts: nat
    var nextAttemptAt: int
    var sentAt: Option<int>
    var lastError: Option<string>

    ghost function Value(): Row
      reads this
    {
      Row(status, attempts, nextAttemptAt, sentAt, lastError)
    }

    constructor (now: int)
      ensures Value() == Fresh(now)
    {
      status, attempts, nextAttemptAt, sentAt, lastError := Pending, 0, now, None, None;
    }

    method DeliverOne(send: Send, limit: int)
      modifies this
      ensures Value() == Deliver(old(Value()), send, limit)
    {
      attempts := attempts + 1;
      if send.error.Some? {
        lastError := Some(Truncated(send.error.value));
        if attempts >= limit {
          status := Failed;
        } else {
          nextAttemptAt := send.at + Pow2(attempts - 1) * MINUTE;
        }
        return;
      }
      status := Sent;
      sentAt := Some(send.at);
      lastError := None;
    }
  }

  type Rows = map<nat, Row>

  /** The rows after the batch's sends, in order. */
  function DeliverAll(rows: Rows, batch: seq<nat>, sends: seq<Send>, limit: int): (r: Rows)
    requires |sends| == |batch| && forall k :: 0 <= k < |batch| ==> batch[k] in rows
    ensures r.Keys == rows.Keys
  {
    if batch == [] then rows
    else
      var n := |batch| - 1;
      var done := DeliverAll(rows, batch[..n], sends[..n], limit);
      done[batch[n] := Deliver(done[batch[n]], sends[n], limit)]
  }

  ghost predicate Distinct(batch: seq<nat>) {
    forall j, k :: 0 <= j < k < |batch| ==> batch[j] != batch[k]
  }

  /** Each row of the batch is sent once, and no other row is touched. */
  lemma {:induction false} DeliverAllAt(rows: Rows, batch: seq<nat>, sends: seq<Send>, limit: int, i: nat)
    requires |sends| == |batch| && Distinct(batch) && i in rows
    requires forall k :: 0 <= k < |batch| ==> batch[k] in rows
    ensures i !in batch ==> DeliverAll(rows, batch, sends, limit)[i] == rows[i]
    ensures forall k :: 0 <= k < |batch| && batch[k] == i ==>
      DeliverAll(rows, batch, sends, limit)[i] == Deliver(rows[i], sends[k], limit)
  {
    if batch != [] {
      var n := |batch| - 1;
      assert batch == batch[..n] + [batch[n]];
      DeliverAllAt(rows, batch[..n], sends[..n], limit, i);
      if batch[n] == i {
        assert i !in batch[..n];
      }
    }
  }

  ghost function Values(table: map<nat, Message>): Rows
    reads table.Values
  {
    map i | i in table :: table[i].Value()
  }

  ghost predicate NoAliases(table: map<nat, Message>) {
    forall i, j :: i in table && j in table && i != j ==> table[i] != table[j]
  }

  method DeliverRow(table: map<nat, Message>, i: nat, send: Send, limit: int)
    requires NoAliases(table) && i in table
    modifies table[i]
    ensures Values(table) == old(Values(table))[i := Deliver(old(Values(table))[i], send, limit)]
  {
    table[i].DeliverOne(send, limit);
    forall j | j in table && j != i
      ensures table[j].Value() == old(table[j].Value())
    {
      assert table[j] != table[i];
    }
  }

  /** `deliver_pending`, after its query. */
  method DeliverPending(table: map<nat, Message>, batch: seq<nat>, sends: seq<Send>, limit: int) returns (count: nat)
    requires NoAliases(table) && |sends| == |batch|
    requires forall k :: 0 <= k < |batch| ==> batch[k] in table
    modifies table.Values
    ensures Values(table) == DeliverAll(old(Values(table)), batch, sends, limit) && count == |batch|
  {
    ghost var rows := Values(table);
    for k := 0 to |batch|
      invariant Values(table) == DeliverAll(rows, batch[..k], sends[..k], limit)
    {
      assert batch[..k + 1][..k] == batch[..k] && sends[..k + 1][..k] == sends[..k];
      DeliverRow(table, batch[k], sends[k], limit);
    }
    assert batch[..|batch|] == batch && sends[..|sends|] == sends;
    return |batch|;
  }

  // The queue over time.

  datatype State = State(now: int, rows: Rows)

  datatype Action =
    | Enqueue(id: nat)
    | Tick(at: int, batch: seq<nat>, sends: seq<Send>)

  predicate Due(row: Row, now: int) {
    row.status.Pending? && row.nextAttemptAt <= now
  }

  /** The tick's query: the due rows with the lowest ids, at most `BATCH` of them. */
  ghost predicate IsBatch(rows: Rows, batch: seq<nat>, now: int) {
    && |batch| <= BATCH && Distinct(batch)
    && (forall k :: 0 <= k < |batch| ==> batch[k] in rows && Due(rows[batch[k]], now))
    && (forall i :: i in rows && Due(rows[i], now) && i !in batch ==>
          |batch| == BATCH && forall k :: 0 <= k < |batch| ==> batch[k] < i)
  }

  /** New rows get higher ids than any before; a tick reads the clock for its query
      and again for each send. */
  ghost predicate Step(s: State, a: Action, s': State, limit: int) {
    && s.now <= s'.now
    && match a
       case Enqueue(id) => (forall i :: i in s.rows ==> i < id) && s'.rows == s.rows[id := Fresh(s'.now)]
       case Tick(at, batch, sends) =>
         && s.now <= at <= s'.now && |sends| == |batch|
         && (forall k :: 0 <= k < |sends| ==> at <= sends[k].at <= s'.now)
         && IsBatch(s.rows, batch, at)
         && s'.rows == DeliverAll(s.rows, batch, sends, limit)
  }

  ghost predicate Run(states: seq<State>, actions: seq<Action>, limit: int) {
    && |states| == |actions| + 1
    && forall i :: 0 <= i < |actions| ==> Step(states[i], actions[i], states[i + 1], limit)
  }

  // Attempts and backoff.

  /** The sends of row `id` among the actions, with how each went. */
  function Tries(actions: seq<Action>, id: nat): seq<Send> {
    if actions == [] then []
    else
      var last := actions[|actions| - 1];
      Tries(actions[..|actions| - 1], id) + if last.Tick? then TriesIn(last.batch, last.sends, id) else []
  }

  function TriesIn(batch: seq<nat>, sends: seq<Send>, id: nat): seq<Send> {
    if batch == [] || sends == [] then []
    else (if batch[0] == id then [sends[0]] else []) + TriesIn(batch[1..], sends[1..], id)
  }

  lemma {:induction false} TriesInOnce(batch: seq<nat>, sends: seq<Send>, id: nat)
    requires |sends| == |batch| && Distinct(batch)
    ensures id !in batch ==> TriesIn(batch, sends, id) == []
    ensures forall k :: 0 <= k < |batch| && batch[k] == id ==> TriesIn(batch, sends, id) == [sends[k]]
  {
    if batch != [] {
      assert batch == [batch[0]] + batch[1..];
      TriesInOnce(batch[1..], sends[1..], id);
      forall k | 0 <= k < |batch| && batch[k] == id
        ensures TriesIn(batch, sends, id) == [sends[k]]
      {
        if k > 0 {
          assert batch[1..][k - 1] == id && sends[1..][k - 1] == sends[k];
        } else {
          assert id !in batch[1..];
        }
      }
    }
  }

  predicate AllFailed(tries: seq<Send>) {
    forall i :: 0 <= i < |tries| ==> tries[i].error.Some?
  }

  /** What is kept of an error: at most its first 2000 characters. */
  predicate Notes(noted: string, error: string) {
    if |error| <= 2000 then noted == error else noted == error[..2000]
  }

  /** What became of a row: sent by the first send that worked, given up after enough
      that failed, pending until then. */
  predicate Became(row: Row, tries: seq<Send>, limit: int) {
    && (row.status == Sent <==> tries != [] && tries[|tries| - 1].error == None)
    && (row.status == Failed <==> AllFailed(tries) && |tries| >= Max(1, limit))
    && (row.status == Pending <==> AllFailed(tries) && |tries| < Max(1, limit))
    && (row.status == Sent ==> AllFailed(tries[..|tries| - 1]))
  }

  /** What it says about its last send. */
  predicate Says(row: Row, tries: seq<Send>)
    requires row.status == Sent ==> tries != []
  {
    && row.sentAt == (if row.status == Sent then Some(tries[|tries| - 1].at) else None)
    && (row.lastError == None <==> tries == [] || tries[|tries| - 1].error == None)
    && (row.lastError.Some? ==> Notes(row.lastError.value, tries[|tries| - 1].error.value))
  }

  predicate Stands(row: Row, tries: seq<Send>, limit: int) {
    Became(row, tries, limit) && Says(row, tries)
  }

  /** A row against its sends: one attempt counted for each, each at least the backoff
      after the one before, the next one not before its backoff either, no more
      attempts than the limit, or one, and the status they lead to. */
  ghost predicate MatchesTries(row: Row, tries: seq<Send>, limit: int) {
    && row.attempts == |tries| <= Max(1, limit)
    && (row.status.Pending? && tries != [] ==>
          row.nextAttemptAt == tries[|tries| - 1].at + Pow2(|tries| - 1) * MINUTE)
    && SpacedOut(tries) && Stands(row, tries, limit)
  }

  ghost predicate SpacedOut(tries: seq<Send>) {
    forall i :: 0 < i < |tries| ==> tries[i - 1].at + Pow2(i - 1) * MINUTE <= tries[i].at
  }

  lemma {:induction false} DeliverMatches(row: Row, tries: seq<Send>, send: Send, limit: int)
    requires MatchesTries(row, tries, limit) && Due(row, send.at)
    ensures MatchesTries(Deliver(row, send, limit), tries + [send], limit)
  {
    DeliverStands(row, tries, send, limit);
    var now := tries + [send];
    forall i | 0 < i < |now|
      ensures now[i - 1].at + Pow2(i - 1) * MINUTE <= now[i].at
    {
      if i < |tries| {
        assert now[i] == tries[i] && now[i - 1] == tries[i - 1];
      }
    }
  }

  lemma {:induction false} OneMoreFailed(tries: seq<Send>, send: Send)
    ensures var now := tries + [send];
      && now != [] && now[|now| - 1] == send && now[..|now| - 1] == tries
      && (AllFailed(now) <==> AllFailed(tries) && send.error.Some?)
  {
    assert (tries + [send])[|tries|] == send;
    forall i | 0 <= i < |tries|
      ensures (tries + [send])[i] == tries[i]
    {
    }
  }

  lemma {:induction false} DeliverBecomes(row: Row, tries: seq<Send>, send: Send, limit: int, now: seq<Send>)
    requires row.attempts == |tries| && row.status == Pending && AllFailed(tries)
    requires now != [] && now[|now| - 1] == send && now[..|now| - 1] == tries && |now| == |tries| + 1
    requires AllFailed(now) <==> send.error.Some?
    ensures Became(Deliver(row, send, limit), now, limit)
  {
  }

  lemma {:induction false} DeliverSays(row: Row, send: Send, limit: int, now: seq<Send>)
    requires row.status == Pending && row.sentAt == None && now != [] && now[|now| - 1] == send
    ensures Says(Deliver(row, send, limit), now)
  {
  }

  lemma {:induction false} DeliverStands(row: Row, tries: seq<Send>, send: Send, limit: int)
    requires row.attempts == |tries| && row.status == Pending && Stands(row, tries, limit)
    ensures Stands(Deliver(row, send, limit), tries + [send], limit)
  {
    OneMoreFailed(tries, send);
    DeliverBecomes(row, tries, send, limit, tries + [send]);
    DeliverSays(row, send, limit, tries + [send]);
  }

  /** What every run keeps: stored rows match their tries, and rows not stored yet
      have none. */
  ghost predicate Logged(s: State, actions: seq<Action>, limit: int) {
    forall i: nat :: RowLogged(s.rows, i, Tries(actions, i), limit)
  }

  lemma {:induction false} TriesOneMore(before: seq<Action>, a: Action, id: nat)
    ensures Tries(before + [a], id) == Tries(before, id) + if a.Tick? then TriesIn(a.batch, a.sends, id) else []
  {
    assert (before + [a])[..|before|] == before;
  }

  lemma {:induction false} TickLogged(s: State, a: Action, s': State, tries: seq<Send>, limit: int, i: nat)
    requires a.Tick? && Step(s, a, s', limit) && i in s.rows && MatchesTries(s.rows[i], tries, limit)
    ensures i in s'.rows && MatchesTries(s'.rows[i], tries + TriesIn(a.batch, a.sends, i), limit)
  {
    TriesInOnce(a.batch, a.sends, i);
    DeliverAllAt(s.rows, a.batch, a.sends, limit, i);
    if k :| 0 <= k < |a.batch| && a.batch[k] == i {
      DeliverMatches(s.rows[i], tries, a.sends[k], limit);
    } else {
      assert tries + [] == tries;
    }
  }

  ghost predicate RowLogged(rows: Rows, i: nat, tries: seq<Send>, limit: int) {
    if i in rows then MatchesTries(rows[i], tries, limit) else tries == []
  }

  lemma {:induction false} EnqueueLogged(s: State, a: Action, s': State, tries: seq<Send>, limit: int, i: nat)
    requires a.Enqueue? && Step(s, a, s', limit) && RowLogged(s.rows, i, tries, limit)
    ensures RowLogged(s'.rows, i, tries, limit)
  {
  }

  lemma {:induction false} StepRowLogged(s: State, a: Action, s': State, before: seq<Action>, limit: int, i: nat)
    requires Step(s, a, s', limit) && RowLogged(s.rows, i, Tries(before, i), limit)
    ensures RowLogged(s'.rows, i, Tries(before + [a], i), limit)
  {
    TriesOneMore(before, a, i);
    if a.Enqueue? {
      EnqueueLogged(s, a, s', Tries(before, i), limit, i);
      assert Tries(before, i) + [] == Tries(before, i);
    } else if i in s.rows {
      TickLogged(s, a, s', Tries(before, i), limit, i);
    } else {
      TriesInOnce(a.batch, a.sends, i);
    }
  }

  lemma {:induction false} StepLogged(s: State, a: Action, s': State, before: seq<Action>, limit: int)
    requires Step(s, a, s', limit) && Logged(s, before, limit)
    ensures Logged(s', before + [a], limit)
  {
    forall i: nat
      ensures RowLogged(s'.rows, i, Tries(before + [a], i), limit)
    {
      assert RowLogged(s.rows, i, Tries(before, i), limit);
      StepRowLogged(s, a, s', before, limit, i);
    }
  }

  lemma {:induction false} RunLogged(states: seq<State>, actions: seq<Action>, limit: int, n: nat)
    requires Run(states, actions, limit) && states[0].rows == map[] && n <= |actions|
    ensures Logged(states[n], actions[..n], limit)
  {
    if n > 0 {
      RunLogged(states, actions, limit, n - 1);
      StepLogged(states[n - 1], actions[n - 1], states[n], actions[..n - 1], limit);
      assert actions[..n - 1] + [actions[n - 1]] == actions[..n];
    } else {
      assert actions[..0] == [];
    }
  }

  lemma {:induction false} BackoffSum(tries: seq<Send>, n: nat)
    requires SpacedOut(tries) && 1 <= n <= |tries|
    ensures tries[n - 1].at - tries[0].at >= (Pow2(n - 1) - 1) * MINUTE
  {
    if n > 1 {
      BackoffSum(tries, n - 1);
    }
  }

  /** Over every run from an empty outbox, no row is tried more often than the
      limit allows, and its n-th try comes at least 2^(n-1) - 1 minutes after its
      first. */
  lemma {:induction false} RetriesBackOff(states: seq<State>, actions: seq<Action>, limit: int, id: nat, n: nat)
    requires Run(states, actions, limit) && states[0].rows == map[]
    ensures |Tries(actions, id)| <= Max(1, limit)
    ensures 1 <= n <= |Tries(actions, id)| ==>
      Tries(actions, id)[n - 1].at - Tries(actions, id)[0].at >= (Pow2(n - 1) - 1) * MINUTE
  {
    RunLogged(states, actions, limit, |actions|);
    assert actions[..|actions|] == actions;
    if 1 <= n <= |Tries(actions, id)| {
      BackoffSum(Tries(actions, id), n);
    }
  }

  /** The backoff in minutes. */
  lemma {:induction false} PowersOfTwo(n: nat)
    ensures Pow2(0) == 1 && Pow2(n + 1) == Pow2(n) + Pow2(n) && MINUTE == 60_000_000
  {
  }

  /** A new row waits for nothing. */
  lemma {:induction false} NewRowsAreDue(now: int, later: int)
    requires now <= later
    ensures Due(Fresh(now), later) && Fresh(now).attempts == 0
  {
  }

  /** Over every run from an empty outbox: a stored row is sent exactly if its last send
      worked, given up exactly if all its sends failed and were as many as the limit
      (or one), and pending exactly if they failed and were fewer; and its columns say
      when it was sent or what went wrong last. */
  lemma {:induction false} OutcomesOverRuns(states: seq<State>, actions: seq<Action>, limit: int, n: nat, id: nat)
    requires Run(states, actions, limit) && states[0].rows == map[] && n <= |actions| && id in states[n].rows
    ensures var row, tries := states[n].rows[id], Tries(actions[..n], id);
      && row.attempts == |tries|
      && Became(row, tries, limit) && Says(row, tries)
  {
    assert RowLogged(states[n].rows, id, Tries(actions[..n], id), limit) by {
      RunLogged(states, actions, limit, n);
    }
  }

  /** Sent and failed rows never change again. */
  lemma {:induction false} SentAndFailedAreFinal(
      states: seq<State>, actions: seq<Action>, limit: int, id: nat, m: nat, n: nat)
    requires Run(states, actions, limit) && m <= n < |states|
    requires id in states[m].rows && !states[m].rows[id].status.Pending?
    ensures id in states[n].rows && states[n].rows[id] == states[m].rows[id]
  {
    if m < n {
      SentAndFailedAreFinal(states, actions, limit, id, m, n - 1);
      var a := actions[n - 1];
      assert Step(states[n - 1], a, states[n], limit);
      if a.Tick? {
        DeliverAllAt(states[n - 1].rows, a.batch, a.sends, limit, id);
      }
    }
  }

  // Fairness.

  function Left(row: Row, limit: int): int {
    if row.status.Pending? then Max(1, limit) - row.attempts else 0
  }

  /** Attempts the pending rows with ids below `id` have left. */
  function Backlog(rows: Rows, id: nat, limit: int): int {
    if id == 0 then 0
    else Backlog(rows, id - 1, limit) + if id - 1 in rows then Left(rows[id - 1], limit) else 0
  }

  function CountBelow(batch: seq<nat>, id: nat): nat {
    if id == 0 then 0 else CountBelow(batch, id - 1) + if id - 1 in batch then 1 else 0
  }

  lemma {:induction false} CountBelowWithout(batch: seq<nat>, id: nat)
    requires batch != [] && Distinct(batch)
    ensures CountBelow(batch, id)
         == CountBelow(batch[..|batch| - 1], id) + if batch[|batch| - 1] < id then 1 else 0
  {
    if id > 0 {
      CountBelowWithout(batch, id - 1);
      assert batch == batch[..|batch| - 1] + [batch[|batch| - 1]];
    }
  }

  lemma {:induction false} CountBelowAll(batch: seq<nat>, id: nat)
    requires Distinct(batch) && forall k :: 0 <= k < |batch| ==> batch[k] < id
    ensures CountBelow(batch, id) == |batch|
  {
    if batch == [] {
      NoneBelow(id);
    } else {
      CountBelowWithout(batch, id);
      CountBelowAll(batch[..|batch| - 1], id);
    }
  }

  lemma {:induction false} NoneBelow(id: nat)
    ensures CountBelow([], id) == 0
  {
    if id > 0 {
      NoneBelow(id - 1);
    }
  }

  /** Every send below `id` uses up at least one attempt of the backlog. */
  lemma {:induction false} TickShrinksBacklog(s: State, a: Action, s': State, limit: int, id: nat)
    requires a.Tick? && Step(s, a, s', limit)
    requires AttemptsLeft(s.rows, limit)
    ensures Backlog(s'.rows, id, limit) + CountBelow(a.batch, id) <= Backlog(s.rows, id, limit)
  {
    if id > 0 {
      TickShrinksBacklog(s, a, s', limit, id - 1);
      if id - 1 in s.rows {
        DeliverAllAt(s.rows, a.batch, a.sends, limit, id - 1);
        if id - 1 in a.batch {
          var k :| 0 <= k < |a.batch| && a.batch[k] == id - 1;
          assert s'.rows[id - 1] == Deliver(s.rows[id - 1], a.sends[k], limit);
        }
      }
    }
  }

  lemma {:induction false} EnqueueKeepsBacklog(s: State, a: Action, s': State, limit: int, id: nat)
    requires a.Enqueue? && Step(s, a, s', limit) && id <= a.id
    ensures Backlog(s'.rows, id, limit) == Backlog(s.rows, id, limit)
  {
    if id > 0 {
      EnqueueKeepsBacklog(s, a, s', limit, id - 1);
    }
  }

  function CountTicks(actions: seq<Action>): nat {
    if actions == [] then 0
    else CountTicks(actions[..|actions| - 1]) + if actions[|actions| - 1].Tick? then 1 else 0
  }

  lemma {:induction false} RunLeavesAttempts(states: seq<State>, actions: seq<Action>, limit: int, n: nat)
    requires Run(states, actions, limit) && states[0].rows == map[] && n <= |actions|
    ensures AttemptsLeft(states[n].rows, limit)
  {
    RunLogged(states, actions, limit, n);
    forall i | i in states[n].rows && states[n].rows[i].status.Pending?
      ensures states[n].rows[i].attempts < Max(1, limit)
    {
      assert RowLogged(states[n].rows, i, Tries(actions[..n], i), limit);
    }
  }

  lemma {:induction false} TicksOneMore(actions: seq<Action>, start: nat, n: nat)
    requires start < n <= |actions|
    ensures CountTicks(actions[start..n]) == CountTicks(actions[start..n - 1]) + if actions[n - 1].Tick? then 1 else 0
  {
    assert actions[start..n][..n - 1 - start] == actions[start..n - 1];
  }

  /** Until a due row is tried it stays due, and every tick takes a full batch of
      attempts off the backlog before it. */
  lemma {:induction false} BacklogWorkedOff(
      states: seq<State>, actions: seq<Action>, limit: int, start: nat, n: nat, id: nat)
    requires Run(states, actions, limit) && states[0].rows == map[] && start <= n <= |actions|
    requires id in states[start].rows && Due(states[start].rows[id], states[start].now)
    requires forall i :: start <= i < n && actions[i].Tick? ==> id !in actions[i].batch
    ensures id in states[n].rows && states[n].rows[id] == states[start].rows[id]
    ensures states[start].now <= states[n].now
    ensures Backlog(states[n].rows, id, limit) + BATCH * CountTicks(actions[start..n])
         <= Backlog(states[start].rows, id, limit)
  {
    if start < n {
      BacklogWorkedOff(states, actions, limit, start, n - 1, id);
      TicksOneMore(actions, start, n);
      RunLeavesAttempts(states, actions, limit, n - 1);
      BacklogStep(states[n - 1], actions[n - 1], states[n], limit, id);
    }
  }

  /** Pending rows have attempts left. */
  ghost predicate AttemptsLeft(rows: Rows, limit: int) {
    forall i :: i in rows && rows[i].status.Pending? ==> rows[i].attempts < Max(1, limit)
  }

  lemma {:induction false} BacklogStep(s: State, a: Action, s': State, limit: int, id: nat)
    requires Step(s, a, s', limit) && id in s.rows && Due(s.rows[id], s.now)
    requires a.Tick? ==> id !in a.batch
    requires AttemptsLeft(s.rows, limit)
    ensures id in s'.rows && s'.rows[id] == s.rows[id]
    ensures Backlog(s'.rows, id, limit) + (if a.Tick? then BATCH else 0) <= Backlog(s.rows, id, limit)
  {
    if a.Tick? {
      DeliverAllAt(s.rows, a.batch, a.sends, limit, id);
      CountBelowAll(a.batch, id);
      TickShrinksBacklog(s, a, s', limit, id);
    } else {
      EnqueueKeepsBacklog(s, a, s', limit, id);
    }
  }

  lemma {:induction false} BacklogNotNegative(rows: Rows, id: nat, limit: int)
    requires AttemptsLeft(rows, limit)
    ensures Backlog(rows, id, limit) >= 0
  {
    if id > 0 {
      BacklogNotNegative(rows, id - 1, limit);
    }
  }

  /** A due row is tried within ceil((1 + backlog) / 50) ticks, whatever is enqueued
      meanwhile. */
  lemma {:induction false} NoRowStarves(
      states: seq<State>, actions: seq<Action>, limit: int, start: nat, n: nat, id: nat)
    requires Run(states, actions, limit) && states[0].rows == map[] && start <= n <= |actions|
    requires id in states[start].rows && Due(states[start].rows[id], states[start].now)
    requires var backlog := Backlog(states[start].rows, id, limit);
      (1 + backlog + 50 - 1) / 50 <= CountTicks(actions[start..n])
    ensures exists i :: start <= i < n && actions[i].Tick? && id in actions[i].batch
  {
    if forall i :: start <= i < n && actions[i].Tick? ==> id !in actions[i].batch {
      BacklogWorkedOff(states, actions, limit, start, n, id);
      RunLeavesAttempts(states, actions, limit, n);
      BacklogNotNegative(states[n].rows, id, limit);
      assert false;
    }
  }
}
