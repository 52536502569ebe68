/** The sweep never starves a breach: however filings, pauses, resumes, answers and
    catalogue changes are interleaved, an overdue request is marked after as many
    sweeps as it takes to work off the deadlines that are no later than its own. */
module SweepFairness {
  import opened Wrappers
  import opened WorkingTime
  import opened Requests
  import opened SlaLedger
  import opened RequestLaws
  import opened Office

  /** Open, unbreached requests, returned ones included, due no later than `due`. */
  ghost function Ahead(rows: map<int, Req>, due: int): set<int> {
    set i | i in rows && InQueue(rows[i], due)
  }

  /** In the queue ahead of `due`. */
  predicate InQueue(r: Req, due: int) {
    r.status.Open() && r.breachedAt.None? && r.deadline <= due
  }

  lemma {:induction false} CallAddsNothing(cal: Calendar, r: Req, e: Event, now: int, due: int)
    requires Ok(cal, r) && Last(r).at <= now && due <= now
    ensures InQueue(Next(cal, r, e, now), due) ==> InQueue(r, due)
  {
    NewDeadlinesAreAhead(cal, r, e, now);
    if r.status.Closed() {
      ClosedIsFinal(cal, r, e, now);
    }
    if r.breachedAt.Some? {
      BreachIsFinal(cal, r, e, now);
    }
  }

  /** Nothing but a sweep touches the queue ahead of a passed deadline, except to
      shorten it: every deadline computed from now on lies after now. */
  lemma {:induction false} QueueNeverGrows(cal: Calendar, s: State, a: Action, s': State, due: int)
    requires Sound(cal, s) && Step(cal, s, a, s') && due <= s.now
    ensures Ahead(s'.rows, due) <= Ahead(s.rows, due)
  {
    match a
    case FileNew(_, _, _, _, _, _) => FilingSound(cal, s, a, s'.now);
    case OnRequest(id, e) =>
      CallAddsNothing(cal, s.rows[id], e, s'.now, due);
    case OnCatalogue(_, _) =>
    case RunSweep(batch) =>
      forall i | i in Ahead(s'.rows, due)
        ensures i in Ahead(s.rows, due)
      {
        assert s'.rows[i].deadline == s.rows[i].deadline;
      }
  }

  /** The members of a batch, as a set of as many. */
  lemma {:induction false} BatchAsSet(batch: seq<int>)
    requires forall j, k :: 0 <= j < k < |batch| ==> batch[j] != batch[k]
    ensures |(set i | i in batch)| == |batch|
  {
    if batch != [] {
      var init, last := batch[..|batch| - 1], batch[|batch| - 1];
      BatchAsSet(init);
      assert (set i | i in batch) == (set i | i in init) + {last} by {
        assert batch == init + [last];
      }
      assert last !in init;
    }
  }

  /** A sweep either marks a running overdue request or takes a full batch off the
      queue ahead of it. */
  lemma {:induction false} SweepMarksOrShortens(cal: Calendar, s: State, batch: seq<int>, s': State, id: int)
    requires Step(cal, s, RunSweep(batch), s')
    requires id in s.rows && s.rows[id].status.SlaRunning() && s.rows[id].breachedAt.None?
    requires s.rows[id].deadline < s'.now
    ensures s'.rows[id].breachedAt.Some? ||
            (&& s'.rows[id] == s.rows[id] && id in Ahead(s'.rows, s.rows[id].deadline)
             && |Ahead(s'.rows, s.rows[id].deadline)| + BATCH <= |Ahead(s.rows, s.rows[id].deadline)|)
  {
    if id !in batch {
      var due := s.rows[id].deadline;
      var taken := set i | i in batch;
      BatchAsSet(batch);
      assert taken <= Ahead(s.rows, due);
      forall i | i in Ahead(s'.rows, due)
        ensures i in Ahead(s.rows, due) - taken
      {
        assert s'.rows[i] == if i in batch then Sweep(s.rows[i], s'.now) else s.rows[i];
      }
      SubsetSize(Ahead(s'.rows, due), Ahead(s.rows, due) - taken);
      assert id in Ahead(s'.rows, due);
    }
  }

  function CountSweeps(actions: seq<Action>): nat {
    if actions == [] then 0
    else CountSweeps(actions[..|actions| - 1]) + if actions[|actions| - 1].RunSweep? then 1 else 0
  }

  /** Late and unmarked, with the deadline it had. */
  ghost predicate Waiting(s: State, id: int, due: int) {
    && id in s.rows && s.rows[id].breachedAt.None?
    && s.rows[id].deadline == due && Late(s.rows[id], s.now)
  }

  ghost predicate Marked(s: State, id: int) {
    id in s.rows && s.rows[id].breachedAt.Some?
  }

  /** Between sweeps a late request keeps its deadline, and a marked one its mark. */
  lemma {:induction false} StaysLate(cal: Calendar, s: State, a: Action, s': State, id: int, due: int)
    requires Sound(cal, s) && Step(cal, s, a, s') && !a.RunSweep?
    ensures Marked(s, id) ==> Marked(s', id)
    ensures Waiting(s, id, due) ==> Waiting(s', id, due)
  {
    if id in s.rows {
      match a
      case FileNew(_, _, _, _, _, _) => FilingSound(cal, s, a, s'.now);
      case OnRequest(i, e) =>
        if i == id && s.rows[id].breachedAt.Some? {
          BreachIsFinal(cal, s.rows[id], e, s'.now);
        } else if i == id && Late(s.rows[id], s.now) {
          LateStaysLate(cal, s.rows[id], e, s.now, s'.now);
        }
      case OnCatalogue(_, _) =>
    }
  }

  /** The request is running whenever a sweep comes. */
  ghost predicate RunningAtSweeps(states: seq<State>, actions: seq<Action>, id: int, n: nat)
    requires n <= |actions| < |states|
  {
    forall i :: 0 <= i < n && actions[i].RunSweep? ==> id in states[i].rows && states[i].rows[id].status.SlaRunning()
  }

  /** After any part of a run the request is marked, or each sweep so far has taken
      a full batch off the queue ahead of it, and the queue still holds it. */
  lemma {:induction false} QueueWorkedOff(
      cal: Calendar, states: seq<State>, actions: seq<Action>, id: int, due: int, n: nat)
    requires Run(cal, states, actions) && Sound(cal, states[0]) && n <= |actions|
    requires Waiting(states[0], id, due) && RunningAtSweeps(states, actions, id, n)
    ensures Marked(states[n], id) ||
      (&& Waiting(states[n], id, due)
       && |Ahead(states[n].rows, due)| + BATCH * CountSweeps(actions[..n]) <= |Ahead(states[0].rows, due)|
       && (CountSweeps(actions[..n]) > 0 ==> BATCH * CountSweeps(actions[..n]) < |Ahead(states[0].rows, due)|))
  {
    if n > 0 {
      QueueWorkedOff(cal, states, actions, id, due, n - 1);
      RunSound(cal, states, actions, n - 1);
      assert actions[..n][..n - 1] == actions[..n - 1];
      QueueStep(cal, states[n - 1], actions[n - 1], states[n], id, due);
    }
  }

  /** One step of it. */
  lemma {:induction false} QueueStep(cal: Calendar, s: State, a: Action, s': State, id: int, due: int)
    requires Sound(cal, s) && Step(cal, s, a, s') && (Marked(s, id) || Waiting(s, id, due))
    requires a.RunSweep? ==> s.rows[id].status.SlaRunning()
    ensures Marked(s', id) ||
      (&& Waiting(s, id, due) && Waiting(s', id, due)
       && (a.RunSweep? ==> |Ahead(s'.rows, due)| > 0)
       && |Ahead(s'.rows, due)| + (if a.RunSweep? then BATCH else 0) <= |Ahead(s.rows, due)|)
  {
    if a.RunSweep? {
      if Waiting(s, id, due) {
        SweepMarksOrShortens(cal, s, a.batch, s', id);
        assert Marked(s', id) || |Ahead(s'.rows, due)| > 0;
      }
    } else {
      StaysLate(cal, s, a, s', id, due);
      if Waiting(s, id, due) {
        QueueNeverGrows(cal, s, a, s', due);
        SubsetSize(Ahead(s'.rows, due), Ahead(s.rows, due));
      }
    }
  }

  lemma {:induction false} SubsetSize(a: set<int>, b: set<int>)
    requires a <= b
    ensures |a| <= |b|
  {
    assert b == a + (b - a);
  }

  /** A running, overdue, unmarked request that runs whenever a sweep comes is
      marked within ceil(k / 200) sweeps, where k counts the unbreached open
      requests due no later than it at the start. */
  lemma {:induction false} NoBreachStarves(
      cal: Calendar, states: seq<State>, actions: seq<Action>, id: int)
    requires Run(cal, states, actions) && Sound(cal, states[0])
    requires id in states[0].rows && states[0].rows[id].status.SlaRunning()
    requires states[0].rows[id].deadline < states[0].now && states[0].rows[id].breachedAt.None?
    requires RunningAtSweeps(states, actions, id, |actions|)
    requires var k := |Ahead(states[0].rows, states[0].rows[id].deadline)|;
      (k + 200 - 1) / 200 <= CountSweeps(actions)
    ensures Marked(states[|actions|], id)
  {
    var due := states[0].rows[id].deadline;
    QueueWorkedOff(cal, states, actions, id, due, |actions|);
    assert actions[..|actions|] == actions;
    assert id in Ahead(states[0].rows, due);
  }
}
