/** The request row, updated in place as the program does it. Every method is
    proved to do exactly what the matching function of `Requests` says, or to be
    refused and leave the row as it was. */
module RequestRecord {
  import opened Wrappers
  import opened Text
  import opened People
  import opened WorkingTime
  import opened Requests
  import Catalogue

  /** A change happened as specified, or was refused and rolled back. */
  ghost predicate Settles(spec: Result<Req, Refusal>, before: Req, outcome: Outcome, after: Req) {
    match spec
    case Success(r) => outcome == Done && after == r
    case Failure(why) => outcome == Refused(why) && after == before
  }

  class Request {
    const studentId: int
    const serviceId: int
    const slaHours: int
    const createdAt: int
    var status: Status
    var assignedTo: Option<int>
    var facultyId: Option<int>
    var departmentId: Option<int>
    var deadline: int
    var closedAt: Option<int>
    var warnedAt: Option<int>
    var breachedAt: Option<int>
    var pausedAt: Option<int>
    var answerText: Option<string>
    var answeredAt: Option<int>
    var answeredBy: Option<int>
    var history: seq<Entry>

    function Value(): Req
      reads this
    {
      Req(studentId, serviceId, slaHours, status, assignedTo, facultyId, departmentId,
          createdAt, deadline, closedAt, warnedAt, breachedAt, pausedAt,
          answerText, answeredAt, answeredBy, history)
    }

    constructor (r: Req)
      ensures Value() == r
    {
      studentId, serviceId, slaHours, createdAt := r.studentId, r.serviceId, r.slaHours, r.createdAt;
      status, assignedTo, facultyId, departmentId := r.status, r.assignedTo, r.facultyId, r.departmentId;
      deadline, closedAt, warnedAt, breachedAt, pausedAt :=
        r.deadline, r.closedAt, r.warnedAt, r.breachedAt, r.pausedAt;
      answerText, answeredAt, answeredBy, history := r.answerText, r.answeredAt, r.answeredBy, r.history;
    }

    method AddHistory(now: int, changedBy: Option<int>, from: Status, to: Status, note: Note)
      modifies `history
      ensures Value() == Log(old(Value()), now, changedBy, from, to, note)
    {
      history := history + [Entry(now, changedBy, Some(from), to, note)];
    }

    /** The SLA half of `_apply_status`. It raises, if at all, before it changes
        anything. */
    method ChangeClock(cal: Calendar, to: Status, now: int) returns (outcome: Outcome)
      modifies `deadline, `warnedAt, `breachedAt, `pausedAt
      ensures Settles(ClockChange(cal, old(Value()), to, now), old(Value()), outcome, Value())
    {
      if to.Returned? && pausedAt.None? {
        pausedAt := Some(now);
      } else if status.Returned? && !to.Returned? {
        if pausedAt.Some? {
          var remaining := WorkingTimeBetween(cal, pausedAt.value, deadline);
          if remaining > 0 {
            var moved := AddWorkingTime(cal, now, remaining);
            if moved.Failure? {
              return Refused(CalendarGaveUp);
            }
            deadline := moved.value;
            warnedAt := None;
            breachedAt := None;
          }
        }
        pausedAt := None;
      }
      return Done;
    }

    /** `_apply_status`. */
    method ApplyStatus(cal: Calendar, to: Status, now: int) returns (outcome: Outcome)
      modifies `status, `deadline, `closedAt, `warnedAt, `breachedAt, `pausedAt
      ensures Settles(Requests.ApplyStatus(cal, old(Value()), to, now), old(Value()), outcome, Value())
    {
      outcome := ChangeClock(cal, to, now);
      if outcome.Done? {
        status := to;
        if to.Closed() {
          closedAt := Some(now);
        }
      }
    }

    method Transition(cal: Calendar, actor: User, to: Status, comment: Option<string>, now: int)
      returns (outcome: Outcome)
      modifies this
      ensures Settles(Requests.Transition(cal, old(Value()), actor, to, comment, now), old(Value()), outcome, Value())
    {
      var allowed := Allowed(status);
      if actor.ReadOnly() {
        return Refused(Forbidden);
      }
      if to.Completed? || to !in allowed {
        return Refused(BadRequest);
      }
      if !Handles(Value(), actor) {
        return Refused(Forbidden);
      }
      if to.Returned? && Clean(comment).None? {
        return Refused(Unprocessable);
      }
      var was := status;
      outcome := ApplyStatus(cal, to, now);
      if outcome.Done? {
        AddHistory(now, Some(actor.id), was, to, Moved);
      }
    }

    /** The answer is written before the status changes; if the calendar then
        gives up, the session rolls it back. */
    method Answer(cal: Calendar, actor: User, text: string, now: int) returns (outcome: Outcome)
      modifies this
      ensures Settles(Requests.Answer(cal, old(Value()), actor, text, now), old(Value()), outcome, Value())
    {
      if !Handles(Value(), actor) {
        return Refused(Forbidden);
      }
      if status.Closed() {
        return Refused(Conflict);
      }
      if Strip(text) == "" {
        return Refused(Unprocessable);
      }
      var was, oldText, oldAt, oldBy := status, answerText, answeredAt, answeredBy;
      answerText := Some(Strip(text));
      answeredAt := Some(now);
      answeredBy := Some(actor.id);
      outcome := ApplyStatus(cal, Completed, now);
      if outcome.Done? {
        AddHistory(now, Some(actor.id), was, Completed, Note.Answered);
      } else {
        answerText, answeredAt, answeredBy := oldText, oldAt, oldBy;
      }
    }

    method Resubmit(cal: Calendar, student: int, now: int) returns (outcome: Outcome)
      modifies this
      ensures Settles(Requests.Resubmit(cal, old(Value()), student, now), old(Value()), outcome, Value())
    {
      if studentId != student {
        return Refused(Forbidden);
      }
      if !status.Returned? {
        return Refused(Conflict);
      }
      outcome := ApplyStatus(cal, InProgress, now);
      if outcome.Done? {
        AddHistory(now, Some(student), Returned, InProgress, Resubmitted);
      }
    }

    method Assign(actor: User, users: map<int, User>, assigneeId: int,
                  faculty: Option<int>, department: Option<int>, now: int) returns (outcome: Outcome)
      modifies this
      ensures Settles(Requests.Assign(old(Value()), actor, users, assigneeId, faculty, department, now),
                      old(Value()), outcome, Value())
    {
      if actor.ReadOnly() {
        return Refused(Forbidden);
      }
      if status.Closed() {
        return Refused(Conflict);
      }
      if assigneeId !in users || !users[assigneeId].TakesRequests() {
        return Refused(BadRequest);
      }
      assignedTo := Some(assigneeId);
      if faculty.Some? {
        facultyId := faculty;
      }
      if department.Some? {
        departmentId := department;
      }
      AddHistory(now, Some(actor.id), status, status, Assigned);
      return Done;
    }

    /** One iteration of the sweep's loop. */
    method Mark(now: int) returns (breached: bool)
      modifies `history, `warnedAt, `breachedAt
      ensures Value() == Sweep(old(Value()), now)
      ensures breached <==> deadline < now
    {
      breached := deadline < now;
      AddHistory(now, None, status, status, if breached then BreachNotice else WarningNotice);
      if breached {
        breachedAt := Some(now);
        if warnedAt.None? {
          warnedAt := Some(now);
        }
      } else {
        warnedAt := Some(now);
      }
    }
  }

  /** `create_request`, after routing. */
  method CreateRequest(cal: Calendar, student: User, service: Catalogue.Category, handler: Option<int>, now: int)
    returns (r: Result<Request, Refusal>)
    ensures match File(cal, student, service, handler, now)
            case Success(v) => r.Success? && fresh(r.value) && r.value.Value() == v
            case Failure(why) => r == Failure(why)
  {
    var auto := service.routing.AutoReply?;
    var due := SlaDeadlineFrom(cal, now, service.slaHours);
    if due.Failure? {
      return Failure(CalendarGaveUp);
    }
    var req := new Request(
      Req(student.id, service.id, service.slaHours, InProgress,
          if auto then None else handler, student.FacultyId(), student.DepartmentId(),
          now, due.value, None, None, None, None, None, None, None, []));
    if auto {
      req.status := Completed;
      req.answerText := service.autoReplyText;
      req.answeredAt := Some(now);
      req.closedAt := Some(now);
    }
    req.history := [Entry(now, Some(student.id), None, New, Filed)];
    req.AddHistory(now, None, New, req.status, if auto then AutoAnswered else Routed);
    return Success(req);
  }

  /** The stored rows by id. */
  ghost function Values(table: map<int, Request>): map<int, Req>
    reads table.Values
  {
    map i | i in table :: table[i].Value()
  }

  /** What a sweep does to the table. */
  function SweepAll(rows: map<int, Req>, batch: seq<int>, now: int): map<int, Req> {
    map i | i in rows :: if i in batch then Sweep(rows[i], now) else rows[i]
  }

  function CountLate(rows: map<int, Req>, batch: seq<int>, now: int): nat
    requires forall k :: 0 <= k < |batch| ==> batch[k] in rows
  {
    if batch == [] then 0
    else
      var last := batch[|batch| - 1];
      CountLate(rows, batch[..|batch| - 1], now) + if rows[last].deadline < now then 1 else 0
  }

  lemma {:induction false} SweepOneMore(rows: map<int, Req>, done: seq<int>, id: int, now: int)
    requires id in rows && id !in done
    ensures SweepAll(rows, done + [id], now) == SweepAll(rows, done, now)[id := Sweep(rows[id], now)]
    ensures SweepAll(rows, done, now)[id] == rows[id]
  {
  }

  ghost predicate Distinct(table: map<int, Request>) {
    forall i, j :: i in table && j in table && i != j ==> table[i] != table[j]
  }

  method MarkRow(table: map<int, Request>, id: int, now: int) returns (late: bool)
    requires Distinct(table) && id in table
    modifies table[id]
    ensures Values(table) == old(Values(table))[id := Sweep(old(Values(table))[id], now)]
    ensures late <==> old(Values(table))[id].deadline < now
  {
    late := table[id].Mark(now);
    forall i | i in table && i != id
      ensures table[i].Value() == old(table[i].Value())
    {
      assert table[i] != table[id];
    }
  }

  /** A part of a sweep: its rows are marked, the others as they were, and the
      counts are those of that part. */
  ghost predicate SweptSoFar(table: map<int, Request>, rows: map<int, Req>, done: seq<int>, now: int, breached: nat)
    requires forall k :: 0 <= k < |done| ==> done[k] in rows
    reads table.Values
  {
    Values(table) == SweepAll(rows, done, now) && breached == CountLate(rows, done, now)
  }

  /** One turn of the loop. */
  method SweepTurn(table: map<int, Request>, ghost rows: map<int, Req>, batch: seq<int>, k: nat, now: int,
                   breached: nat, warned: nat) returns (breached': nat, warned': nat)
    requires Distinct(table) && IsBatchOf(batch, rows) && rows.Keys == table.Keys && k < |batch|
    requires SweptSoFar(table, rows, batch[..k], now, breached)
    modifies table[batch[k]]
    ensures SweptSoFar(table, rows, batch[..k + 1], now, breached') && breached' + warned' == breached + warned + 1
  {
    assert batch[..k + 1] == batch[..k] + [batch[k]] && batch[..k + 1][..k] == batch[..k];
    SweepOneMore(rows, batch[..k], batch[k], now);
    var late := MarkRow(table, batch[k], now);
    if late {
      breached', warned' := breached + 1, warned;
    } else {
      breached', warned' := breached, warned + 1;
    }
  }

  /** Stored rows, each once. */
  ghost predicate IsBatchOf(batch: seq<int>, rows: map<int, Req>) {
    && (forall k :: 0 <= k < |batch| ==> batch[k] in rows)
    && (forall j, k :: 0 <= j < k < |batch| ==> batch[j] != batch[k])
  }

  /** `sweep_sla_deadlines`, after its query: the loop over the batch, and the
      two counts it returns. */
  method SweepDeadlines(table: map<int, Request>, batch: seq<int>, now: int) returns (breached: nat, warned: nat)
    requires Distinct(table)
    requires IsBatchOf(batch, Values(table))
    modifies table.Values
    ensures Values(table) == SweepAll(old(Values(table)), batch, now)
    ensures breached == CountLate(old(Values(table)), batch, now) && breached + warned == |batch|
  {
    breached, warned := 0, 0;
    ghost var rows := Values(table);
    assert SweepAll(rows, batch[..0], now) == rows;
    for k := 0 to |batch|
      invariant SweptSoFar(table, rows, batch[..k], now, breached) && breached + warned == k
    {
      breached, warned := SweepTurn(table, rows, batch, k, now, breached, warned);
    }
    assert batch[..|batch|] == batch;
    assert SweptSoFar(table, rows, batch, now, breached);
  }
}
