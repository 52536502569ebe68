/** The request life cycle (backend/app/services/request_service.py) and what the
    SLA sweep does to one request (backend/app/services/sla_service.py), as
    functions on the stored columns. `RequestRecord` updates a row in place and is
    proved against these. */
module Requests {
  import opened Wrappers
  import opened Text
  import opened People
  import opened WorkingTime
  import Catalogue

  datatype Status = New | Accepted | InProgress | Completed | Rejected | Returned
  {
    predicate Closed() { Completed? || Rejected? }

    predicate Open() { New? || Accepted? || InProgress? || Returned? }

    /** The clock runs: a returned request waits on the student. */
    predicate SlaRunning() { New? || Accepted? || InProgress? }
  }

  /** Why a history row was written. */
  datatype Note =
    | Filed | Routed | AutoAnswered | Moved | Resubmitted | Assigned | Answered
    | BreachNotice | WarningNotice

  datatype Entry = Entry(at: int, changedBy: Option<int>, oldStatus: Option<Status>, newStatus: Status, note: Note)

  /** The columns of a request. `slaHours` is not a column: it is the budget its
      service had when the request was filed, kept to state what the deadline
      means. */
  datatype Req = Req(
    studentId: int, serviceId: int, slaHours: int,
    status: Status, assignedTo: Option<int>, facultyId: Option<int>, departmentId: Option<int>,
    createdAt: int, deadline: int, closedAt: Option<int>,
    warnedAt: Option<int>, breachedAt: Option<int>, pausedAt: Option<int>,
    answerText: Option<string>, answeredAt: Option<int>, answeredBy: Option<int>,
    history: seq<Entry>)

  function Log(r: Req, now: int, changedBy: Option<int>, from: Status, to: Status, note: Note): Req {
    r.(history := r.history + [Entry(now, changedBy, Some(from), to, note)])
  }

  /** `create_request`. The handler comes from routing; an automatic service has
      none, and its request is answered and closed on the spot. */
  ghost function File(cal: Calendar, student: User, service: Catalogue.Category,
                      handler: Option<int>, now: int): Result<Req, Refusal>
  {
    var deadline := Advance(cal, now, service.slaHours * HOUR);
    if deadline.Failure? then Failure(CalendarGaveUp)
    else
      var auto := service.routing.AutoReply?;
      Success(Req(
        student.id, service.id, service.slaHours,
        if auto then Completed else InProgress,
        if auto then None else handler, student.FacultyId(), student.DepartmentId(),
        now, deadline.value, if auto then Some(now) else None,
        None, None, None,
        if auto then service.autoReplyText else None, if auto then Some(now) else None, None,
        [Entry(now, Some(student.id), None, New, Filed),
         Entry(now, None, Some(New), if auto then Completed else InProgress, if auto then AutoAnswered else Routed)]))
  }

  /** The moves `/transition` can make. */
  function Allowed(s: Status): set<Status> {
    match s
    case New => {InProgress, Returned}
    case Accepted => {InProgress, Returned}
    case InProgress => {Returned}
    case Returned => {InProgress}
    case Completed => {}
    case Rejected => {}
  }

  /** Working time that was left when the clock was stopped. */
  ghost function LeftAtPause(cal: Calendar, r: Req): nat
    requires r.pausedAt.Some?
  {
    Work(cal, r.pausedAt.value, r.deadline)
  }

  function Enter(r: Req, to: Status, now: int): Req {
    r.(status := to, closedAt := if to.Closed() then Some(now) else r.closedAt)
  }

  /** The SLA half of `_apply_status`: returning a request stops the clock, and
      leaving `returned` moves the deadline out by what was left at the pause. */
  ghost function ClockChange(cal: Calendar, r: Req, to: Status, now: int): Result<Req, Refusal> {
    if to.Returned? && r.pausedAt.None? then
      Success(r.(pausedAt := Some(now)))
    else if r.status.Returned? && !to.Returned? then
      if r.pausedAt.Some? && LeftAtPause(cal, r) > 0 then
        var deadline := Advance(cal, now, LeftAtPause(cal, r));
        if deadline.Failure? then Failure(CalendarGaveUp)
        else Success(r.(deadline := deadline.value, warnedAt := None, breachedAt := None, pausedAt := None))
      else Success(r.(pausedAt := None))
    else Success(r)
  }

  /** `_apply_status`: change status and keep the SLA clock consistent with it. */
  ghost function ApplyStatus(cal: Calendar, r: Req, to: Status, now: int): Result<Req, Refusal> {
    var c := ClockChange(cal, r, to, now);
    if c.Failure? then c else Success(Enter(c.value, to, now))
  }

  /** `_assert_handler`: staff act only on requests assigned to them. */
  predicate Handles(r: Req, actor: User) {
    !actor.ReadOnly() && (actor.HasRole({Staff}) ==> r.assignedTo == Some(actor.id))
  }

  /** `transition_request`. */
  ghost function Transition(cal: Calendar, r: Req, actor: User, to: Status, comment: Option<string>, now: int)
    : Result<Req, Refusal>
  {
    if actor.ReadOnly() then Failure(Forbidden)
    else if to.Completed? then Failure(BadRequest)
    else if to !in Allowed(r.status) then Failure(BadRequest)
    else if !Handles(r, actor) then Failure(Forbidden)
    else if to.Returned? && Clean(comment).None? then Failure(Unprocessable)
    else
      var moved := ApplyStatus(cal, r, to, now);
      if moved.Failure? then moved
      else Success(Log(moved.value, now, Some(actor.id), r.status, to, Moved))
  }

  /** `answer_request`, the only way a handler closes a request. */
  ghost function Answer(cal: Calendar, r: Req, actor: User, text: string, now: int): Result<Req, Refusal> {
    if !Handles(r, actor) then Failure(Forbidden)
    else if r.status.Closed() then Failure(Conflict)
    else if Strip(text) == "" then Failure(Unprocessable)
    else
      var answered := r.(answerText := Some(Strip(text)), answeredAt := Some(now), answeredBy := Some(actor.id));
      var moved := ApplyStatus(cal, answered, Completed, now);
      if moved.Failure? then moved
      else Success(Log(moved.value, now, Some(actor.id), r.status, Completed, Note.Answered))
  }

  /** `resubmit_request`. */
  ghost function Resubmit(cal: Calendar, r: Req, studentId: int, now: int): Result<Req, Refusal> {
    if r.studentId != studentId then Failure(Forbidden)
    else if !r.status.Returned? then Failure(Conflict)
    else
      var moved := ApplyStatus(cal, r, InProgress, now);
      if moved.Failure? then moved
      else Success(Log(moved.value, now, Some(studentId), Returned, InProgress, Resubmitted))
  }

  /** `assign_request`; `users` is the user table. */
  function Assign(r: Req, actor: User, users: map<int, User>, assigneeId: int,
                  facultyId: Option<int>, departmentId: Option<int>, now: int): Result<Req, Refusal>
  {
    if actor.ReadOnly() then Failure(Forbidden)
    else if r.status.Closed() then Failure(Conflict)
    else if assigneeId !in users || !users[assigneeId].TakesRequests() then Failure(BadRequest)
    else
      var moved := r.(assignedTo := Some(assigneeId),
                      facultyId := if facultyId.Some? then facultyId else r.facultyId,
                      departmentId := if departmentId.Some? then departmentId else r.departmentId);
      Success(Log(moved, now, Some(actor.id), r.status, r.status, Assigned))
  }

  // The sweep.

  const WARN_BEFORE: int := 24 * HOUR

  /** The sweep's query filter. */
  predicate Candidate(r: Req, now: int) {
    && r.status.SlaRunning() && r.breachedAt.None?
    && (r.deadline < now || (r.deadline < now + WARN_BEFORE && r.warnedAt.None?))
  }

  /** What the sweep does to one request of its batch: the history entry and the markers. */
  function Sweep(r: Req, now: int): Req {
    if r.deadline < now then
      Log(r, now, None, r.status, r.status, BreachNotice)
        .(breachedAt := Some(now), warnedAt := if r.warnedAt.Some? then r.warnedAt else Some(now))
    else
      Log(r, now, None, r.status, r.status, WarningNotice).(warnedAt := Some(now))
  }

  // Everything that can happen to a stored request.

  datatype Event =
    | Transit(actor: User, to: Status, comment: Option<string>)
    | Reply(actor: User, text: string)
    | SendBack(studentId: int)
    | Reassign(actor: User, users: map<int, User>, assigneeId: int, facultyId: Option<int>, departmentId: Option<int>)
    | Swept

  ghost function Try(cal: Calendar, r: Req, e: Event, now: int): Result<Req, Refusal> {
    match e
    case Transit(actor, to, comment) => Transition(cal, r, actor, to, comment, now)
    case Reply(actor, text) => Answer(cal, r, actor, text, now)
    case SendBack(studentId) => Resubmit(cal, r, studentId, now)
    case Reassign(actor, users, assigneeId, f, d) => Assign(r, actor, users, assigneeId, f, d, now)
    case Swept => Success(if Candidate(r, now) then Sweep(r, now) else r)
  }

  /** A refused call is rolled back. */
  ghost function Next(cal: Calendar, r: Req, e: Event, now: int): Req {
    var t := Try(cal, r, e, now);
    if t.Success? then t.value else r
  }
}
