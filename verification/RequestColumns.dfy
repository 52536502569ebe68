/** What each step writes, column by column and from the caller's side, and when it is
    refused and why. The clock's columns have their own laws in `RequestLaws`. */
module RequestColumns {
  import opened Wrappers
  import opened Text
  import opened People
  import opened WorkingTime
  import opened Requests
  import opened SlaLedger
  import opened RequestLaws
  import opened RequestRuns
  import Catalogue

  predicate SameOrigin(r: Req, r': Req) {
    && r'.studentId == r.studentId && r'.serviceId == r.serviceId
    && r'.slaHours == r.slaHours && r'.createdAt == r.createdAt
  }

  predicate SameHolder(r: Req, r': Req) {
    r'.assignedTo == r.assignedTo && r'.facultyId == r.facultyId && r'.departmentId == r.departmentId
  }

  predicate SameAnswer(r: Req, r': Req) {
    r'.answerText == r.answerText && r'.answeredAt == r.answeredAt && r'.answeredBy == r.answeredBy
  }

  predicate SameClock(r: Req, r': Req) {
    && r'.deadline == r.deadline && r'.closedAt == r.closedAt && r'.pausedAt == r.pausedAt
    && r'.warnedAt == r.warnedAt && r'.breachedAt == r.breachedAt
  }

  /** Leadership only looks on, and staff may act only on what is assigned to them. */
  predicate MayNotAct(r: Req, actor: User) {
    actor.role == Some(Leadership) || (actor.role == Some(Staff) && r.assignedTo != Some(actor.id))
  }

  predicate IsClosed(s: Status) {
    s == Completed || s == Rejected
  }

  // Filing.

  /** A filed request carries the student's own faculty and department, goes to the
      handler routing chose, or is answered with the service's text. */
  lemma {:induction false} FilingWrites(
      cal: Calendar, student: User, service: Catalogue.Category, handler: Option<int>, now: int)
    requires File(cal, student, service, handler, now).Success?
    ensures var r := File(cal, student, service, handler, now).value;
      && r.studentId == student.id && r.serviceId == service.id && r.createdAt == now
      && r.warnedAt == None && r.breachedAt == None && r.pausedAt == None && r.answeredBy == None
    ensures var r := File(cal, student, service, handler, now).value;
      if student.student.Some? then
        r.facultyId == student.student.value.facultyId && r.departmentId == student.student.value.departmentId
      else if student.employee.Some? then
        r.facultyId == student.employee.value.facultyId && r.departmentId == student.employee.value.departmentId
      else r.facultyId == None && r.departmentId == None
    ensures var r := File(cal, student, service, handler, now).value;
      if service.routing == Catalogue.AutoReply then
        && r.status == Completed && r.assignedTo == None && r.closedAt == Some(now)
        && r.answerText == service.autoReplyText && r.answeredAt == Some(now)
        && r.history == [Entry(now, Some(student.id), None, New, Filed),
                         Entry(now, None, Some(New), Completed, AutoAnswered)]
      else
        && r.status == InProgress && r.assignedTo == handler && r.closedAt == None
        && r.answerText == None && r.answeredAt == None
        && r.history == [Entry(now, Some(student.id), None, New, Filed),
                         Entry(now, None, Some(New), InProgress, Routed)]
  {
  }

  // Answers.

  /** An accepted answer stores the handler's own text, trimmed, with who and when. */
  lemma {:induction false} AnswerWrites(cal: Calendar, r: Req, actor: User, text: string, now: int)
    requires Try(cal, r, Reply(actor, text), now).Success?
    ensures var r' := Try(cal, r, Reply(actor, text), now).value;
      && r'.answerText.Some? && r'.answerText.value != "" && TrimOf(r'.answerText.value, text)
      && r'.answeredBy == Some(actor.id) && r'.answeredAt == Some(now)
      && r'.status == Completed && r'.closedAt == Some(now)
      && SameOrigin(r, r') && SameHolder(r, r')
      && r'.history == r.history + [Entry(now, Some(actor.id), Some(r.status), Completed, Note.Answered)]
  {
    StripTrims(text);
  }

  /** The same, with the blanks spelled out. */
  lemma {:induction false} AnswerIsTheText(cal: Calendar, r: Req, actor: User, text: string, now: int, r': Req)
    returns (pre: string, body: string, post: string)
    requires Try(cal, r, Reply(actor, text), now) == Success(r')
    ensures text == pre + body + post && Blank(pre) && Blank(post)
    ensures body != "" && !IsSpace(body[0]) && !IsSpace(body[|body| - 1])
    ensures r'.answerText == Some(body)
  {
    AnswerWrites(cal, r, actor, text, now);
    body := r'.answerText.value;
    pre, post := TrimParts(body, text);
  }

  lemma {:induction false} AnswerRefused(cal: Calendar, r: Req, actor: User, text: string, now: int)
    ensures var t := Try(cal, r, Reply(actor, text), now);
      && (t == Failure(Forbidden) <==> MayNotAct(r, actor))
      && (t == Failure(Conflict) <==> !MayNotAct(r, actor) && IsClosed(r.status))
      && (t == Failure(Unprocessable) <==> !MayNotAct(r, actor) && !IsClosed(r.status) && Blank(text))
      && (t.Failure? ==> t.error in {Forbidden, Conflict, Unprocessable, CalendarGaveUp})
      && (t == Failure(CalendarGaveUp) ==> r.status == Returned)
  {
    StripBlank(text);
  }

  // Moves.

  /** The moves a handler can make; none of them closes a request. */
  predicate MayMove(from: Status, to: Status) {
    || (from in {New, Accepted} && to in {InProgress, Returned})
    || (from == InProgress && to == Returned)
    || (from == Returned && to == InProgress)
  }

  predicate SaysNothing(comment: Option<string>) {
    comment == None || Blank(comment.value)
  }

  lemma {:induction false} MoveWrites(
      cal: Calendar, r: Req, actor: User, to: Status, comment: Option<string>, now: int)
    requires Try(cal, r, Transit(actor, to, comment), now).Success?
    ensures var r' := Try(cal, r, Transit(actor, to, comment), now).value;
      && r'.status == to && r'.closedAt == r.closedAt
      && SameOrigin(r, r') && SameHolder(r, r') && SameAnswer(r, r')
      && r'.history == r.history + [Entry(now, Some(actor.id), Some(r.status), to, Moved)]
  {
  }

  /** Each refusal in its turn: leadership, completing, a move that is not there,
      somebody else's request, a return without a word. */
  lemma {:induction false} MoveRefused(
      cal: Calendar, r: Req, actor: User, to: Status, comment: Option<string>, now: int)
    ensures var t := Try(cal, r, Transit(actor, to, comment), now);
      && (t == Failure(BadRequest) <==> actor.role != Some(Leadership) && !MayMove(r.status, to))
      && (t == Failure(Forbidden) <==>
            actor.role == Some(Leadership) || (MayMove(r.status, to) && MayNotAct(r, actor)))
      && (t == Failure(Unprocessable) <==>
            MayMove(r.status, to) && !MayNotAct(r, actor) && to == Returned && SaysNothing(comment))
      && (t.Failure? ==> t.error in {BadRequest, Forbidden, Unprocessable, CalendarGaveUp})
      && (t == Failure(CalendarGaveUp) ==> r.status == Returned)
  {
  }

  lemma {:induction false} SendBackWrites(cal: Calendar, r: Req, studentId: int, now: int)
    requires Try(cal, r, SendBack(studentId), now).Success?
    ensures var r' := Try(cal, r, SendBack(studentId), now).value;
      && r'.status == InProgress && r'.closedAt == r.closedAt && r'.pausedAt == None
      && SameOrigin(r, r') && SameHolder(r, r') && SameAnswer(r, r')
      && r'.history == r.history + [Entry(now, Some(studentId), Some(Returned), InProgress, Resubmitted)]
  {
  }

  lemma {:induction false} SendBackRefused(cal: Calendar, r: Req, studentId: int, now: int)
    ensures var t := Try(cal, r, SendBack(studentId), now);
      && (t == Failure(Forbidden) <==> r.studentId != studentId)
      && (t == Failure(Conflict) <==> r.studentId == studentId && r.status != Returned)
      && (t.Failure? ==> t.error in {Forbidden, Conflict, CalendarGaveUp})
  {
  }

  // Assignment.

  /** An active staff member or registrator with this id. */
  predicate CanBeGiven(users: map<int, User>, id: int) {
    id in users && users[id].isActive && users[id].role in {Some(Staff), Some(Registrator)}
  }

  /** The request goes to the one named; faculty and department change only when
      given; nothing else does. */
  lemma {:induction false} AssignmentWrites(
      cal: Calendar, r: Req, actor: User, users: map<int, User>, assigneeId: int, faculty: Option<int>,
      department: Option<int>, now: int)
    requires Try(cal, r, Reassign(actor, users, assigneeId, faculty, department), now).Success?
    ensures var r' := Try(cal, r, Reassign(actor, users, assigneeId, faculty, department), now).value;
      && r'.assignedTo == Some(assigneeId) && CanBeGiven(users, assigneeId)
      && r'.facultyId == (if faculty == None then r.facultyId else faculty)
      && r'.departmentId == (if department == None then r.departmentId else department)
      && r'.status == r.status && SameOrigin(r, r') && SameAnswer(r, r') && SameClock(r, r')
      && r'.history == r.history + [Entry(now, Some(actor.id), Some(r.status), r.status, Assigned)]
  {
  }

  lemma {:induction false} AssignmentRefused(
      cal: Calendar, r: Req, actor: User, users: map<int, User>, assigneeId: int, faculty: Option<int>,
      department: Option<int>, now: int)
    ensures var t := Try(cal, r, Reassign(actor, users, assigneeId, faculty, department), now);
      && (t == Failure(Forbidden) <==> actor.role == Some(Leadership))
      && (t == Failure(Conflict) <==> actor.role != Some(Leadership) && IsClosed(r.status))
      && (t == Failure(BadRequest) <==>
            actor.role != Some(Leadership) && !IsClosed(r.status) && !CanBeGiven(users, assigneeId))
      && (t.Failure? ==> t.error in {Forbidden, Conflict, BadRequest})
  {
  }

  // The sweep.

  /** The clock runs and no breach is marked. */
  predicate Watched(r: Req) {
    r.status in {New, Accepted, InProgress} && r.breachedAt == None
  }

  /** A sweep marks a breach once the deadline has passed, keeping an earlier warning
      mark; warns once within the last 24 hours; and otherwise does nothing. */
  lemma {:induction false} SweepWrites(cal: Calendar, r: Req, now: int)
    ensures var t := Try(cal, r, Swept, now);
      t.Success?
    ensures var r' := Next(cal, r, Swept, now);
      if Watched(r) && r.deadline < now then
        && r'.breachedAt == Some(now) && r'.warnedAt == (if r.warnedAt == None then Some(now) else r.warnedAt)
        && r' == r.(breachedAt := r'.breachedAt, warnedAt := r'.warnedAt, history := r'.history)
        && r'.history == r.history + [Entry(now, None, Some(r.status), r.status, BreachNotice)]
      else if Watched(r) && r.warnedAt == None && r.deadline < now + 24 * 3_600_000_000 then
        && r' == r.(warnedAt := Some(now), history := r'.history)
        && r'.history == r.history + [Entry(now, None, Some(r.status), r.status, WarningNotice)]
      else r' == r
  {
  }

  // Over runs.

  /** The stored answer is this call's. */
  ghost predicate AnsweredBy(r: Req, c: Call) {
    && c.event.Reply? && r.history != []
    && r.answerText.Some? && r.answerText.value != "" && TrimOf(r.answerText.value, c.event.text)
    && r.answeredBy == Some(c.event.actor.id) && r.answeredAt == Some(c.at) && r.closedAt == Some(c.at)
    && Last(r).note == Note.Answered && Last(r).changedBy == Some(c.event.actor.id) && Last(r).at == c.at
  }

  /** Only an accepted answer completes a request. */
  lemma {:induction false} CompletedByReply(cal: Calendar, r: Req, e: Event, now: int)
    requires Ok(cal, r) && Last(r).at <= now && r.status != Completed && Next(cal, r, e, now).status == Completed
    ensures AnsweredBy(Next(cal, r, e, now), Call(now, e))
  {
    if e.Reply? {
      AnswerWrites(cal, r, e.actor, e.text, now);
    }
  }

  /** Over every run from filing, a completed request holds the answer of the call that
      wrote its last entry, or, filed under an automatic service, that service's text. */
  lemma {:induction false} AnswerOverRuns(
      cal: Calendar, student: User, service: Catalogue.Category, handler: Option<int>, filedAt: int, calls: seq<Call>)
    requires Catalogue.RowOk(service) && service.parentId.Some?
    requires File(cal, student, service, handler, filedAt).Success? && InOrder(filedAt, calls)
    requires After(cal, File(cal, student, service, handler, filedAt).value, calls).status == Completed
    ensures var r := After(cal, File(cal, student, service, handler, filedAt).value, calls);
      if service.routing == Catalogue.AutoReply then
        r.answerText == service.autoReplyText && r.answeredAt == Some(filedAt) && r.answeredBy == None
      else exists i :: 0 <= i < |calls| && AnsweredBy(r, calls[i])
  {
    var filed := File(cal, student, service, handler, filedAt).value;
    FiledOk(cal, student, service, handler, filedAt);
    FilingWrites(cal, student, service, handler, filedAt);
    if service.routing == Catalogue.AutoReply {
      FinalForEver(cal, filed, calls);
    } else {
      AnsweringCall(cal, filed, calls);
    }
  }

  lemma {:induction false} AnsweringCall(cal: Calendar, r: Req, calls: seq<Call>)
    requires Ok(cal, r) && InOrder(Last(r).at, calls)
    requires r.status != Completed && After(cal, r, calls).status == Completed
    ensures exists i :: 0 <= i < |calls| && AnsweredBy(After(cal, r, calls), calls[i])
  {
    var init, last := calls[..|calls| - 1], calls[|calls| - 1];
    var before := After(cal, r, init);
    RunOk(cal, r, init);
    if before.status == Completed {
      AnsweringCall(cal, r, init);
      ClosedIsFinal(cal, before, last.event, last.at);
      var i :| 0 <= i < |init| && AnsweredBy(before, init[i]);
      assert calls[i] == init[i];
    } else {
      CompletedByReply(cal, before, last.event, last.at);
      assert AnsweredBy(After(cal, r, calls), calls[|calls| - 1]);
    }
  }
}
