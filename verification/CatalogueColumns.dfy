/** What creating and changing a catalogue row writes, column by column from the form,
    and when it is refused and why. */
module CatalogueColumns {
  import opened Wrappers
  import opened Text
  import opened People
  import opened Catalogue

  /** A text column holds what was sent, trimmed, or nothing for nothing or blanks. */
  ghost predicate Holds(column: Option<string>, sent: Option<string>) {
    if sent == None || Blank(sent.value) then column == None
    else column.Some? && column.value != "" && TrimOf(column.value, sent.value)
  }

  lemma {:induction false} CleanHolds(sent: Option<string>)
    ensures Holds(Clean(sent), sent)
  {
    if sent.Some? && !Blank(sent.value) {
      StripTrims(sent.value);
      StripBlank(sent.value);
    }
  }

  /** The hours the forms accept. */
  predicate GoodHours(h: int) {
    1 <= h <= 720
  }

  predicate IsRoot(rows: Rows, id: int) {
    id in rows && rows[id].parentId == None
  }

  /** Nobody, or an active staff member or registrator on general routing. */
  predicate GoodAssignee(users: Users, routing: Routing, id: Option<int>) {
    id == None ||
    (routing == GeneralManager && id.value in users && users[id.value].isActive
     && users[id.value].role in {Some(Staff), Some(Registrator)})
  }

  /** An automatic answer without a text. */
  predicate Speechless(routing: Routing, text: Option<string>) {
    routing == AutoReply && (text == None || Blank(text.value))
  }

  // Creating.

  lemma {:induction false} BuiltTexts(rows: Rows, users: Users, id: int, data: NewCategory)
    requires Build(rows, users, id, data).Success?
    ensures var c := Build(rows, users, id, data).value;
      && c.id == id && c.isActive && c.parentId == data.parentId
      && c.name == Strip(data.name) && c.description == Clean(data.description)
  {
  }

  /** Every new row is active, under the parent the form names, with its name and
      description. */
  lemma {:induction false} BuildWrites(rows: Rows, users: Users, id: int, data: NewCategory, c: Category)
    requires Build(rows, users, id, data) == Success(c)
    ensures c.id == id && c.isActive && c.parentId == data.parentId
    ensures TrimOf(c.name, data.name) && Holds(c.description, data.description)
  {
    BuiltTexts(rows, users, id, data);
    StripTrims(data.name);
    CleanHolds(data.description);
  }

  /** A service type keeps the whole form. */
  lemma {:induction false} BuildWritesService(rows: Rows, users: Users, id: int, data: NewCategory)
    requires Build(rows, users, id, data).Success? && data.parentId.Some?
    ensures var c := Build(rows, users, id, data).value;
      && IsRoot(rows, data.parentId.value)
      && c.slaHours == data.slaHours && c.priority == data.priority && c.routing == data.routing
      && Holds(c.autoReplyText, data.autoReplyText) && Holds(c.autoReplyDescription, data.autoReplyDescription)
      && c.assigneeId == data.assigneeId
  {
    CleanHolds(data.autoReplyText);
    CleanHolds(data.autoReplyDescription);
  }

  /** A request type has the columns' defaults instead. */
  lemma {:induction false} BuildWritesType(rows: Rows, users: Users, id: int, data: NewCategory)
    requires Build(rows, users, id, data).Success? && data.parentId == None
    ensures var c := Build(rows, users, id, data).value;
      && c.slaHours == 24 && c.priority == Normal && c.routing == FacultyManager
      && c.autoReplyText == None && c.autoReplyDescription == None && c.assigneeId == None
  {
  }

  lemma {:induction false} BuildRefused(rows: Rows, users: Users, id: int, data: NewCategory)
    ensures var t, p := Build(rows, users, id, data), data.parentId;
      && (t == Failure(NotFound) <==> GoodHours(data.slaHours) && p.Some? && p.value !in rows)
      && (t == Failure(Unprocessable) <==>
            !GoodHours(data.slaHours)
            || (p.Some? && IsRoot(rows, p.value) && Speechless(data.routing, data.autoReplyText)))
      && (t == Failure(BadRequest) <==>
            && GoodHours(data.slaHours) && p.Some? && p.value in rows
            && (!IsRoot(rows, p.value)
                || (!Speechless(data.routing, data.autoReplyText)
                    && !GoodAssignee(users, data.routing, data.assigneeId))))
      && (t.Failure? ==> t.error in {NotFound, Unprocessable, BadRequest})
  {
  }

  // Changing.

  /** A column that may not be null keeps its value unless a new one is sent. */
  predicate Kept<T(==)>(column: T, was: T, sent: Sent<T>) {
    if sent.Given? then column == sent.value else column == was
  }

  /** A text column keeps its value unless the key is sent. */
  ghost predicate KeptText(column: Option<string>, was: Option<string>, sent: Sent<string>) {
    match sent
    case Absent => column == was
    case Null => column == None
    case Given(text) => Holds(column, Some(text))
  }

  lemma {:induction false} SentTextHolds(was: Option<string>, sent: Sent<string>)
    ensures KeptText(if sent.Absent? then was else Clean(sent.Or(None)), was, sent)
  {
    CleanHolds(sent.Or(None));
  }

  /** The columns that are copied. */
  lemma {:induction false} UpdateWrites(rows: Rows, users: Users, cat: Category, u: Update, c: Category)
    requires Applied(rows, users, cat, u) == Success(c)
    ensures c.id == cat.id && Kept(c.slaHours, cat.slaHours, u.slaHours)
    ensures Kept(c.priority, cat.priority, u.priority) && Kept(c.routing, cat.routing, u.routing)
    ensures Kept(c.isActive, cat.isActive, u.isActive)
    ensures c.parentId == (if u.parentId.Given? then Some(u.parentId.value) else cat.parentId)
    ensures match u.assigneeId
            case Given(id) => c.assigneeId == Some(id)
            case Null => c.assigneeId == None
            case Absent => c.assigneeId == if c.routing == GeneralManager then cat.assigneeId else None
  {
  }

  lemma {:induction false} UpdatedTexts(rows: Rows, users: Users, cat: Category, u: Update, c: Category)
    requires Applied(rows, users, cat, u) == Success(c)
    ensures c.name == if u.name.Given? then Strip(u.name.value) else cat.name
    ensures c.description == Written(cat, u).description && c.autoReplyText == Written(cat, u).autoReplyText
    ensures c.autoReplyDescription == Written(cat, u).autoReplyDescription
  {
  }

  /** The columns that are trimmed. */
  lemma {:induction false} UpdateWritesTexts(rows: Rows, users: Users, cat: Category, u: Update, c: Category)
    requires Applied(rows, users, cat, u) == Success(c)
    ensures if u.name.Given? then TrimOf(c.name, u.name.value) else c.name == cat.name
    ensures KeptText(c.description, cat.description, u.description)
    ensures KeptText(c.autoReplyText, cat.autoReplyText, u.autoReplyText)
    ensures KeptText(c.autoReplyDescription, cat.autoReplyDescription, u.autoReplyDescription)
  {
    UpdatedTexts(rows, users, cat, u, c);
    if u.name.Given? {
      StripTrims(u.name.value);
    }
    SentTextHolds(cat.description, u.description);
    SentTextHolds(cat.autoReplyText, u.autoReplyText);
    SentTextHolds(cat.autoReplyDescription, u.autoReplyDescription);
  }

  /** The row as it would be, for the checks that look at it. */
  function Routed(cat: Category, u: Update): Routing {
    if u.routing.Given? then u.routing.value else cat.routing
  }

  function Answers(cat: Category, u: Update): Option<string> {
    match u.autoReplyText
    case Absent => cat.autoReplyText
    case Null => None
    case Given(text) => Some(text)
  }

  /** Would turn one kind of row into the other, or move it under itself, under nothing
      there or under a service. */
  predicate BadMove(rows: Rows, cat: Category, u: Update) {
    || (u.parentId.Null? && cat.parentId.Some?)
    || (u.parentId.Given? && (cat.parentId == None || u.parentId.value == cat.id || !IsRoot(rows, u.parentId.value)))
  }

  /** An update goes through exactly if its hours are good, it moves nowhere it must not,
      an automatic service keeps a text and an assignee that is sent fits. */
  lemma {:induction false} UpdateAccepted(rows: Rows, users: Users, cat: Category, u: Update)
    ensures Applied(rows, users, cat, u).Success? <==>
      && (u.slaHours.Given? ==> GoodHours(u.slaHours.value))
      && !BadMove(rows, cat, u)
      && (cat.parentId.Some? ==> !Speechless(Routed(cat, u), Answers(cat, u)))
      && (u.assigneeId.Given? ==> GoodAssignee(users, Routed(cat, u), Some(u.assigneeId.value)))
  {
    if u.autoReplyText.Given? {
      StripBlank(u.autoReplyText.value);
    }
  }

  // Taking out of use.

  /** After deactivation nothing can be filed under the row, nor under any service
      beneath it. */
  lemma {:induction false} DeactivatedTakesNothing(rows: Rows, users: Users, id: int, service: int, typeId: Option<int>)
    requires id in rows && service in rows && (service == id || rows[service].parentId == Some(id))
    ensures ResolveService(Step(rows, users, Deactivate(id)), service, typeId).Failure?
  {
  }
}
