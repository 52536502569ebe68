/** The two-level catalogue (backend/app/services/catalog_service.py): request
    types with service types beneath them. */
module Catalogue {
  import opened Wrappers
  import opened Text
  import opened People

  datatype Routing = AutoReply | FacultyManager | GeneralManager

  datatype Priority = Low | Normal | High | Critical

  datatype Category = Category(
    id: int, parentId: Option<int>, name: string, description: Option<string>,
    slaHours: int, priority: Priority, routing: Routing,
    autoReplyText: Option<string>, autoReplyDescription: Option<string>,
    assigneeId: Option<int>, isActive: bool)

  type Rows = map<int, Category>
  type Users = map<int, User>

  /** A submitted form for a new row. */
  datatype NewCategory = NewCategory(
    parentId: Option<int>, name: string, description: Option<string>,
    slaHours: int, priority: Priority, routing: Routing,
    autoReplyText: Option<string>, autoReplyDescription: Option<string>, assigneeId: Option<int>)

  /** One key of a partial update: not sent, sent as null, or sent with a value. */
  datatype Sent<T> = Absent | Null | Given(value: T)
  {
    /** For a nullable column. */
    function Or(was: Option<T>): Option<T> {
      match this case Absent => was case Null => None case Given(v) => Some(v)
    }

    /** For a NOT NULL column an explicit null means "leave it". */
    function OrKeep(was: T): T {
      match this case Absent => was case Null => was case Given(v) => v
    }
  }

  datatype Update = Update(
    parentId: Sent<int>, name: Sent<string>, description: Sent<string>,
    slaHours: Sent<int>, priority: Sent<Priority>, routing: Sent<Routing>,
    autoReplyText: Sent<string>, autoReplyDescription: Sent<string>,
    assigneeId: Sent<int>, isActive: Sent<bool>)

  /** The range the request schema accepts. */
  predicate ValidHours(h: int) {
    1 <= h <= 720
  }

  /** `_parent_request_type`: only an existing root may be a parent. */
  function ParentRequestType(rows: Rows, parentId: int, moving: Option<int>): Result<int, Refusal> {
    if moving == Some(parentId) then Failure(BadRequest)
    else if parentId !in rows then Failure(NotFound)
    else if rows[parentId].parentId.Some? then Failure(BadRequest)
    else Success(parentId)
  }

  /** `_check_auto_reply` passes. */
  predicate AutoReplyOk(routing: Routing, text: Option<string>) {
    routing.AutoReply? ==> Clean(text).Some?
  }

  /** `_check_assignee` passes. */
  predicate AssigneeOk(users: Users, routing: Routing, assigneeId: Option<int>) {
    assigneeId.Some? ==>
      && routing.GeneralManager?
      && assigneeId.value in users && users[assigneeId.value].TakesRequests()
  }

  /** `build_category`, behind the schema's check of the hours. */
  function Build(rows: Rows, users: Users, id: int, data: NewCategory): Result<Category, Refusal> {
    if !ValidHours(data.slaHours) then Failure(Unprocessable)
    else if data.parentId.None? then
      Success(Category(id, None, Strip(data.name), Clean(data.description), 24, Normal, FacultyManager,
                       None, None, None, true))
    else
      var parent := ParentRequestType(rows, data.parentId.value, None);
      if parent.Failure? then Failure(parent.error)
      else if !AutoReplyOk(data.routing, data.autoReplyText) then Failure(Unprocessable)
      else if !AssigneeOk(users, data.routing, data.assigneeId) then Failure(BadRequest)
      else Success(Category(id, Some(parent.value), Strip(data.name), Clean(data.description),
                            data.slaHours, data.priority, data.routing,
                            Clean(data.autoReplyText), Clean(data.autoReplyDescription),
                            data.assigneeId, true))
  }

  /** The columns after a payload is written over them, before any check. */
  function Written(cat: Category, u: Update): Category {
    cat.(parentId := u.parentId.Or(cat.parentId),
         name := if u.name.Given? then Strip(u.name.value) else cat.name,
         description := if u.description.Absent? then cat.description else Clean(u.description.Or(None)),
         slaHours := u.slaHours.OrKeep(cat.slaHours),
         priority := u.priority.OrKeep(cat.priority),
         routing := u.routing.OrKeep(cat.routing),
         autoReplyText :=
           if u.autoReplyText.Absent? then cat.autoReplyText else Clean(u.autoReplyText.Or(None)),
         autoReplyDescription :=
           if u.autoReplyDescription.Absent? then cat.autoReplyDescription
           else Clean(u.autoReplyDescription.Or(None)),
         assigneeId := u.assigneeId.Or(cat.assigneeId),
         isActive := u.isActive.OrKeep(cat.isActive))
  }

  /** `apply_category_update`, behind the schema's check of the hours. */
  function Applied(rows: Rows, users: Users, cat: Category, u: Update): Result<Category, Refusal> {
    if u.slaHours.Given? && !ValidHours(u.slaHours.value) then Failure(Unprocessable)
    else if !u.parentId.Absent? && u.parentId.Null? != cat.parentId.None? then Failure(BadRequest)
    else if u.parentId.Given? && ParentRequestType(rows, u.parentId.value, Some(cat.id)).Failure? then
      Failure(ParentRequestType(rows, u.parentId.value, Some(cat.id)).error)
    else
      var w := Written(cat, u);
      if w.parentId.Some? && !AutoReplyOk(w.routing, w.autoReplyText) then Failure(Unprocessable)
      else if !u.assigneeId.Absent? then
        if AssigneeOk(users, w.routing, w.assigneeId) then Success(w) else Failure(BadRequest)
      else if !w.routing.GeneralManager? then Success(w.(assigneeId := None))
      else Success(w)
  }

  /** A row of the table, updated in place. */
  class CategoryRow {
    var id: int
    var parentId: Option<int>
    var name: string
    var description: Option<string>
    var slaHours: int
    var priority: Priority
    var routing: Routing
    var autoReplyText: Option<string>
    var autoReplyDescription: Option<string>
    var assigneeId: Option<int>
    var isActive: bool

    function Value(): Category
      reads this
    {
      Category(id, parentId, name, description, slaHours, priority, routing,
               autoReplyText, autoReplyDescription, assigneeId, isActive)
    }

    constructor (c: Category)
      ensures Value() == c
    {
      new;
      Restore(c);
    }

    /** The session throws a refused change away. */
    method Restore(c: Category)
      modifies this
      ensures Value() == c
    {
      id, parentId, name, description := c.id, c.parentId, c.name, c.description;
      slaHours, priority, routing := c.slaHours, c.priority, c.routing;
      autoReplyText, autoReplyDescription := c.autoReplyText, c.autoReplyDescription;
      assigneeId, isActive := c.assigneeId, c.isActive;
    }

    method WriteTexts(u: Update)
      modifies `name, `description, `autoReplyText, `autoReplyDescription
      ensures var w := Written(old(Value()), u);
        && name == w.name && description == w.description
        && autoReplyText == w.autoReplyText && autoReplyDescription == w.autoReplyDescription
    {
      if u.name.Given? { name := Strip(u.name.value); }
      if !u.description.Absent? { description := Clean(u.description.Or(None)); }
      if !u.autoReplyText.Absent? { autoReplyText := Clean(u.autoReplyText.Or(None)); }
      if !u.autoReplyDescription.Absent? { autoReplyDescription := Clean(u.autoReplyDescription.Or(None)); }
    }

    /** The payload's keys are set one by one. */
    method Write(u: Update)
      modifies this
      ensures Value() == Written(old(Value()), u)
    {
      WriteTexts(u);
      parentId := u.parentId.Or(parentId);
      slaHours := u.slaHours.OrKeep(slaHours);
      priority := u.priority.OrKeep(priority);
      routing := u.routing.OrKeep(routing);
      assigneeId := u.assigneeId.Or(assigneeId);
      isActive := u.isActive.OrKeep(isActive);
    }

    /** The row is written before it is checked, as in the program; a failed check
        rolls it back. */
    method ApplyUpdate(rows: Rows, users: Users, u: Update) returns (outcome: Outcome)
      modifies this
      ensures match Applied(rows, users, old(Value()), u)
              case Success(c) => outcome == Done && Value() == c
              case Failure(why) => outcome == Refused(why) && Value() == old(Value())
    {
      if u.slaHours.Given? && !ValidHours(u.slaHours.value) {
        return Refused(Unprocessable);
      }
      if !u.parentId.Absent? {
        if u.parentId.Null? != parentId.None? {
          return Refused(BadRequest);
        }
        if u.parentId.Given? {
          var parent := ParentRequestType(rows, u.parentId.value, Some(id));
          if parent.Failure? {
            return Refused(parent.error);
          }
        }
      }
      var before := Value();
      Write(u);
      if parentId.Some? && !AutoReplyOk(routing, autoReplyText) {
        Restore(before);
        return Refused(Unprocessable);
      }
      if !u.assigneeId.Absent? {
        if !AssigneeOk(users, routing, assigneeId) {
          Restore(before);
          return Refused(BadRequest);
        }
      } else if !routing.GeneralManager? {
        assigneeId := None;
      }
      return Done;
    }
  }

  // What every run of the catalogue keeps.

  /** Exactly two levels. */
  ghost predicate TwoLevels(rows: Rows) {
    forall i :: i in rows && rows[i].parentId.Some? ==>
      rows[i].parentId.value in rows && rows[rows[i].parentId.value].parentId.None?
  }

  /** A service that answers by itself has something to say. */
  predicate CanAnswer(c: Category) {
    c.parentId.Some? && c.routing.AutoReply? ==> c.autoReplyText.Some? && !Blank(c.autoReplyText.value)
  }

  predicate RowOk(c: Category) {
    CanAnswer(c) && ValidHours(c.slaHours) && (c.assigneeId.Some? ==> c.routing.GeneralManager?)
  }

  ghost predicate Sound(rows: Rows) {
    && TwoLevels(rows)
    && forall i :: i in rows ==> rows[i].id == i && RowOk(rows[i])
  }

  datatype Action =
    | Create(id: int, data: NewCategory)
    | Change(id: int, update: Update)
    | Deactivate(id: int)

  /** One admin call; `users` is whoever is employed at that moment. A refused
      call changes nothing. New ids come from the database and are unused. */
  function Step(rows: Rows, users: Users, a: Action): Rows {
    match a
    case Create(id, data) =>
      var c := Build(rows, users, id, data);
      if id !in rows && c.Success? then rows[id := c.value] else rows
    case Change(id, u) =>
      if id !in rows then rows
      else
        var c := Applied(rows, users, rows[id], u);
        if c.Success? then rows[id := c.value] else rows
    case Deactivate(id) =>
      if id in rows then rows[id := rows[id].(isActive := false)] else rows
  }

  function Run(rows: Rows, calls: seq<(Users, Action)>): Rows
    decreases |calls|
  {
    if calls == [] then rows else Run(Step(rows, calls[0].0, calls[0].1), calls[1..])
  }

  lemma {:induction false} StepSound(rows: Rows, users: Users, a: Action)
    requires Sound(rows)
    ensures Sound(Step(rows, users, a))
    ensures forall i :: i in rows ==>
      i in Step(rows, users, a) && Step(rows, users, a)[i].parentId.Some? == rows[i].parentId.Some?
  {
    match a
    case Create(id, data) =>
      if Build(rows, users, id, data).Success? {
        BuildOk(rows, users, id, data);
      }
    case Change(id, u) =>
      if id in rows && Applied(rows, users, rows[id], u).Success? {
        AppliedOk(rows, users, rows[id], u);
      }
    case Deactivate(id) =>
  }

  /** A parent is absent or an existing root. */
  ghost predicate ParentOk(rows: Rows, parentId: Option<int>) {
    parentId.Some? ==> parentId.value in rows && rows[parentId.value].parentId.None?
  }

  lemma {:induction false} BuildOk(rows: Rows, users: Users, id: int, data: NewCategory)
    requires Build(rows, users, id, data).Success?
    ensures var c := Build(rows, users, id, data).value;
      c.id == id && RowOk(c) && ParentOk(rows, c.parentId)
  {
  }

  lemma {:induction false} AppliedOk(rows: Rows, users: Users, cat: Category, u: Update)
    requires cat.id in rows && rows[cat.id] == cat && RowOk(cat) && ParentOk(rows, cat.parentId)
    requires Applied(rows, users, cat, u).Success?
    ensures var c := Applied(rows, users, cat, u).value;
      && c.id == cat.id && RowOk(c) && ParentOk(rows, c.parentId)
      && c.parentId.Some? == cat.parentId.Some? && c.parentId != Some(cat.id)
  {
  }

  /** Every run of creates, updates and deactivations keeps the catalogue sound,
      and a request type never turns into a service type or back. */
  lemma {:induction false} RunSound(rows: Rows, calls: seq<(Users, Action)>)
    requires Sound(rows)
    ensures Sound(Run(rows, calls))
    ensures forall i :: i in rows ==>
      i in Run(rows, calls) && Run(rows, calls)[i].parentId.Some? == rows[i].parentId.Some?
    decreases |calls|
  {
    if calls != [] {
      StepSound(rows, calls[0].0, calls[0].1);
      RunSound(Step(rows, calls[0].0, calls[0].1), calls[1..]);
    }
  }

  // Listing and acceptance.

  /** `resolve_service`. */
  function ResolveService(rows: Rows, serviceId: int, typeId: Option<int>): Result<Category, Refusal> {
    if serviceId !in rows || !rows[serviceId].isActive || rows[serviceId].parentId.None? then Failure(BadRequest)
    else
      var parent := rows[serviceId].parentId.value;
      if parent !in rows || !rows[parent].isActive then Failure(BadRequest)
      else if typeId.Some? && typeId.value != parent then Failure(BadRequest)
      else Success(rows[serviceId])
  }

  /** The rows the tree is built from: the active ones, in any order, once each. */
  ghost predicate ActiveListing(rows: Rows, listed: seq<Category>) {
    && (forall k :: 0 <= k < |listed| ==> listed[k].id in rows && rows[listed[k].id] == listed[k] && listed[k].isActive)
    && (forall i :: i in rows && rows[i].isActive ==> rows[i] in listed)
    && (forall j, k :: 0 <= j < k < |listed| ==> listed[j].id != listed[k].id)
  }

  /** The ids of the rows with this parent, in the order listed. */
  function IdsUnder(listed: seq<Category>, parent: Option<int>): seq<int> {
    if listed == [] then []
    else
      var init, last := listed[..|listed| - 1], listed[|listed| - 1];
      IdsUnder(init, parent) + if last.parentId == parent then [last.id] else []
  }

  lemma {:induction false} InIdsUnder(listed: seq<Category>, parent: Option<int>, id: int)
    ensures id in IdsUnder(listed, parent) <==>
            exists k :: 0 <= k < |listed| && listed[k].id == id && listed[k].parentId == parent
  {
    if listed != [] {
      var init, last := listed[..|listed| - 1], listed[|listed| - 1];
      InIdsUnder(init, parent, id);
      assert listed == init + [last];
      if k :| 0 <= k < |init| && init[k].id == id && init[k].parentId == parent {
        assert listed[k] == init[k];
      }
      if last.id == id && last.parentId == parent {
        assert listed[|listed| - 1] == last;
      }
    }
  }

  /** The child lists hold the first `i` rows. */
  ghost predicate Attached(children: map<int, seq<int>>, listed: seq<Category>, i: nat)
    requires i <= |listed|
  {
    forall p :: p in children ==> children[p] == IdsUnder(listed[..i], Some(p))
  }

  lemma {:induction false} AttachOne(children: map<int, seq<int>>, listed: seq<Category>, i: nat)
    requires i < |listed| && Attached(children, listed, i)
    ensures IdsUnder(listed[..i + 1], None)
         == IdsUnder(listed[..i], None) + if listed[i].parentId.None? then [listed[i].id] else []
    ensures listed[i].parentId.None? ==> Attached(children, listed, i + 1)
    ensures listed[i].parentId.Some? ==>
      var p := listed[i].parentId.value;
      if p in children then Attached(children[p := children[p] + [listed[i].id]], listed, i + 1)
      else Attached(children, listed, i + 1)
  {
    assert listed[..i + 1][..i] == listed[..i];
  }

  method Nodes(listed: seq<Category>) returns (children: map<int, seq<int>>)
    ensures forall p :: p in children <==> exists k :: 0 <= k < |listed| && listed[k].id == p
    ensures forall p :: p in children ==> children[p] == []
  {
    children := map[];
    for i := 0 to |listed|
      invariant forall p :: p in children <==> exists k :: 0 <= k < i && listed[k].id == p
      invariant forall p :: p in children ==> children[p] == []
    {
      children := children[listed[i].id := []];
    }
  }

  /** `category_tree`: a node for every listed row, then each row appended to the
      roots or to its parent's children; a row whose parent is not listed is left
      out. `children` maps a node to its list. */
  method CategoryTree(listed: seq<Category>) returns (roots: seq<int>, children: map<int, seq<int>>)
    ensures roots == IdsUnder(listed, None)
    ensures forall p :: p in children <==> exists k :: 0 <= k < |listed| && listed[k].id == p
    ensures forall p :: p in children ==> children[p] == IdsUnder(listed, Some(p))
  {
    roots := [];
    children := Nodes(listed);
    for i := 0 to |listed|
      invariant roots == IdsUnder(listed[..i], None)
      invariant forall p :: p in children <==> exists k :: 0 <= k < |listed| && listed[k].id == p
      invariant Attached(children, listed, i)
    {
      var row := listed[i];
      AttachOne(children, listed, i);
      if row.parentId.None? {
        roots := roots + [row.id];
      } else if row.parentId.value in children {
        children := children[row.parentId.value := children[row.parentId.value] + [row.id]];
      }
    }
    assert listed[..|listed|] == listed;
  }

  /** Beneath an active root: the service is in the child list of a listed root. */
  ghost predicate ListedBeneath(listed: seq<Category>, root: int, service: int) {
    root in IdsUnder(listed, None) && service in IdsUnder(listed, Some(root))
  }

  /** In a sound catalogue a request is accepted for a service, with no request
      type or with the matching one, exactly when the tree lists it. */
  lemma {:induction false} ListedExactlyWhenAccepted(
      rows: Rows, listed: seq<Category>, service: int, typeId: Option<int>)
    requires Sound(rows) && ActiveListing(rows, listed)
    ensures ResolveService(rows, service, typeId).Success? <==>
            exists root :: ListedBeneath(listed, root, service) && (typeId.None? || typeId.value == root)
    ensures ResolveService(rows, service, typeId).Success? ==>
      service in rows && ResolveService(rows, service, typeId) == Success(rows[service])
  {
    forall root
      ensures ListedBeneath(listed, root, service) <==>
              && service in rows && rows[service].isActive && rows[service].parentId == Some(root)
              && root in rows && rows[root].isActive
    {
      InIdsUnder(listed, None, root);
      InIdsUnder(listed, Some(root), service);
    }
    if ResolveService(rows, service, typeId).Success? {
      assert ListedBeneath(listed, rows[service].parentId.value, service);
    }
  }
}
