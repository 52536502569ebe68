/** Automatic routing of a new request (backend/app/services/routing_service.py). */
module Routing {
  import opened Wrappers
  import opened People
  import Catalogue
  import Requests

  /** What routing reads of the stored requests: who holds each one and its status. */
  datatype Held = Held(assignedTo: Option<int>, status: Requests.Status)

  /** `_open_load`: how many open requests a user holds. */
  function OpenLoad(requests: seq<Held>, userId: int): nat {
    if requests == [] then 0
    else
      var last := requests[|requests| - 1];
      OpenLoad(requests[..|requests| - 1], userId)
      + if last.assignedTo == Some(userId) && last.status.Open() then 1 else 0
  }

  /** The requests that weigh on a user, by index: assigned to them and neither
      completed nor rejected. */
  function Weighing(requests: seq<Held>, userId: int): set<int> {
    set i | 0 <= i < |requests| && Weighs(requests[i], userId)
  }

  predicate Weighs(h: Held, userId: int) {
    && h.assignedTo == Some(userId)
    && h.status in {Requests.New, Requests.Accepted, Requests.InProgress, Requests.Returned}
  }

  lemma {:induction false} OneMoreWeighing(requests: seq<Held>, h: Held, userId: int)
    ensures |Weighing(requests + [h], userId)| == |Weighing(requests, userId)| + if Weighs(h, userId) then 1 else 0
  {
    var n, before, after := |requests|, Weighing(requests, userId), Weighing(requests + [h], userId);
    forall i | 0 <= i < n
      ensures (requests + [h])[i] == requests[i]
    {
    }
    assert (requests + [h])[n] == h;
    assert before <= after <= before + {n};
    assert after == if Weighs(h, userId) then before + {n} else before;
  }

  /** The load is how many those are. */
  lemma {:induction false} LoadIsNumber(requests: seq<Held>, userId: int)
    ensures OpenLoad(requests, userId) == |Weighing(requests, userId)|
  {
    if requests == [] {
      assert Weighing(requests, userId) == {};
    } else {
      var init, last := requests[..|requests| - 1], requests[|requests| - 1];
      LoadIsNumber(init, userId);
      OneMoreWeighing(init, last, userId);
      assert requests == init + [last];
    }
  }

  /** `min` by (load, id). */
  predicate Before(requests: seq<Held>, a: User, b: User) {
    var la, lb := OpenLoad(requests, a.id), OpenLoad(requests, b.id);
    la < lb || (la == lb && a.id <= b.id)
  }

  /** `_least_loaded`. */
  function LeastLoaded(requests: seq<Held>, candidates: seq<User>): (r: Option<User>)
    ensures r.None? <==> candidates == []
    ensures r.Some? ==> r.value in candidates
    ensures r.Some? ==> forall k :: 0 <= k < |candidates| ==> Before(requests, r.value, candidates[k])
  {
    if candidates == [] then None
    else if |candidates| == 1 then Some(candidates[0])
    else
      var rest := LeastLoaded(requests, candidates[1..]);
      assert forall k :: 1 <= k < |candidates| ==> candidates[k] == candidates[1..][k - 1];
      if Before(requests, candidates[0], rest.value) then Some(candidates[0]) else rest
  }

  /** The users a query keeps, in the order of the table, which is by id. */
  function Where(users: seq<User>, p: User -> bool): (r: seq<User>)
    ensures forall u :: u in r <==> u in users && p(u)
  {
    if users == [] then []
    else
      assert users == [users[0]] + users[1..];
      (if p(users[0]) then [users[0]] else []) + Where(users[1..], p)
  }

  /** `_bound_employees`. */
  predicate Bound(u: User, role: Role, facultyId: int) {
    u.role == Some(role) && u.isActive && u.employee.Some? && u.employee.value.facultyId == Some(facultyId)
  }

  function BoundEmployees(users: seq<User>, role: Role, facultyId: int): seq<User> {
    Where(users, (u: User) => Bound(u, role, facultyId))
  }

  predicate InDepartment(u: User, departmentId: int) {
    u.employee.Some? && u.employee.value.departmentId == Some(departmentId)
  }

  /** `find_staff_for`: the student's own department first, then anyone of the faculty. */
  function FindStaffFor(
      users: seq<User>, requests: seq<Held>, facultyId: int, departmentId: Option<int>): Option<User> {
    var staff := BoundEmployees(users, Staff, facultyId);
    if departmentId.Some? then
      var same := Where(staff, (u: User) => InDepartment(u, departmentId.value));
      if same != [] then LeastLoaded(requests, same) else LeastLoaded(requests, staff)
    else LeastLoaded(requests, staff)
  }

  predicate GeneralManager(u: User) {
    u.TakesRequests() && u.employee.Some? && u.employee.value.isGeneralManager
  }

  function FindServiceAssignee(users: seq<User>, id: int): Option<User> {
    var found := Where(users, (u: User) => u.id == id && u.TakesRequests());
    if found == [] then None else Some(found[0])
  }

  datatype Failure = StudentHasNoFaculty | NoHandlerForFaculty | NoGeneralManager

  /** `resolve_handler_for_student`. */
  function ForStudent(users: seq<User>, requests: seq<Held>, student: User): Result<User, Failure> {
    if student.FacultyId().None? then Result.Failure(StudentHasNoFaculty)
    else
      var faculty := student.FacultyId().value;
      var staff := FindStaffFor(users, requests, faculty, student.DepartmentId());
      if staff.Some? then Success(staff.value)
      else
        var registrator := LeastLoaded(requests, BoundEmployees(users, Registrator, faculty));
        if registrator.Some? then Success(registrator.value) else Result.Failure(NoHandlerForFaculty)
  }

  /** `resolve_handler`. */
  function ResolveHandler(users: seq<User>, requests: seq<Held>, student: User, service: Catalogue.Category)
    : Result<User, Failure>
  {
    if service.routing.GeneralManager? then
      var chosen := if service.assigneeId.Some? then FindServiceAssignee(users, service.assigneeId.value) else None;
      if chosen.Some? then Success(chosen.value)
      else
        var manager := LeastLoaded(requests, Where(users, GeneralManager));
        if manager.Some? then Success(manager.value) else Result.Failure(NoGeneralManager)
    else ForStudent(users, requests, student)
  }

  // Only open requests count.

  /** The requests that are not closed. */
  function StillOpen(requests: seq<Held>): seq<Held> {
    if requests == [] then []
    else
      var last := requests[|requests| - 1];
      StillOpen(requests[..|requests| - 1])
      + if last.status in {Requests.Completed, Requests.Rejected} then [] else [last]
  }

  lemma {:induction false} OneMoreHeld(requests: seq<Held>, h: Held, u: int)
    ensures OpenLoad(requests + [h], u) == OpenLoad(requests, u) + if Weighs(h, u) then 1 else 0
  {
    assert (requests + [h])[..|requests|] == requests;
  }

  lemma {:induction false} ClosedWeighNothing(requests: seq<Held>, u: int)
    ensures OpenLoad(StillOpen(requests), u) == OpenLoad(requests, u)
  {
    if requests != [] {
      var init, last := requests[..|requests| - 1], requests[|requests| - 1];
      ClosedWeighNothing(init, u);
      OneMoreHeld(StillOpen(init), last, u);
      assert StillOpen(init) + [] == StillOpen(init);
    }
  }

  lemma {:induction false} ClosedDoNotDecide(requests: seq<Held>, candidates: seq<User>)
    ensures LeastLoaded(StillOpen(requests), candidates) == LeastLoaded(requests, candidates)
  {
    if |candidates| > 1 {
      ClosedDoNotDecide(requests, candidates[1..]);
      var rest := LeastLoaded(requests, candidates[1..]).value;
      ClosedWeighNothing(requests, candidates[0].id);
      ClosedWeighNothing(requests, rest.id);
    }
  }

  lemma {:induction false} ClosedDoNotRoute(users: seq<User>, requests: seq<Held>, student: User)
    ensures ForStudent(users, StillOpen(requests), student) == ForStudent(users, requests, student)
  {
    if student.FacultyId().Some? {
      var faculty := student.FacultyId().value;
      var staff := BoundEmployees(users, Staff, faculty);
      ClosedDoNotDecide(requests, staff);
      if student.DepartmentId().Some? {
        var department := student.DepartmentId().value;
        ClosedDoNotDecide(requests, Where(staff, (u: User) => InDepartment(u, department)));
      }
      ClosedDoNotDecide(requests, BoundEmployees(users, Registrator, faculty));
    }
  }

  /** Closed requests, however many, never change who gets a new one. */
  lemma {:induction false} OnlyOpenRequestsCount(
      users: seq<User>, requests: seq<Held>, student: User, service: Catalogue.Category)
    ensures ResolveHandler(users, StillOpen(requests), student, service)
         == ResolveHandler(users, requests, student, service)
  {
    ClosedDoNotRoute(users, requests, student);
    ClosedDoNotDecide(requests, Where(users, GeneralManager));
  }

  /** So an employee with a finished request is as free as one with none, and the lower
      id decides. */
  lemma {:induction false} FinishedWorkIsNoLoad(a: User, b: User)
    requires a.id < b.id
    ensures LeastLoaded([Held(Some(a.id), Requests.Completed)], [a, b]) == Some(a)
  {
    var requests := [Held(Some(a.id), Requests.Completed)];
    ClosedWeighNothing(requests, a.id);
    assert requests[..0] == [] && StillOpen(requests) == [];
    assert Before(requests, LeastLoaded(requests, [a, b]).value, [a, b][0]);
    assert OpenLoad(requests, a.id) == 0;
  }

  /** An active employee with this role, bound to this faculty. */
  predicate WorksFor(u: User, role: Role, facultyId: int) {
    u.isActive && u.role == Some(role) && u.employee.Some? && u.employee.value.facultyId == Some(facultyId)
  }

  /** A registrator is asked when no staff member works for the faculty, and then the one
      with the fewest open requests, the lower id deciding between equals. */
  lemma {:induction false} RegistratorByLoad(
      users: seq<User>, requests: seq<Held>, student: User, facultyId: int, u: User)
    requires student.FacultyId() == Some(facultyId) && !Staffed(users, Staff, facultyId)
    requires u in users && WorksFor(u, Registrator, facultyId)
    ensures var r := ForStudent(users, requests, student);
      && r.Success? && r.value in users && WorksFor(r.value, Registrator, facultyId)
      && (|Weighing(requests, r.value.id)| < |Weighing(requests, u.id)|
          || (|Weighing(requests, r.value.id)| == |Weighing(requests, u.id)| && r.value.id <= u.id))
  {
    FacultyRouting(users, requests, student, facultyId);
    WhereEmpty(users, (v: User) => Bound(v, Staff, facultyId));
    var registrators := BoundEmployees(users, Registrator, facultyId);
    assert u in registrators;
    var h := ForStudent(users, requests, student).value;
    assert Before(requests, h, u);
    LoadIsNumber(requests, h.id);
    LoadIsNumber(requests, u.id);
  }

  /** Staff bound to the faculty come before any registrator. */
  lemma {:induction false} StaffFirst(users: seq<User>, requests: seq<Held>, student: User, facultyId: int, u: User)
    requires student.FacultyId() == Some(facultyId) && u in users && WorksFor(u, Staff, facultyId)
    ensures var r := ForStudent(users, requests, student);
      r.Success? && r.value in users && WorksFor(r.value, Staff, facultyId)
  {
    assert Bound(u, Staff, facultyId);
    FacultyRouting(users, requests, student, facultyId);
  }

  /** Who may receive a request: never anyone who could not work on it. */
  lemma {:induction false} HandlerTakesRequests(
      users: seq<User>, requests: seq<Held>, student: User, service: Catalogue.Category)
    requires ResolveHandler(users, requests, student, service).Success?
    ensures var h := ResolveHandler(users, requests, student, service).value;
      h in users && h.TakesRequests()
  {
  }

  lemma {:induction false} WhereEmpty(users: seq<User>, p: User -> bool)
    ensures Where(users, p) == [] <==> !exists u :: u in users && p(u)
  {
    if Where(users, p) != [] {
      assert Where(users, p)[0] in Where(users, p);
    }
  }

  ghost predicate Staffed(users: seq<User>, role: Role, facultyId: int) {
    exists u :: u in users && Bound(u, role, facultyId)
  }

  /** By faculty, routing fails exactly when nobody active is bound to it, and a
      registrator is used exactly when no staff member is. */
  lemma {:induction false} FacultyRouting(users: seq<User>, requests: seq<Held>, student: User, facultyId: int)
    requires student.FacultyId() == Some(facultyId)
    ensures var r := ForStudent(users, requests, student);
      && (r.Failure? <==> !Staffed(users, Staff, facultyId) && !Staffed(users, Registrator, facultyId))
      && (r.Success? ==> r.value in users)
      && (r.Success? ==> Bound(r.value, if Staffed(users, Staff, facultyId) then Staff else Registrator, facultyId))
  {
    WhereEmpty(users, (u: User) => Bound(u, Staff, facultyId));
    WhereEmpty(users, (u: User) => Bound(u, Registrator, facultyId));
  }

  /** The student's own department comes first when it has staff. */
  lemma {:induction false} DepartmentFirst(
      users: seq<User>, requests: seq<Held>, facultyId: int, departmentId: int, u: User)
    requires u in users && Bound(u, Staff, facultyId) && InDepartment(u, departmentId)
    ensures var h := FindStaffFor(users, requests, facultyId, Some(departmentId));
      h.Some? && InDepartment(h.value, departmentId) && Bound(h.value, Staff, facultyId)
  {
    var staff := BoundEmployees(users, Staff, facultyId);
    assert u in staff;
    assert u in Where(staff, (v: User) => InDepartment(v, departmentId));
  }

  /** Among those routing may choose from, nobody carries less: the staff of the
      student's department if it has any, and otherwise all staff of the faculty. */
  lemma {:induction false} NobodyCarriesLess(
      users: seq<User>, requests: seq<Held>, facultyId: int, departmentId: Option<int>, u: User)
    requires u in users && Bound(u, Staff, facultyId)
    ensures var h := FindStaffFor(users, requests, facultyId, departmentId);
      h.Some? &&
      (InDepartmentIfAny(users, facultyId, departmentId, u) ==> Before(requests, h.value, u))
  {
    var staff := BoundEmployees(users, Staff, facultyId);
    assert u in staff;
    if departmentId.Some? {
      var same := Where(staff, (v: User) => InDepartment(v, departmentId.value));
      assert InDepartment(u, departmentId.value) ==> u in same;
      if same != [] {
        assert same[0] in same;
      }
    }
  }

  /** `u` is of this department, or none of the faculty's staff is. */
  ghost predicate InDepartmentIfAny(users: seq<User>, facultyId: int, departmentId: Option<int>, u: User) {
    departmentId.Some? ==>
      || InDepartment(u, departmentId.value)
      || !exists v :: v in users && Bound(v, Staff, facultyId) && InDepartment(v, departmentId.value)
  }

  ghost predicate Named(users: seq<User>, service: Catalogue.Category) {
    exists u :: u in users && service.assigneeId == Some(u.id) && u.TakesRequests()
  }

  ghost predicate Managed(users: seq<User>) {
    exists u :: u in users && GeneralManager(u)
  }

  /** An active staff member or registrator marked as a general manager. */
  lemma {:induction false} WhoManages(u: User)
    ensures GeneralManager(u) <==>
      && u.isActive && u.role in {Some(Staff), Some(Registrator)}
      && u.employee.Some? && u.employee.value.isGeneralManager
  {
  }

  /** A general service goes to the employee it names exactly while that one can
      take requests, otherwise to a general manager, and fails exactly when there
      is neither. */
  lemma {:induction false} GeneralRouting(
      users: seq<User>, requests: seq<Held>, student: User, service: Catalogue.Category)
    requires service.routing.GeneralManager?
    ensures var r := ResolveHandler(users, requests, student, service);
      && (r.Failure? <==> !Named(users, service) && !Managed(users))
      && (Named(users, service) ==> r.Success? && Some(r.value.id) == service.assigneeId)
      && (!Named(users, service) && r.Success? ==> GeneralManager(r.value))
      && (!Named(users, service) && r.Success? ==>
            forall u :: u in users && GeneralManager(u) ==> Before(requests, r.value, u))
  {
    WhereEmpty(users, GeneralManager);
    if service.assigneeId.Some? {
      var p := (u: User) => u.id == service.assigneeId.value && u.TakesRequests();
      WhereEmpty(users, p);
      var found := Where(users, p);
      if found != [] {
        assert found[0] in found;
      }
    }
  }

  // Balance.

  ghost predicate DistinctIds(pool: seq<User>) {
    forall j, k :: 0 <= j < k < |pool| ==> pool[j].id != pool[k].id
  }

  /** One filing to the least loaded of the pool. */
  function FiledOnce(requests: seq<Held>, pool: seq<User>): seq<Held>
    requires pool != []
  {
    requests + [Held(Some(LeastLoaded(requests, pool).value.id), Requests.InProgress)]
  }

  /** Requests after `n` filings that each go to the least loaded of one pool. */
  function Filed(requests: seq<Held>, pool: seq<User>, n: nat): seq<Held>
    requires pool != []
    decreases n
  {
    if n == 0 then requests else Filed(FiledOnce(requests, pool), pool, n - 1)
  }

  /** The loads of the pool stay within `gap` of each other. */
  ghost predicate Within(requests: seq<Held>, pool: seq<User>, gap: nat) {
    forall j, k :: 0 <= j < |pool| && 0 <= k < |pool| ==> Close(requests, pool[j], pool[k], gap)
  }

  predicate Close(requests: seq<Held>, a: User, b: User, gap: nat) {
    OpenLoad(requests, a.id) <= OpenLoad(requests, b.id) + gap
  }

  lemma {:induction false} OneMoreLoad(requests: seq<Held>, to: int, u: int)
    ensures OpenLoad(requests + [Held(Some(to), Requests.InProgress)], u)
         == OpenLoad(requests, u) + if u == to then 1 else 0
  {
    assert (requests + [Held(Some(to), Requests.InProgress)])[..|requests|] == requests;
  }

  lemma {:induction false} GapKept(requests: seq<Held>, pool: seq<User>, n: nat, gap: nat)
    requires pool != [] && Within(requests, pool, gap) && gap >= 1
    ensures Within(Filed(requests, pool, n), pool, gap)
    decreases n
  {
    if n > 0 {
      NextKeepsGap(requests, pool, gap);
      GapKept(FiledOnce(requests, pool), pool, n - 1, gap);
    }
  }

  /** Filings never widen the gap between the highest and the lowest load, once it
      is at least one. */
  lemma {:induction false} GapNeverGrows(requests: seq<Held>, pool: seq<User>, n: nat, gap: nat)
    requires pool != [] && Within(requests, pool, gap)
    ensures Within(Filed(requests, pool, n), pool, Max(1, gap))
  {
    WithinWider(requests, pool, gap, Max(1, gap));
    GapKept(requests, pool, n, Max(1, gap));
  }

  lemma {:induction false} WithinWider(requests: seq<Held>, pool: seq<User>, gap: nat, wider: nat)
    requires Within(requests, pool, gap) && gap <= wider
    ensures Within(requests, pool, wider)
  {
    forall j, k | 0 <= j < |pool| && 0 <= k < |pool|
      ensures Close(requests, pool[j], pool[k], wider)
    {
      assert Close(requests, pool[j], pool[k], gap);
    }
  }

  lemma {:induction false} NextKeepsGap(requests: seq<Held>, pool: seq<User>, gap: nat)
    requires pool != [] && Within(requests, pool, gap) && gap >= 1
    ensures Within(FiledOnce(requests, pool), pool, gap)
  {
    FilingKeepsGap(requests, pool, LeastLoaded(requests, pool).value, gap);
  }

  lemma {:induction false} FilingKeepsGap(requests: seq<Held>, pool: seq<User>, least: User, gap: nat)
    requires Within(requests, pool, gap) && gap >= 1
    requires forall k :: 0 <= k < |pool| ==> Before(requests, least, pool[k])
    ensures Within(requests + [Held(Some(least.id), Requests.InProgress)], pool, gap)
  {
    var after := requests + [Held(Some(least.id), Requests.InProgress)];
    forall j, k | 0 <= j < |pool| && 0 <= k < |pool|
      ensures Close(after, pool[j], pool[k], gap)
    {
      assert Close(requests, pool[j], pool[k], gap);
      OneMoreLoad(requests, least.id, pool[j].id);
      OneMoreLoad(requests, least.id, pool[k].id);
      assert Before(requests, least, pool[k]);
    }
  }

  function TotalLoad(requests: seq<Held>, pool: seq<User>): nat {
    if pool == [] then 0 else OpenLoad(requests, pool[0].id) + TotalLoad(requests, pool[1..])
  }

  lemma {:induction false} TotalOneMore(requests: seq<Held>, pool: seq<User>, to: int)
    requires DistinctIds(pool)
    ensures TotalLoad(requests + [Held(Some(to), Requests.InProgress)], pool)
         == TotalLoad(requests, pool) + if exists k :: 0 <= k < |pool| && pool[k].id == to then 1 else 0
  {
    if pool != [] {
      OneMoreLoad(requests, to, pool[0].id);
      TotalOneMore(requests, pool[1..], to);
      assert forall k :: 1 <= k < |pool| ==> pool[k] == pool[1..][k - 1];
      if k :| 0 <= k < |pool| && pool[k].id == to {
        if k > 0 {
          assert pool[1..][k - 1].id == to;
        }
      }
    }
  }

  /** Every filing adds one to the pool's total. */
  lemma {:induction false} TotalAfter(requests: seq<Held>, pool: seq<User>, n: nat)
    requires pool != [] && DistinctIds(pool)
    ensures TotalLoad(Filed(requests, pool, n), pool) == TotalLoad(requests, pool) + n
    decreases n
  {
    if n > 0 {
      TotalAfterOne(requests, pool);
      TotalAfter(FiledOnce(requests, pool), pool, n - 1);
    }
  }

  lemma {:induction false} TotalAfterOne(requests: seq<Held>, pool: seq<User>)
    requires pool != [] && DistinctIds(pool)
    ensures TotalLoad(FiledOnce(requests, pool), pool) == TotalLoad(requests, pool) + 1
  {
    var least := LeastLoaded(requests, pool).value;
    TotalOneMore(requests, pool, least.id);
    var k :| 0 <= k < |pool| && pool[k] == least;
    assert pool[k].id == least.id;
  }

  /** How many of the pool hold more than `low`, each only one more. */
  lemma {:induction false} Excess(requests: seq<Held>, pool: seq<User>, low: nat) returns (above: nat)
    requires forall k :: 0 <= k < |pool| ==> low <= OpenLoad(requests, pool[k].id) <= low + 1
    ensures TotalLoad(requests, pool) == low * |pool| + above && above <= |pool|
    ensures forall k :: 0 <= k < |pool| && OpenLoad(requests, pool[k].id) == low ==> above < |pool|
    ensures forall k :: 0 <= k < |pool| && OpenLoad(requests, pool[k].id) == low + 1 ==> above > 0
  {
    above := 0;
    if pool != [] {
      assert forall k :: 1 <= k < |pool| ==> pool[k] == pool[1..][k - 1];
      above := Excess(requests, pool[1..], low);
      LowTimes(low, |pool|);
      above := above + OpenLoad(requests, pool[0].id) - low;
    }
  }

  lemma {:induction false} LowTimes(low: nat, count: nat)
    requires count > 0
    ensures low * count == low * (count - 1) + low
  {
  }

  lemma {:induction false} Quotient(total: int, count: int, low: int)
    requires count > 0 && low * count <= total < (low + 1) * count
    ensures total / count == low
    ensures (total + count - 1) / count == if total == low * count then low else low + 1
  {
    Divide(total, count, low);
    if total == low * count {
      Divide(total + count - 1, count, low);
    } else {
      assert (low + 2) * count == (low + 1) * count + count;
      Divide(total + count - 1, count, low + 1);
    }
  }

  lemma {:induction false} Scale(a: int, b: int, c: int)
    requires a <= b && c >= 0
    ensures a * c <= b * c
  {
  }

  lemma {:induction false} Divide(total: int, count: int, q: int)
    requires count > 0 && q * count <= total < (q + 1) * count
    ensures total / count == q
  {
    var d := total / count;
    assert d * count <= total < d * count + count;
    if d < q {
      Scale(d + 1, q, count);
    } else if q < d {
      Scale(q + 1, d, count);
    }
  }

  /** Someone of the pool has the lowest load. */
  lemma {:induction false} LowestLoad(requests: seq<Held>, pool: seq<User>) returns (j: nat)
    requires pool != []
    ensures j < |pool|
    ensures forall k :: 0 <= k < |pool| ==> OpenLoad(requests, pool[j].id) <= OpenLoad(requests, pool[k].id)
  {
    var least := LeastLoaded(requests, pool).value;
    j :| 0 <= j < |pool| && pool[j] == least;
    assert forall k :: 0 <= k < |pool| ==> Before(requests, least, pool[k]);
  }

  /** The average of `total` over `count`, rounded down or up. */
  predicate IsAverage(load: nat, total: nat, count: nat)
    requires count > 0
  {
    load == total / count || load == (total + count - 1) / count
  }

  lemma {:induction false} LoadIsAverage(requests: seq<Held>, pool: seq<User>, total: nat, k: nat)
    requires Within(requests, pool, 1) && total == TotalLoad(requests, pool) && k < |pool|
    ensures IsAverage(OpenLoad(requests, pool[k].id), total, |pool|)
  {
    var j := LowestLoad(requests, pool);
    var low := OpenLoad(requests, pool[j].id);
    forall i | 0 <= i < |pool|
      ensures low <= OpenLoad(requests, pool[i].id) <= low + 1
    {
      assert Close(requests, pool[i], pool[j], 1);
    }
    var above := Excess(requests, pool, low);
    Quotient(total, |pool|, low);
  }

  /** From loads within one of each other, after any number of filings every load
      is the average rounded down or up. */
  lemma {:induction false} LoadsAreAverage(requests: seq<Held>, pool: seq<User>, n: nat, k: nat)
    requires pool != [] && DistinctIds(pool) && Within(requests, pool, 1) && k < |pool|
    ensures IsAverage(OpenLoad(Filed(requests, pool, n), pool[k].id), TotalLoad(requests, pool) + n, |pool|)
  {
    GapKept(requests, pool, n, 1);
    TotalAfter(requests, pool, n);
    LoadIsAverage(Filed(requests, pool, n), pool, TotalLoad(requests, pool) + n, k);
  }
}
