/** Users as routing, assignment and the life cycle see them
    (backend/app/models/user.py, backend/app/models/role.py). */
module People {
  import opened Wrappers

  datatype Role = Student | Registrator | Staff | Admin | Leadership

  /** The faculty and department a student or employee profile is bound to. */
  datatype Profile = Profile(facultyId: Option<int>, departmentId: Option<int>, isGeneralManager: bool)

  datatype User = User(
    id: int, role: Option<Role>, isActive: bool, student: Option<Profile>, employee: Option<Profile>)
  {
    /** The student profile wins when there are two. */
    function FacultyId(): Option<int> {
      if student.Some? then student.value.facultyId
      else if employee.Some? then employee.value.facultyId else None
    }

    function DepartmentId(): Option<int> {
      if student.Some? then student.value.departmentId
      else if employee.Some? then employee.value.departmentId else None
    }

    predicate HasRole(roles: set<Role>) {
      role.Some? && role.value in roles
    }

    /** Leadership may look at everything and change nothing. */
    predicate ReadOnly() {
      HasRole({Leadership})
    }

    /** Only active staff and registrators are ever given requests. */
    predicate TakesRequests() {
      isActive && HasRole({Staff, Registrator})
    }
  }

  /** What the program answers when it refuses. */
  datatype Refusal =
    | BadRequest | Forbidden | NotFound | Conflict | Unprocessable
    | CalendarGaveUp

  /** What a change that may be refused did to an object. */
  datatype Outcome = Done | Refused(why: Refusal)
}
