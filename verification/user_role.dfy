/** The user role enumeration (src/Enums/UserRole.php): three cases with a display label
    and the two permission tests. */
module Roles {

  datatype UserRole = Admin | Teacher | Student

  function RoleValue(r: UserRole): string
  {
    match r
    case Admin => "admin"
    case Teacher => "teacher"
    case Student => "student"
  }

  /** `UserRole::label`. */
  function RoleLabel(r: UserRole): string
  {
    match r
    case Admin => "Administrador"
    case Teacher => "Docente"
    case Student => "Estudiante"
  }

  /** `UserRole::isAdmin`. */
  predicate IsAdmin(r: UserRole) { r == Admin }

  /** `UserRole::isTeacher`. */
  predicate IsTeacher(r: UserRole) { r == Teacher }

  /** No role is both administrator and teacher; a student is neither; values and
      labels tell the three roles apart. */
  lemma RolesExclusive(r: UserRole, q: UserRole)
    ensures !(IsAdmin(r) && IsTeacher(r))
    ensures r == Student <==> !IsAdmin(r) && !IsTeacher(r)
    ensures RoleValue(r) == RoleValue(q) ==> r == q
    ensures RoleLabel(r) == RoleLabel(q) ==> r == q
  {
  }
}
