/** The student status enumeration (src/Enums/StudentStatus.php): four cases with
    lookup tables for the backing value, the display label and the colour. */
module Status {

  datatype StudentStatus = Active | Inactive | Graduated | Suspended

  /** The backing string of each status (`StudentStatus::X->value`). */
  function StatusValue(s: StudentStatus): (v: string)
    ensures v in {"active", "inactive", "graduated", "suspended"}
  {
    match s
    case Active => "active"
    case Inactive => "inactive"
    case Graduated => "graduated"
    case Suspended => "suspended"
  }

  /** `StudentStatus::label`. */
  function StatusLabel(s: StudentStatus): string
  {
    match s
    case Active => "Activo"
    case Inactive => "Inactivo"
    case Graduated => "Graduado"
    case Suspended => "Suspendido"
  }

  /** `StudentStatus::color`. */
  function StatusColor(s: StudentStatus): string
  {
    match s
    case Active => "green"
    case Inactive => "gray"
    case Graduated => "blue"
    case Suspended => "red"
  }

  /** `StudentStatus::from($value)`: the case with that backing value, if any. */
  function StatusFrom(v: string): (r: StudentStatus)
    requires v in {"active", "inactive", "graduated", "suspended"}
    ensures StatusValue(r) == v
  {
    if v == "active" then Active
    else if v == "inactive" then Inactive
    else if v == "graduated" then Graduated
    else Suspended
  }

  /** Backing values, labels and colours each tell the four statuses apart, and
      reading a status back from its backing value gives the same status. */
  lemma StatusTablesInjective(a: StudentStatus, b: StudentStatus)
    ensures StatusValue(a) == StatusValue(b) ==> a == b
    ensures StatusLabel(a) == StatusLabel(b) ==> a == b
    ensures StatusColor(a) == StatusColor(b) ==> a == b
    ensures StatusFrom(StatusValue(a)) == a
  {
  }

  /** There are exactly four statuses. */
  lemma StatusCases(s: StudentStatus)
    ensures s in {Active, Inactive, Graduated, Suspended}
    ensures |{Active, Inactive, Graduated, Suspended}| == 4
  {
  }
}
