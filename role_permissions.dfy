/** The fixed table of what each role may do. */
module RolePermissions {

  datatype Role = PatientRole | FamilyRole | DoctorRole | AdminRole

  datatype Permission = PatientsRead | PatientsWrite | SessionsRead | SessionsWrite | TelemetryRead | TelemetryWrite

  /** `ROLE_PERMISSIONS`: each role's permissions, in the table's order. */
  function Permissions(role: Role): (ps: seq<Permission>)
    ensures SessionsRead in ps
    ensures TelemetryWrite in ps <==> role == AdminRole
  {
    match role
    case PatientRole => [SessionsRead]
    case FamilyRole => [PatientsRead, SessionsRead]
    case DoctorRole => [PatientsRead, PatientsWrite, SessionsRead, SessionsWrite, TelemetryRead]
    case AdminRole => [PatientsRead, PatientsWrite, SessionsRead, SessionsWrite, TelemetryRead, TelemetryWrite]
  }

  predicate Has(role: Role, p: Permission) {
    p in Permissions(role)
  }

  /** How far up the chain patient, family, doctor, admin a role sits. */
  function Rank(role: Role): nat {
    match role
    case PatientRole => 0
    case FamilyRole => 1
    case DoctorRole => 2
    case AdminRole => 3
  }

  /** The permission sets are nested: a role higher in the chain has every permission of a lower one. */
  lemma Nested(lower: Role, higher: Role, p: Permission)
    requires Rank(lower) <= Rank(higher)
    requires Has(lower, p)
    ensures Has(higher, p)
  {
  }

  /** The patient role may only read sessions. */
  lemma PatientOnlyReadsSessions(p: Permission)
    ensures Has(PatientRole, p) <==> p == SessionsRead
  {
  }

  /** The admin role has every permission, each once. */
  lemma AdminHasAll(p: Permission)
    ensures Has(AdminRole, p)
    ensures multiset(Permissions(AdminRole))[p] == 1
  {
  }

  /** No role lists a permission twice. */
  lemma NoDuplicates(role: Role)
    ensures forall i, j :: 0 <= i < j < |Permissions(role)| ==> Permissions(role)[i] != Permissions(role)[j]
  {
  }
}
