/** Roles of the portal's principals. */
module Principals {
  datatype Role = Admin | ComplianceOfficer | Auditor | Sme | Viewer

  datatype User = User(sub: string, roles: seq<Role>)

  /** `require_any_role(ADMIN, COMPLIANCE_OFFICER)`. */
  predicate MayWrite(u: User) {
    Admin in u.roles || ComplianceOfficer in u.roles
  }

  /** Writers, auditors and viewers may look. */
  predicate MayRead(u: User) {
    MayWrite(u) || Auditor in u.roles || Viewer in u.roles
  }

  predicate IsAdmin(u: User) {
    Admin in u.roles
  }
}
