/** Application configuration: the page size, the twelve entity tables and
    the permission table of the roles. */
module Config {
  import opened Common

  /** `Config.PAGE_SIZE` with no `PAGE_SIZE` in the environment. */
  const PAGE_SIZE: nat := 20

  /** `Config.MAX_PAGE_SIZE`. */
  const MAX_PAGE_SIZE: nat := 100

  /** The supported entity types; each names its own table. */
  datatype EntityType =
    | Employees | Levels | Areas | PartNumbers | Calibrations | WorkCenters
    | Customers | InspectionItems | PreparedBy | CarTypes | Dispositions | FailureCodes

  /** `entity_type.value`: the table name. */
  function TableName(e: EntityType): (s: string)
    ensures s != []
  {
    match e
    case Employees => "employees"
    case Levels => "levels"
    case Areas => "areas"
    case PartNumbers => "partnumbers"
    case Calibrations => "calibrations"
    case WorkCenters => "workcenters"
    case Customers => "customers"
    case InspectionItems => "inspection_items"
    case PreparedBy => "prepared_by"
    case CarTypes => "car_types"
    case Dispositions => "dispositions"
    case FailureCodes => "failure_codes"
  }

  /** `EntityType(s)`: the member whose value is exactly `s`, or the
      `ValueError` (`None`) for any other text. */
  function ParseEntityType(s: string): (r: Option<EntityType>)
    ensures r.Some? ==> TableName(r.value) == s
  {
    if s == "employees" then Some(Employees)
    else if s == "levels" then Some(Levels)
    else if s == "areas" then Some(Areas)
    else if s == "partnumbers" then Some(PartNumbers)
    else if s == "calibrations" then Some(Calibrations)
    else if s == "workcenters" then Some(WorkCenters)
    else if s == "customers" then Some(Customers)
    else if s == "inspection_items" then Some(InspectionItems)
    else if s == "prepared_by" then Some(PreparedBy)
    else if s == "car_types" then Some(CarTypes)
    else if s == "dispositions" then Some(Dispositions)
    else if s == "failure_codes" then Some(FailureCodes)
    else None
  }

  /** Every table name parses back to its member, so parsing accepts exactly
      the twelve table names. */
  lemma ParseTableName(e: EntityType)
    ensures ParseEntityType(TableName(e)) == Some(e)
  {
  }

  /** Distinct entity types name distinct tables. */
  lemma TableNameInjective(a: EntityType, b: EntityType)
    requires TableName(a) == TableName(b)
    ensures a == b
  {
    ParseTableName(a);
    ParseTableName(b);
  }

  /** The six flags of a permission dictionary. */
  datatype Permissions = Permissions(
    canManageUsers: bool, canManageEntities: bool, canViewAllDmt: bool,
    canEditAllDmt: bool, canDeleteDmt: bool, canViewAuditLogs: bool)

  const ALL := Permissions(true, true, true, true, true, true)
  const NONE := Permissions(false, false, false, false, false, false)

  /** `UserRole.get_permissions(role)`: the row of the role's value; any other
      text gets the Viewer row. */
  function GetPermissions(role: string): (p: Permissions)
    ensures p.canManageUsers ==> p == ALL
    ensures p != ALL && p != NONE ==> p == ALL.(canManageUsers := false)
  {
    if role == "Admin" then ALL
    else if role == "Supervisor" then ALL.(canManageUsers := false)
    else NONE
  }

  /** Admin holds all six permissions; Supervisor all but managing users;
      Engineer, Operator and Viewer none. */
  lemma PermissionsOfRoles()
    ensures GetPermissions("Admin") == ALL
    ensures GetPermissions("Supervisor") == Permissions(false, true, true, true, true, true)
    ensures GetPermissions("Engineer") == NONE
    ensures GetPermissions("Operator") == NONE
    ensures GetPermissions("Viewer") == NONE
  {
  }

  /** An unrecognised role gets exactly the Viewer permissions. */
  lemma UnknownRoleIsViewer(role: string)
    requires role !in {"Admin", "Supervisor", "Engineer", "Operator", "Viewer"}
    ensures GetPermissions(role) == GetPermissions("Viewer")
  {
  }

  /** Admin is the only text that may manage users. */
  lemma OnlyAdminManagesUsers(role: string)
    ensures GetPermissions(role).canManageUsers <==> role == "Admin"
  {
  }
}
