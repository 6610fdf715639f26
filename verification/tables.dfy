/** The SQLite database behind the FastAPI backend's repositories and
    routes: one table per entity type (text ids, a name, an employee number
    on `employees`, soft-delete flag), the `dmt_records` table and the
    `audit_log` table. Timestamps are whole seconds of one clock. */
module Tables {
  import opened Common
  import opened Seqs
  import opened Config

  /** Timestamps are seconds; `date('now', '-N days')` and friends count days of this length. */
  const SECONDS_PER_DAY := 86400

  /** A value as `json.dumps` receives it; the `changes` column of the audit
      log holds one, written as text. */
  datatype Json = JNull | JText(s: string) | JObject(members: seq<(string, Json)>)

  /** An optional text as JSON: `null` when absent. */
  function JsonText(v: Option<string>): Json {
    if v.Some? then JText(v.value) else JNull
  }

  /** A row of an entity table. `employeeNumber` is the `employee_number`
      column, present on `employees` only. */
  datatype EntityItem = EntityItem(
    id: string, name: string, employeeNumber: Option<string>,
    createdAt: int, updatedAt: int, isActive: bool)

  function ItemKey(x: EntityItem): string { x.id }

  /** A row of `dmt_records`: its text id, the report columns by name, its
      status and the bookkeeping columns. */
  datatype DmtRow = DmtRow(
    id: string, cols: map<string, Value>, status: string,
    createdAt: int, updatedAt: int, isActive: bool)

  function RowKey(x: DmtRow): string { x.id }

  /** A row of `audit_log`. */
  datatype AuditEntry = AuditEntry(
    id: int, entityType: string, entityId: string, action: string,
    userId: Option<string>, changes: Option<Json>, timestamp: int)

  function AuditIds(audit: seq<AuditEntry>): (r: seq<int>)
    ensures |r| == |audit| && forall i :: 0 <= i < |audit| ==> r[i] == audit[i].id
  {
    seq(|audit|, i requires 0 <= i < |audit| => audit[i].id)
  }

  /** The entry `audit` gains next: the next `AUTOINCREMENT` id, stamped
      with the current instant. */
  function NextEntry(audit: seq<AuditEntry>, entityType: string, entityId: string, action: string,
                     userId: Option<string>, changes: Option<Json>, now: int): (e: AuditEntry)
    ensures forall i :: 0 <= i < |audit| ==> audit[i].id < e.id
    ensures e.entityType == entityType && e.entityId == entityId && e.action == action
    ensures e.userId == userId && e.changes == changes && e.timestamp == now
  {
    AuditEntry(NextRowId(AuditIds(audit)), entityType, entityId, action, userId, changes, now)
  }

  /** Audit ids grow in the order the entries were written. */
  predicate Ascending(audit: seq<AuditEntry>) {
    forall i, j :: 0 <= i < j < |audit| ==> audit[i].id < audit[j].id
  }

  class Database {
    var tables: map<EntityType, seq<EntityItem>>
    var dmt: seq<DmtRow>
    var audit: seq<AuditEntry>

    /** Primary keys are unique in every table, and audit ids ascend. */
    ghost predicate Valid()
      reads this
    {
      && (forall t :: t in tables ==> UniqueBy(tables[t], ItemKey))
      && UniqueBy(dmt, RowKey)
      && Ascending(audit)
    }

    /** The rows of the table of entity type `t`. */
    function Table(t: EntityType): seq<EntityItem>
      reads this
    {
      if t in tables then tables[t] else []
    }

    constructor()
      ensures Valid()
      ensures tables == map[] && dmt == [] && audit == []
    {
      tables := map[];
      dmt := [];
      audit := [];
    }

    /** `INSERT INTO audit_log (…)`: one entry at the end, nothing else changes. */
    method Log(entityType: string, entityId: string, action: string, userId: Option<string>,
               changes: Option<Json>, now: int)
      requires Valid()
      modifies this
      ensures Valid()
      ensures tables == old(tables) && dmt == old(dmt)
      ensures audit == old(audit) + [NextEntry(old(audit), entityType, entityId, action, userId, changes, now)]
    {
      audit := audit + [NextEntry(audit, entityType, entityId, action, userId, changes, now)];
    }
  }

  // ---------------------------------------------------------------------------
  // Rows as the dictionaries `dict(row)` makes of them: column names and
  // values in the table's column order.

  type Row = seq<(string, Value)>

  /** The keys of a dictionary, in order. */
  function Keys(row: Row): (r: seq<string>)
    ensures |r| == |row| && forall i :: 0 <= i < |row| ==> r[i] == row[i].0
  {
    seq(|row|, i requires 0 <= i < |row| => row[i].0)
  }

  function Flag(b: bool): Value {
    if b then Int(1) else Int(0)
  }

  function OptText(v: Option<string>): Value {
    if v.Some? then Text(v.value) else Null
  }

  /** An entity row; `employee_number` is the column a migration appended
      to `employees`. */
  function ItemDict(t: EntityType, x: EntityItem): Row {
    [("id", Text(x.id)), ("name", Text(x.name)), ("created_at", Int(x.createdAt)),
     ("updated_at", Int(x.updatedAt)), ("is_active", Flag(x.isActive))]
    + (if t == Employees then [("employee_number", OptText(x.employeeNumber))] else [])
  }

  /** The report columns of `dmt_records` that precede `status`. */
  const DMT_REPORT_COLUMNS: seq<string> := [
    "report_number", "work_center", "part_num", "operation", "employee_name", "qty",
    "customer", "shop_order", "serial_number", "inspection_item", "date", "prepared_by",
    "description", "car_type", "car_cycle", "car_second_cycle_date",
    "process_description", "analysis", "analysis_by",
    "disposition", "disposition_date", "engineer", "failure_code", "rework_hours",
    "responsible_dept", "material_scrap_cost", "others_cost", "engineering_remarks",
    "repair_process"]

  /** The workflow and ownership columns of `dmt_records` that follow `status`. */
  const DMT_WORKFLOW_COLUMNS: seq<string> := [
    "workflow_status", "supervisor_completed_at", "manager_completed_at",
    "engineer_completed_at", "created_by", "assigned_to"]

  /** Every column of `dmt_records`. */
  predicate IsDmtColumn(c: string) {
    c in DMT_REPORT_COLUMNS || c in DMT_WORKFLOW_COLUMNS
    || c in ["id", "status", "created_at", "updated_at", "is_active", "is_session"]
  }

  function ColumnsOf(cols: map<string, Value>, names: seq<string>): (r: Row)
    ensures Keys(r) == names
  {
    seq(|names|, i requires 0 <= i < |names| => (names[i], Get(cols, names[i])))
  }

  /** A `dmt_records` row. */
  function DmtDict(r: DmtRow): Row {
    [("id", Text(r.id))] + ColumnsOf(r.cols, DMT_REPORT_COLUMNS) + [("status", Text(r.status))]
    + ColumnsOf(r.cols, DMT_WORKFLOW_COLUMNS)
    + [("created_at", Int(r.createdAt)), ("updated_at", Int(r.updatedAt)), ("is_active", Flag(r.isActive)),
       ("is_session", Get(r.cols, "is_session"))]
  }

  /** The keys of two dictionaries written one after the other. */
  lemma KeysAppend(a: Row, b: Row)
    ensures Keys(a + b) == Keys(a) + Keys(b)
  {
  }

  /** Every `dmt_records` row has the same columns, in the same order. */
  lemma DmtKeys(r: DmtRow)
    ensures Keys(DmtDict(r)) == ["id"] + DMT_REPORT_COLUMNS + ["status"] + DMT_WORKFLOW_COLUMNS
                                + ["created_at", "updated_at", "is_active", "is_session"]
  {
    var a: Row := [("id", Text(r.id))];
    var b := ColumnsOf(r.cols, DMT_REPORT_COLUMNS);
    var c: Row := [("status", Text(r.status))];
    var d := ColumnsOf(r.cols, DMT_WORKFLOW_COLUMNS);
    var e: Row := [("created_at", Int(r.createdAt)), ("updated_at", Int(r.updatedAt)), ("is_active", Flag(r.isActive)),
                   ("is_session", Get(r.cols, "is_session"))];
    KeysAppend(a, b);
    KeysAppend(a + b, c);
    KeysAppend(a + b + c, d);
    KeysAppend(a + b + c + d, e);
  }
}
