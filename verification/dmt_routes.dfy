/** The HTML routes for DMT records: the dashboard, the paged and searchable
    record list, the create, edit, update and delete forms, and the export.
    These routes check no login and record no user in the audit log; every
    change is logged whether or not it found a record. The rendered pages
    are left out: each route's result is the data it hands its template and
    the text of the toast it shows. */
module DmtRoutes {
  import opened Common
  import opened Seqs
  import opened Strings
  import opened Config
  import opened Tables
  import opened DmtStore
  import opened ExportService
  import BaseRepository
  import DmtApi

  // ---------------------------------------------------------------------------
  // Dashboard

  /** The entity tables whose sizes the dashboard shows, in its order. */
  const DASHBOARD_ENTITIES: seq<EntityType> :=
    [WorkCenters, Customers, InspectionItems, PreparedBy, CarTypes, Dispositions, FailureCodes]

  function ActiveItem(): EntityItem -> bool {
    (x: EntityItem) => x.isActive
  }

  /** `WHERE is_active = 1`. */
  function ActiveRow(): DmtRow -> bool {
    (r: DmtRow) => r.isActive
  }

  /** `WHERE status = ? AND is_active = 1`. */
  function ActiveIn(status: string): DmtRow -> bool {
    (r: DmtRow) => r.status == status && r.isActive
  }

  /** The dashboard's counts: active rows of each entity table, then active,
      open and closed records. */
  datatype Stats = Stats(entities: seq<(string, nat)>, records: nat, open: nat, closed: nat)

  /** The `COUNT(*)` queries of `dmt_dashboard`. Open and closed records are
      counted apart, and together they are never more than the active ones. */
  function DashboardStats(db: Database): (r: Stats)
    reads db
    ensures |r.entities| == |DASHBOARD_ENTITIES|
    ensures forall i :: 0 <= i < |DASHBOARD_ENTITIES| ==>
              r.entities[i].0 == TableName(DASHBOARD_ENTITIES[i])
              && r.entities[i].1 == |Filter(db.Table(DASHBOARD_ENTITIES[i]), ActiveItem())|
    ensures r.records == |Filter(db.dmt, ActiveRow())|
    ensures r.open == |Filter(db.dmt, ActiveIn("open"))| && r.closed == |Filter(db.dmt, ActiveIn("closed"))|
    ensures r.open + r.closed <= r.records
  {
    var entities := seq(|DASHBOARD_ENTITIES|, i requires 0 <= i < |DASHBOARD_ENTITIES| reads db =>
                       (TableName(DASHBOARD_ENTITIES[i]), |Filter(db.Table(DASHBOARD_ENTITIES[i]), ActiveItem())|));
    CountUnion(db.dmt, ActiveIn("open"), ActiveIn("closed"));
    CountMonotone(db.dmt, Either(ActiveIn("open"), ActiveIn("closed")), ActiveRow());
    Stats(entities, |Filter(db.dmt, ActiveRow())|, |Filter(db.dmt, ActiveIn("open"))|, |Filter(db.dmt, ActiveIn("closed"))|)
  }

  const RECENT_LIMIT := 10

  /** `SELECT * … WHERE is_active = 1 ORDER BY created_at DESC LIMIT 10`:
      the ten newest active records, newest first; no active record left
      out is newer than one shown. */
  function Recent(dmt: seq<DmtRow>): (r: seq<DmtRow>)
    ensures |r| == Min(RECENT_LIMIT, |Filter(dmt, ActiveRow())|)
    ensures forall x :: x in r ==> x in dmt && x.isActive
    ensures SortedBy(r, NewestRecordFirst())
    ensures forall x, y :: x in r && y in dmt && y.isActive && y !in r ==> x.createdAt >= y.createdAt
    ensures r == Newest(dmt, ActiveRow())[..|r|]
    ensures multiset(r) <= multiset(Filter(dmt, ActiveRow()))
  {
    var all := Newest(dmt, ActiveRow());
    PrefixMultiset(all, Min(RECENT_LIMIT, |all|));
    WindowMembers(all, 0, RECENT_LIMIT);
    WindowSorted(all, 0, RECENT_LIMIT, NewestRecordFirst());
    WindowFirst(all, RECENT_LIMIT, NewestRecordFirst());
    Window(all, 0, RECENT_LIMIT)
  }

  // ---------------------------------------------------------------------------
  // Record list

  /** `id LIKE ? OR part_num LIKE ? OR shop_order LIKE ? OR status LIKE ?`,
      added only for a non-empty search. */
  predicate RouteHit(r: DmtRow, search: string) {
    || search == ""
    || Like(r.id, search) || ColumnLike(Column(r, "part_num"), search)
    || ColumnLike(Column(r, "shop_order"), search) || Like(r.status, search)
  }

  function RouteListed(search: string): DmtRow -> bool {
    (r: DmtRow) => r.isActive && RouteHit(r, search)
  }

  const RECORDS_PER_PAGE := 20

  /** The records of one page of the list and the number of matches. */
  datatype RecordPage = RecordPage(records: seq<DmtRow>, total: nat)

  /** `dmt_records_list` and `get_dmt_records_items`: `LIMIT 20 OFFSET
      (page - 1) * 20` of the matching active records, newest first, and the
      count of all of them. A page before the first reads as the first. */
  function RecordsPage(dmt: seq<DmtRow>, page: int, search: string): (r: RecordPage)
    ensures r.total == |Filter(dmt, RouteListed(search))|
    ensures |r.records| <= RECORDS_PER_PAGE
    ensures page <= 1 ==> |r.records| == Min(RECORDS_PER_PAGE, r.total)
    ensures forall x :: x in r.records ==> x in dmt && x.isActive && RouteHit(x, search)
    ensures SortedBy(r.records, NewestRecordFirst())
  {
    var all := Newest(dmt, RouteListed(search));
    WindowMembers(all, (page - 1) * RECORDS_PER_PAGE, RECORDS_PER_PAGE);
    WindowSorted(all, (page - 1) * RECORDS_PER_PAGE, RECORDS_PER_PAGE, NewestRecordFirst());
    RecordPage(Window(all, (page - 1) * RECORDS_PER_PAGE, RECORDS_PER_PAGE), |all|)
  }

  /** Pages `1..k` of the list, one after the other. */
  function RecordPages(dmt: seq<DmtRow>, search: string, k: nat): seq<DmtRow> {
    if k == 0 then [] else RecordPages(dmt, search, k - 1) + RecordsPage(dmt, k, search).records
  }

  /** Paging neither skips nor repeats a record: pages `1..k` are the first
      `20 * k` matches in order. */
  lemma {:induction false} RecordPagesArePrefix(dmt: seq<DmtRow>, search: string, k: nat)
    ensures var all := Newest(dmt, RouteListed(search));
            RecordPages(dmt, search, k) == all[..Min(k * RECORDS_PER_PAGE, |all|)]
  {
    var all := Newest(dmt, RouteListed(search));
    if k == 0 {
      assert all[..0] == [];
    } else {
      RecordPagesArePrefix(dmt, search, k - 1);
      assert RecordsPage(dmt, k, search).records == Window(all, (k - 1) * RECORDS_PER_PAGE, RECORDS_PER_PAGE);
      assert (k - 1) * RECORDS_PER_PAGE + RECORDS_PER_PAGE == k * RECORDS_PER_PAGE;
      NextWindow(all, (k - 1) * RECORDS_PER_PAGE, RECORDS_PER_PAGE);
    }
  }

  // ---------------------------------------------------------------------------
  // Create, edit and update

  /** A form field as FastAPI hands it over: the text sent, or `Form("")`'s
      empty default. */
  function FormValue(form: map<string, string>, name: string): string {
    if name in form then form[name] else ""
  }

  /** The report columns the forms post, each with its form value. */
  function FormFields(form: map<string, string>): (r: Assignments)
    ensures Keys(r) == FormColumns()
    ensures forall p :: p in r ==> p.1 == Text(FormValue(form, p.0))
  {
    seq(|FormColumns()|, i requires 0 <= i < |FormColumns()| => (FormColumns()[i], Text(FormValue(form, FormColumns()[i]))))
  }

  /** `str(uuid.uuid4())[:8].upper()`. */
  function RecordId(uuid: string): (r: string)
    ensures |r| == Min(8, |uuid|)
    ensures forall i :: 0 <= i < |r| ==> r[i] == UpperChar(uuid[i]) && !('a' <= r[i] <= 'z')
  {
    Upper(BaseRepository.ShortId(uuid))
  }

  function CreatedMessage(id: string): string {
    "DMT record " + id + " created successfully!"
  }

  /** `create_dmt_record`: an open record under the upper-cased UUID prefix
      holding every form field, and one CREATE entry with no user. An id
      already taken raises `IntegrityError`, which nothing catches. */
  method CreateFromForm(db: Database, form: map<string, string>, uuid: string, now: int) returns (r: Outcome<string>)
    requires db.Valid()
    modifies db
    ensures db.Valid() && db.tables == old(db.tables)
    ensures (exists x :: x in old(db.dmt) && x.id == RecordId(uuid)) ==>
              r == Fail(500, DmtApi.INTERNAL_ERROR) && db.dmt == old(db.dmt) && db.audit == old(db.audit)
    ensures (forall x :: x in old(db.dmt) ==> x.id != RecordId(uuid)) ==>
              && r == Pass(CreatedMessage(RecordId(uuid)))
              && db.dmt == old(db.dmt) + [NewRecord(RecordId(uuid), "open", FormFields(form), now)]
              && db.audit == old(db.audit) + [NextEntry(old(db.audit), "dmt_records", RecordId(uuid), "CREATE", None, None, now)]
  {
    var id := RecordId(uuid);
    var fields := FormFields(form);
    FormColumnsAreColumns();
    var inserted := InsertRecord(db, id, "open", fields, now);
    if inserted.Err? {
      return Fail(500, DmtApi.INTERNAL_ERROR);
    }
    db.Log("dmt_records", id, "CREATE", None, None, now);
    r := Pass(CreatedMessage(id));
  }

  const RECORD_NOT_FOUND := "DMT record not found"

  /** `dmt_edit_form`: the active record with the id, or the error toast. */
  function EditForm(dmt: seq<DmtRow>, id: string): (r: Result<DmtRow>)
    ensures r.Ok? <==> exists x :: x in dmt && x.id == id && x.isActive
    ensures r.Ok? ==> r.value in dmt && r.value.id == id && r.value.isActive
    ensures r.Err? ==> r.error == RECORD_NOT_FOUND
  {
    match ActiveRecord(dmt, id)
    case None => Err(RECORD_NOT_FOUND)
    case Some(x) => Ok(x)
  }

  /** A created record opens in the edit form, open and holding what was
      posted in every report column the form has. */
  lemma CreatedFormIsRead(dmt: seq<DmtRow>, form: map<string, string>, id: string, now: int)
    requires forall x :: x in dmt ==> x.id != id
    ensures var row := NewRecord(id, "open", FormFields(form), now);
            && EditForm(dmt + [row], id) == Ok(row)
            && row.status == "open"
            && forall k :: k in FormColumns() ==> Column(row, k) == Text(FormValue(form, k))
  {
    var fields := FormFields(form);
    var row := NewRecord(id, "open", fields, now);
    var after := dmt + [row];
    assert after[|dmt|] == row;
    forall j | 0 <= j < |dmt| ensures !IsActiveRecord(id)(after[j]) {
      assert after[j] in dmt;
    }
    assert FindIndex(after, IsActiveRecord(id)) == |dmt|;
    NewRecordWrites(form, id, now);
  }

  /** A record created from the form holds the form's value in every form column. */
  lemma NewRecordWrites(form: map<string, string>, id: string, now: int)
    ensures var row := NewRecord(id, "open", FormFields(form), now);
            forall k :: k in FormColumns() ==> Column(row, k) == Text(FormValue(form, k))
  {
    var fields := FormFields(form);
    var row := NewRecord(id, "open", fields, now);
    forall k | k in FormColumns() ensures Column(row, k) == Text(FormValue(form, k)) {
      assert k in Keys(fields);
      assert (k, Column(row, k)) in fields;
    }
  }

  /** The `status` form field, `"open"` when absent. */
  function FormStatus(form: map<string, string>): string {
    if "status" in form then form["status"] else "open"
  }

  /** `SET <every form column> = ?, status = ?, updated_at = CURRENT_TIMESTAMP`. */
  function FormEdit(fields: Assignments, status: string, now: int): DmtRow -> DmtRow {
    (r: DmtRow) => r.(cols := Assign(r.cols, fields), status := status, updatedAt := now)
  }

  function UpdatedMessage(id: string): string {
    "DMT record " + id + " updated successfully!"
  }

  /** `update_dmt_record`: every form field and the status written to the
      active record with the id, then one UPDATE entry, whether or not a
      record was found. */
  method UpdateFromForm(db: Database, id: string, form: map<string, string>, now: int) returns (message: string)
    requires db.Valid()
    modifies db
    ensures db.Valid() && db.tables == old(db.tables)
    ensures db.dmt == Map(old(db.dmt), Where(IsActiveRecord(id), FormEdit(FormFields(form), FormStatus(form), now)))
    ensures db.audit == old(db.audit) + [NextEntry(old(db.audit), "dmt_records", id, "UPDATE", None, None, now)]
    ensures message == UpdatedMessage(id)
  {
    var _ := UpdateWhere(db, IsActiveRecord(id), FormEdit(FormFields(form), FormStatus(form), now));
    db.Log("dmt_records", id, "UPDATE", None, None, now);
    message := UpdatedMessage(id);
  }

  /** An update finds the record it edits: it then opens with the posted
      values and status, and every other record opens as before. */
  lemma FormUpdateIsRead(dmt: seq<DmtRow>, id: string, form: map<string, string>, now: int, other: string)
    requires UniqueBy(dmt, RowKey) && ActiveRecord(dmt, id).Some?
    ensures var after := Map(dmt, Where(IsActiveRecord(id), FormEdit(FormFields(form), FormStatus(form), now)));
            && EditForm(after, id).Ok?
            && EditForm(after, id).value.status == FormStatus(form)
            && (forall k :: k in FormColumns() ==> Column(EditForm(after, id).value, k) == Text(FormValue(form, k)))
            && (other != id ==> EditForm(after, other) == EditForm(dmt, other))
  {
    var f := FormEdit(FormFields(form), FormStatus(form), now);
    ReadAfterUpdate(dmt, id, f, other);
    FormEditWrites(ActiveRecord(dmt, id).value, form, FormStatus(form), now);
  }

  /** The edit writes every form column from the form, and the status. */
  lemma FormEditWrites(r: DmtRow, form: map<string, string>, status: string, now: int)
    ensures var edited := FormEdit(FormFields(form), status, now)(r);
            && edited.status == status && edited.id == r.id && edited.isActive == r.isActive
            && forall k :: k in FormColumns() ==> Column(edited, k) == Text(FormValue(form, k))
  {
    var fields := FormFields(form);
    var edited := FormEdit(fields, status, now)(r);
    forall k | k in FormColumns() ensures Column(edited, k) == Text(FormValue(form, k)) {
      assert k in Keys(fields);
      assert (k, Column(edited, k)) in fields;
    }
  }

  /** An update of a record that is not there changes no record; the UPDATE
      entry is logged all the same. */
  lemma MissingUpdateChangesNothing(dmt: seq<DmtRow>, id: string, f: DmtRow -> DmtRow)
    requires ActiveRecord(dmt, id).None?
    ensures Map(dmt, Where(IsActiveRecord(id), f)) == dmt
  {
    var after := Map(dmt, Where(IsActiveRecord(id), f));
    forall i | 0 <= i < |dmt| ensures after[i] == dmt[i] {
      assert dmt[i] in dmt;
    }
  }

  // ---------------------------------------------------------------------------
  // Delete

  function DeletedMessage(id: string): string {
    "DMT record " + id + " deleted successfully!"
  }

  /** `delete_dmt_record`: every record with the id deactivated, active or
      not, one DELETE entry whether or not one was found, then the first
      page of the unfiltered list. */
  method DeleteFromForm(db: Database, id: string, now: int) returns (list: RecordPage, message: string)
    requires db.Valid()
    modifies db
    ensures db.Valid() && db.tables == old(db.tables)
    ensures db.dmt == Map(old(db.dmt), Where(HasId(id), Deactivated(now)))
    ensures db.audit == old(db.audit) + [NextEntry(old(db.audit), "dmt_records", id, "DELETE", None, None, now)]
    ensures list == RecordsPage(db.dmt, 1, "")
    ensures message == DeletedMessage(id)
  {
    var _ := UpdateWhere(db, HasId(id), Deactivated(now));
    db.Log("dmt_records", id, "DELETE", None, None, now);
    FilterAgree(db.dmt, ActiveRow(), RouteListed(""));
    list := RecordPage(Window(Newest(db.dmt, ActiveRow()), 0, RECORDS_PER_PAGE), |Filter(db.dmt, ActiveRow())|);
    message := DeletedMessage(id);
  }

  /** A deleted record is on no page of the list and does not open in the
      edit form. */
  lemma DeletedNotListed(dmt: seq<DmtRow>, id: string, now: int, page: int, search: string)
    ensures var after := Map(dmt, Where(HasId(id), Deactivated(now)));
            && (forall x :: x in RecordsPage(after, page, search).records ==> x.id != id)
            && EditForm(after, id).Err?
  {
    var after := Map(dmt, Where(HasId(id), Deactivated(now)));
    forall x | x in after ensures !(x.id == id && x.isActive) {
      var i :| 0 <= i < |after| && after[i] == x;
    }
  }

  // ---------------------------------------------------------------------------
  // Export

  /** `WHERE is_active = 1`, and for a non-zero `days` also `created_at >=
      datetime('now', '-' || days || ' days')`. A negative `days` spells the
      modifier `--N days`, which SQLite rejects: the bound is `NULL` and no
      row passes. */
  predicate RouteExported(r: DmtRow, days: Option<int>, now: int) {
    && r.isActive
    && (days.None? || days.value == 0 || (days.value > 0 && r.createdAt >= now - days.value * SECONDS_PER_DAY))
  }

  function RouteExportedBy(days: Option<int>, now: int): DmtRow -> bool {
    (r: DmtRow) => RouteExported(r, days, now)
  }

  /** The rows `export_dmt_records` reads, newest first. */
  function ExportedRecords(dmt: seq<DmtRow>, days: Option<int>, now: int): (r: seq<DmtRow>)
    ensures forall x :: x in r <==> x in dmt && RouteExported(x, days, now)
    ensures multiset(r) == multiset(Filter(dmt, RouteExportedBy(days, now)))
    ensures SortedBy(r, NewestRecordFirst())
  {
    Newest(dmt, RouteExportedBy(days, now))
  }

  /** Without `days`, and with `days` zero, every active record is exported;
      a negative `days` exports none. */
  lemma ExportWindow(dmt: seq<DmtRow>, now: int, d: int)
    ensures ExportedRecords(dmt, Some(0), now) == ExportedRecords(dmt, None, now) == Newest(dmt, ActiveRow())
    ensures d < 0 ==> ExportedRecords(dmt, Some(d), now) == []
  {
    FilterAgree(dmt, RouteExportedBy(Some(0), now), ActiveRow());
    FilterAgree(dmt, RouteExportedBy(None, now), ActiveRow());

  }

  /** `export_dmt_records`: `"csv"` gives the CSV file, which is always
      written; any other format gives the JSON array. An empty export is an
      empty file or array, not an error. */
  method ExportFromRoute(dmt: seq<DmtRow>, format: string, days: Option<int>, now: int) returns (d: DmtApi.Download)
    ensures var records := Map(ExportedRecords(dmt, days, now), DmtDict);
            format == "csv" ==> CsvBody(CleanAll(records)).Ok? && d == DmtApi.CsvFile(CsvBody(CleanAll(records)).value)
    ensures format != "csv" ==> d == DmtApi.JsonFile(CleanAll(Map(ExportedRecords(dmt, days, now), DmtDict)))
  {
    var rows := ExportedRecords(dmt, days, now);
    var records := Map(rows, DmtDict);
    if format == "csv" {
      if records == [] {
        assert CleanAll(records) == [];
      } else {
        MapMembers(rows, DmtDict);
        DmtApi.ExportableRecords(records);
      }
      var body := ExportCsv(records);
      d := DmtApi.CsvFile(body.value);
    } else {
      var body := ExportJson(records);
      d := DmtApi.JsonFile(body);
    }
  }
}
