/** `DMTService`: DMT records of the service database. Report numbers run
    `RPT-1000`, `RPT-1001`, … from the newest `RPT-` record; reads join the
    creator's and the assignee's usernames; Admins and Supervisors see and
    change every record, everyone else only what they created or were
    assigned, and only creators may delete. */
module DmtService {
  import opened Common
  import opened Seqs
  import opened Strings
  import opened Decimal
  import opened AppDb

  // ---------------------------------------------------------------------------
  // Report numbers.

  const REPORT_PREFIX: string := "RPT-"

  /** `report_number LIKE 'RPT-%'`: a text starting with `RPT-`, letters
      compared without case as SQLite's `LIKE` does. */
  predicate IsReportNumber(v: Value) {
    v.Text? && |v.s| >= 4 && Lower(v.s[..4]) == "rpt-"
  }

  function ReportColumn(rec: DmtRecord): Value {
    Get(rec.cols, "report_number")
  }

  /** The row `ORDER BY id DESC LIMIT 1` returns among the records whose
      report number matches `RPT-%`. */
  function LatestReport(records: seq<DmtRecord>): (r: Option<DmtRecord>)
    ensures r.None? <==> forall x :: x in records ==> !IsReportNumber(ReportColumn(x))
    ensures r.Some? ==> r.value in records && IsReportNumber(ReportColumn(r.value))
    ensures r.Some? ==> forall x :: x in records && IsReportNumber(ReportColumn(x)) ==> x.id <= r.value.id
    decreases |records|
  {
    if records == [] then None
    else
      assert records == [records[0]] + records[1..];
      var rest := LatestReport(records[1..]);
      if !IsReportNumber(ReportColumn(records[0])) then rest
      else if rest.Some? && rest.value.id > records[0].id then rest
      else Some(records[0])
  }

  /** The first character of a non-empty occurrence is a character of the text. */
  lemma ContainsHead(s: string, t: string)
    requires Contains(s, t) && |t| >= 1
    ensures t[0] in s
  {
    var k :| 0 <= k <= |s| - |t| && OccursAt(t, s, k);
    assert s[k..k + |t|][0] == s[k];
  }

  /** A piece without `-` never parses to a negative number. */
  lemma ParseWithoutMinus(p: string)
    requires '-' !in p
    ensures ParseInt(p).Some? ==> ParseInt(p).value >= 0
  {
    if ParseInt(p).Some? && ParseInt(p).value < 0 {
      ContainsHead(p, Strip(p));
    }
  }

  /** `int(number.split('-')[1]) + 1`, or 1000 when there is no second piece
      (`IndexError`) or it is not an integer (`ValueError`). */
  function NumberAfter(number: string): (n: nat)
  {
    var parts := Split(number, '-');
    if |parts| < 2 then 1000
    else match ParseInt(parts[1])
      case None => 1000
      case Some(last) =>
        ParseWithoutMinus(parts[1]);
        last + 1
  }

  /** `_generate_report_number`: the successor of the newest `RPT-` number in
      `RPT-{n:04d}` form; 1000 when there is none or it does not parse, and
      `RPT-1000` when the query fails. */
  function GenerateReportNumber(records: seq<DmtRecord>, queryFails: bool): (r: string)
    ensures |r| >= 8 && r[..4] == REPORT_PREFIX && AllDigits(r[4..])
  {
    var next :=
      if queryFails then 1000
      else match LatestReport(records)
        case None => 1000
        case Some(rec) => if Truthy(ReportColumn(rec)) then NumberAfter(ReportColumn(rec).s) else 1000;
    var r := REPORT_PREFIX + Format04(next);
    assert r[4..] == Format04(next);
    r
  }

  /** The number following `RPT-{k:04d}` is `k + 1`. */
  lemma NumberAfterFormatted(k: nat)
    ensures NumberAfter(REPORT_PREFIX + Format04(k)) == k + 1
  {
    var f := Format04(k);
    forall i | 0 <= i < |f| ensures f[i] != '-' {
      assert IsDigit(f[i]);
    }
    assert REPORT_PREFIX + f == "RPT" + ['-'] + f;
    SplitPair("RPT", f, '-');
    ParseFormat04(k);
  }

  /** Every generated number matches `RPT-%`, so it is seen by the next generation. */
  lemma GeneratedIsReportNumber(records: seq<DmtRecord>, queryFails: bool)
    ensures IsReportNumber(Text(GenerateReportNumber(records, queryFails)))
  {
    PrefixMatches();
  }

  /** `RPT-` itself matches the pattern's prefix without case. */
  lemma PrefixMatches()
    ensures Lower(REPORT_PREFIX) == "rpt-"
  {
    assert LowerChar('R') == 'r' && LowerChar('P') == 'p' && LowerChar('T') == 't' && LowerChar('-') == '-';
  }

  /** `f"{1000:04d}"` is `1000`. */
  lemma Format1000()
    ensures Format04(1000) == "1000"
  {
    DigitsLength(1000);
    assert Digits(1000) == Digits(100) + ['0'];
    assert Digits(100) == Digits(10) + ['0'];
    assert Digits(10) == Digits(1) + ['0'];
  }

  /** With no `RPT-` record, numbering starts at `RPT-1000`. */
  lemma FirstNumber(records: seq<DmtRecord>)
    requires forall x :: x in records ==> !IsReportNumber(ReportColumn(x))
    ensures GenerateReportNumber(records, false) == "RPT-1000"
  {
    Format1000();
  }

  /** The fallbacks of `_generate_report_number`: `RPT-1000` when the query
      fails and when no `RPT-` row is found or its number is empty. */
  lemma ReportNumberFallbacks(records: seq<DmtRecord>, queryFails: bool)
    ensures queryFails ==> GenerateReportNumber(records, queryFails) == "RPT-1000"
    ensures var latest := LatestReport(records);
            !queryFails && (latest.None? || !Truthy(ReportColumn(latest.value))) ==>
              GenerateReportNumber(records, queryFails) == "RPT-1000"
  {
    Format1000();
  }

  /** For the newest `RPT-` number: `RPT-1000` when the text after its first
      `-` is missing (`IndexError`) or not an integer (`ValueError`);
      otherwise that integer plus one, zero-filled to four digits. */
  lemma ReportNumberParsed(records: seq<DmtRecord>)
    requires LatestReport(records).Some? && Truthy(ReportColumn(LatestReport(records).value))
    ensures var parts := Split(ReportColumn(LatestReport(records).value).s, '-');
            && (|parts| < 2 || ParseInt(parts[1]).None? ==> GenerateReportNumber(records, false) == "RPT-1000")
            && (|parts| >= 2 && ParseInt(parts[1]).Some? ==>
                  && ParseInt(parts[1]).value >= 0
                  && GenerateReportNumber(records, false) == "RPT-" + Format04(ParseInt(parts[1]).value + 1))
  {
    var parts := Split(ReportColumn(LatestReport(records).value).s, '-');
    if |parts| < 2 || ParseInt(parts[1]).None? {
      Format1000();
    } else {
      ParseWithoutMinus(parts[1]);
    }
  }

  /** A record appended with an id above all others and a matching number
      becomes the newest `RPT-` record. */
  lemma LatestAfterAppend(records: seq<DmtRecord>, rec: DmtRecord)
    requires forall x :: x in records ==> x.id < rec.id
    requires IsReportNumber(ReportColumn(rec))
    ensures LatestReport(records + [rec]) == Some(rec)
  {
    var r := LatestReport(records + [rec]);
    assert rec in records + [rec];
    assert r.value.id >= rec.id;
    assert r.value in records || r.value == rec;
  }

  /** After the newest record `RPT-{k:04d}` comes `RPT-{k+1:04d}`. */
  lemma GenerateAfter(records: seq<DmtRecord>, k: nat)
    requires LatestReport(records).Some?
    requires ReportColumn(LatestReport(records).value) == Text(REPORT_PREFIX + Format04(k))
    ensures GenerateReportNumber(records, false) == REPORT_PREFIX + Format04(k + 1)
  {
    NumberAfterFormatted(k);
  }

  /** Numbers are consecutive: once a record carrying the generated number is
      stored under a new, larger id, the following number is one more. */
  lemma ConsecutiveNumbers(records: seq<DmtRecord>, k: nat, rec: DmtRecord)
    requires LatestReport(records).Some?
    requires ReportColumn(LatestReport(records).value) == Text(REPORT_PREFIX + Format04(k))
    requires forall x :: x in records ==> x.id < rec.id
    requires ReportColumn(rec) == Text(GenerateReportNumber(records, false))
    ensures GenerateReportNumber(records + [rec], false) == REPORT_PREFIX + Format04(k + 2)
  {
    GenerateAfter(records, k);
    GeneratedIsReportNumber(records, false);
    LatestAfterAppend(records, rec);
    GenerateAfter(records + [rec], k + 1);
  }

  // ---------------------------------------------------------------------------
  // Reading records.

  /** A row of the joined `SELECT d.*, u1.username, u2.username`. */
  datatype RecordView = RecordView(record: DmtRecord, createdByUsername: Option<string>, assignedToUsername: Option<string>)

  function CreatorColumn(rec: DmtRecord): Value {
    Get(rec.cols, "created_by_user_id")
  }

  function AssigneeColumn(rec: DmtRecord): Value {
    Get(rec.cols, "assigned_to_user_id")
  }

  function Joined(users: seq<UserRecord>, rec: DmtRecord): (v: RecordView)
    ensures v.record == rec
    ensures v.createdByUsername == JoinedUsername(users, CreatorColumn(rec))
    ensures v.assignedToUsername == JoinedUsername(users, AssigneeColumn(rec))
  {
    RecordView(rec, JoinedUsername(users, CreatorColumn(rec)), JoinedUsername(users, AssigneeColumn(rec)))
  }

  /** `get_record_by_id`. */
  function GetRecordById(users: seq<UserRecord>, records: seq<DmtRecord>, id: int): (r: Option<RecordView>)
    ensures r.None? <==> forall x :: x in records ==> x.id != id
    ensures r.Some? ==> r.value.record in records && r.value.record.id == id && r.value == Joined(users, r.value.record)
  {
    match RecordById(records, id)
    case None => None
    case Some(rec) => Some(Joined(users, rec))
  }

  predicate Privileged(role: string) {
    role == "Admin" || role == "Supervisor"
  }

  /** What `get_records_for_user` lets a user see, and whom `update_record`
      lets edit: Admins and Supervisors everything, others the records they
      created or are assigned to. */
  predicate MayAccess(rec: DmtRecord, userId: int, role: string) {
    Privileged(role) || CreatorColumn(rec) == Int(userId) || AssigneeColumn(rec) == Int(userId)
  }

  /** Whom `delete_record` lets delete: Admins, Supervisors and the creator. */
  predicate MayDelete(rec: DmtRecord, userId: int, role: string) {
    Privileged(role) || CreatorColumn(rec) == Int(userId)
  }

  /** Whoever may delete a record may also see and edit it. */
  lemma DeleteImpliesAccess(rec: DmtRecord, userId: int, role: string)
    requires MayDelete(rec, userId, role)
    ensures MayAccess(rec, userId, role)
  {
  }

  function VisibleTo(userId: int, role: string): DmtRecord -> bool {
    (rec: DmtRecord) => MayAccess(rec, userId, role)
  }

  /** `ORDER BY d.created_at DESC`. */
  function NewestFirst(): (DmtRecord, DmtRecord) -> bool {
    (a: DmtRecord, b: DmtRecord) => a.createdAt >= b.createdAt
  }

  /** The records a user may access, newest first. */
  function AccessibleNewestFirst(records: seq<DmtRecord>, userId: int, role: string): (r: seq<DmtRecord>)
    ensures |r| <= |records|
    ensures forall x :: x in r <==> x in records && MayAccess(x, userId, role)
    ensures SortedBy(r, NewestFirst())
    ensures multiset(r) == multiset(Filter(records, VisibleTo(userId, role)))
  {
    assert TotalPreorder(NewestFirst());
    var visible := Filter(records, VisibleTo(userId, role));
    SortMembers(visible, NewestFirst());
    Sort(visible, NewestFirst())
  }

  function JoinedWith(users: seq<UserRecord>): DmtRecord -> RecordView {
    (rec: DmtRecord) => Joined(users, rec)
  }

  /** `get_records_for_user(user_id, user_role, skip, limit)`. */
  function GetRecordsForUser(users: seq<UserRecord>, records: seq<DmtRecord>, userId: int, role: string, skip: int, limit: int)
    : (r: seq<RecordView>)
    ensures limit >= 0 ==> |r| <= limit
    ensures forall v :: v in r ==> v.record in records && MayAccess(v.record, userId, role) && v == Joined(users, v.record)
    ensures forall i, j :: 0 <= i < j < |r| ==> r[i].record.createdAt >= r[j].record.createdAt
    ensures IsPage(r, AccessibleNewestFirst(records, userId, role), JoinedWith(users), skip, limit)
  {
    var ordered := AccessibleNewestFirst(records, userId, role);
    var page := Window(ordered, skip, limit);
    MapWindowIsPage(ordered, JoinedWith(users), skip, limit);
    WindowSorted(ordered, skip, limit, NewestFirst());
    WindowMembers(ordered, skip, limit);
    var r := Map(page, JoinedWith(users));
    forall v | v in r ensures v.record in records && MayAccess(v.record, userId, role) && v == Joined(users, v.record) {
      var i :| 0 <= i < |r| && r[i] == v;
      assert page[i] in page;
    }
    r
  }

  /** A user finds, on a page large enough, exactly the records they may
      access: all of them for Admins and Supervisors, the created and
      assigned ones for everyone else. */
  lemma RecordsForUserComplete(users: seq<UserRecord>, records: seq<DmtRecord>, userId: int, role: string, limit: int)
    requires limit < 0 || limit >= |records|
    ensures forall x :: x in records ==>
              (MayAccess(x, userId, role) <==> Joined(users, x) in GetRecordsForUser(users, records, userId, role, 0, limit))
  {
    var ordered := AccessibleNewestFirst(records, userId, role);
    WindowWhole(ordered, limit);
    var r := GetRecordsForUser(users, records, userId, role, 0, limit);
    assert r == Map(ordered, JoinedWith(users));
    forall x | x in records && MayAccess(x, userId, role) ensures Joined(users, x) in r {
      var i :| 0 <= i < |ordered| && ordered[i] == x;
      assert r[i] == Joined(users, x);
    }
  }

  /** Consecutive pages from offset 0 join into the longer page: no record
      is served twice and none is passed over. */
  lemma RecordsPagesTile(users: seq<UserRecord>, records: seq<DmtRecord>, userId: int, role: string, start: nat, size: nat)
    ensures GetRecordsForUser(users, records, userId, role, 0, start) + GetRecordsForUser(users, records, userId, role, start, size)
            == GetRecordsForUser(users, records, userId, role, 0, start + size)
  {
    MapWindowsTile(AccessibleNewestFirst(records, userId, role), JoinedWith(users), start, size);
  }

  /** Admins and Supervisors see every record. */
  lemma PrivilegedSeesAll(users: seq<UserRecord>, records: seq<DmtRecord>, userId: int, role: string, limit: int)
    requires Privileged(role) && (limit < 0 || limit >= |records|)
    ensures forall x :: x in records ==> Joined(users, x) in GetRecordsForUser(users, records, userId, role, 0, limit)
  {
    RecordsForUserComplete(users, records, userId, role, limit);
  }

  // ---------------------------------------------------------------------------
  // Writing records.

  /** The report columns a create or update request may carry, in the order
      `update_record` visits them. */
  const EDITABLE: seq<string> := [
    "date", "shift", "area", "part_number", "customer", "car_type",
    "quantity_inspected", "quantity_defective", "disposition",
    "failure_code", "description", "assigned_to_user_id"]

  /** The columns `create_record` inserts: the generated number, the request's
      report fields, and the caller as creator. A `report_number` in the
      request is not used. */
  function InsertedColumns(number: string, data: map<string, Value>, createdBy: int): (cols: map<string, Value>)
    ensures Get(cols, "report_number") == Text(number)
    ensures Get(cols, "created_by_user_id") == Int(createdBy)
    ensures forall f :: f in EDITABLE ==> Get(cols, f) == Get(data, f)
    ensures forall f :: f in cols ==> f in EDITABLE || f == "report_number" || f == "created_by_user_id"
  {
    (map f | f in EDITABLE :: Get(data, f))["report_number" := Text(number)]["created_by_user_id" := Int(createdBy)]
  }

  /** `create_record`: inserts one row under the next row id with the next
      report number, and reads it back joined. */
  method CreateRecord(db: Connection, data: map<string, Value>, createdBy: int, queryFails: bool, now: int)
    returns (r: Option<RecordView>)
    requires db.Valid()
    modifies db
    ensures db.Valid()
    ensures db.users == old(db.users) && db.logs == old(db.logs)
    ensures |db.records| == |old(db.records)| + 1 && db.records[..|old(db.records)|] == old(db.records)
    ensures var rec := db.records[|old(db.records)|];
            && (forall x :: x in old(db.records) ==> x.id < rec.id)
            && rec.createdAt == now
            && rec.cols == InsertedColumns(GenerateReportNumber(old(db.records), queryFails), data, createdBy)
            && r == Some(Joined(db.users, rec))
  {
    var number := GenerateReportNumber(db.records, queryFails);
    var id := NextRowId(Map(db.records, (x: DmtRecord) => x.id));
    var rec := DmtRecord(id, now, InsertedColumns(number, data, createdBy));
    forall x | x in db.records ensures x.id < id {
      var i :| 0 <= i < |db.records| && db.records[i] == x;
      assert Map(db.records, (x: DmtRecord) => x.id)[i] == x.id;
    }
    AppendUniqueBy(db.records, rec, RecordKey);
    db.records := db.records + [rec];
    RecordByIdAt(db.records, |db.records| - 1);
    r := GetRecordById(db.users, db.records, id);
  }

  /** The creator of a new record can see it. */
  lemma CreatorSeesNewRecord(number: string, data: map<string, Value>, createdBy: int, id: int, now: int, role: string)
    ensures MayAccess(DmtRecord(id, now, InsertedColumns(number, data, createdBy)), createdBy, role)
    ensures MayDelete(DmtRecord(id, now, InsertedColumns(number, data, createdBy)), createdBy, role)
  {
  }

  /** The `SET` items of `update_record`: every listed column whose request
      value is not `None`, in list order. */
  function SuppliedFields(data: map<string, Value>, names: seq<string>): (sets: seq<(string, Value)>)
    ensures |sets| <= |names|
    ensures forall i :: 0 <= i < |sets| ==> sets[i].0 in names && sets[i].1 == Get(data, sets[i].0) && sets[i].1 != Null
    decreases |names|
  {
    if names == [] then []
    else
      var init := SuppliedFields(data, names[..|names| - 1]);
      var f := names[|names| - 1];
      if Get(data, f) != Null then init + [(f, Get(data, f))] else init
  }

  /** The `SET` items applied left to right. */
  function ApplySets(cols: map<string, Value>, sets: seq<(string, Value)>): map<string, Value>
    decreases |sets|
  {
    if sets == [] then cols
    else ApplySets(cols, sets[..|sets| - 1])[sets[|sets| - 1].0 := sets[|sets| - 1].1]
  }

  /** After the update, a listed column holds the request's value if one was
      supplied and its old value otherwise; every other column is unchanged. */
  lemma {:induction false} UpdatedColumn(cols: map<string, Value>, data: map<string, Value>, names: seq<string>, k: string)
    ensures Get(ApplySets(cols, SuppliedFields(data, names)), k)
            == if k in names && Get(data, k) != Null then Get(data, k) else Get(cols, k)
    decreases |names|
  {
    if names != [] {
      var init := names[..|names| - 1];
      var f := names[|names| - 1];
      assert names == init + [f];
      UpdatedColumn(cols, data, init, k);
      var sets := SuppliedFields(data, init);
      if Get(data, f) != Null {
        assert (sets + [(f, Get(data, f))])[..|sets|] == sets;
      }
    }
  }

  /** The record `update_record` leaves in place of `rec` when the update
      targets `id`. */
  function EditRow(rec: DmtRecord, id: int, data: map<string, Value>): DmtRecord {
    if rec.id == id then rec.(cols := ApplySets(rec.cols, SuppliedFields(data, EDITABLE))) else rec
  }

  /** An update never changes a record's id, creation time, report number or creator. */
  lemma EditKeepsIdentity(rec: DmtRecord, id: int, data: map<string, Value>)
    ensures EditRow(rec, id, data).id == rec.id && EditRow(rec, id, data).createdAt == rec.createdAt
    ensures ReportColumn(EditRow(rec, id, data)) == ReportColumn(rec)
    ensures CreatorColumn(EditRow(rec, id, data)) == CreatorColumn(rec)
  {
    UpdatedColumn(rec.cols, data, EDITABLE, "report_number");
    UpdatedColumn(rec.cols, data, EDITABLE, "created_by_user_id");
  }

  const EDIT_DENIED: string := "You don't have permission to edit this record"
  const DELETE_DENIED: string := "You don't have permission to delete this record"

  /** The loop of `update_record` that collects a `SET` item for each
      listed column the request supplies. */
  method CollectSets(data: map<string, Value>, names: seq<string>) returns (sets: seq<(string, Value)>)
    ensures sets == SuppliedFields(data, names)
  {
    sets := [];
    var i := 0;
    while i < |names|
      invariant 0 <= i <= |names|
      invariant sets == SuppliedFields(data, names[..i])
    {
      assert names[..i + 1][..i] == names[..i];
      var value := Get(data, names[i]);
      if value != Null {
        sets := sets + [(names[i], value)];
      }
      i := i + 1;
    }
    assert names[..i] == names;
  }

  /** Under unique ids, editing the record found by id edits exactly that
      record; with nothing supplied, no record changes. */
  lemma EditAt(records: seq<DmtRecord>, k: int, id: int, data: map<string, Value>)
    requires UniqueBy(records, RecordKey) && 0 <= k < |records| && records[k].id == id
    ensures forall j :: 0 <= j < |records| ==>
              records[k := records[k].(cols := ApplySets(records[k].cols, SuppliedFields(data, EDITABLE)))][j]
              == EditRow(records[j], id, data)
    ensures SuppliedFields(data, EDITABLE) == [] ==> forall j :: 0 <= j < |records| ==> EditRow(records[j], id, data) == records[j]
  {
    forall j | 0 <= j < |records| && j != k ensures records[j].id != id {
      assert RecordKey(records[j]) != RecordKey(records[k]);
    }
    if SuppliedFields(data, EDITABLE) == [] {
      assert records[k].(cols := records[k].cols) == records[k];
    }
  }

  /** `update_record`: `None` for an unknown id; `PermissionError` for a user
      who may not access the record; otherwise each supplied column is set
      and the record read back (with nothing supplied, nothing is written). */
  method UpdateRecord(db: Connection, id: int, data: map<string, Value>, userId: int, role: string)
    returns (r: Result<Option<RecordView>>)
    requires db.Valid()
    modifies db
    ensures db.Valid()
    ensures db.users == old(db.users) && db.logs == old(db.logs)
    ensures RecordById(old(db.records), id).None? ==> r == Ok(None) && db.records == old(db.records)
    ensures RecordById(old(db.records), id).Some? && !MayAccess(RecordById(old(db.records), id).value, userId, role)
            ==> r == Err(EDIT_DENIED) && db.records == old(db.records)
    ensures RecordById(old(db.records), id).Some? && MayAccess(RecordById(old(db.records), id).value, userId, role)
            ==> r.Ok? && r.value.Some?
    ensures r.Ok? && r.value.Some? ==>
              && |db.records| == |old(db.records)|
              && (forall i :: 0 <= i < |db.records| ==> db.records[i] == EditRow(old(db.records)[i], id, data))
              && r.value == GetRecordById(db.users, db.records, id)
  {
    var record := GetRecordById(db.users, db.records, id);
    if record.None? {
      return Ok(None);
    }
    var rec := record.value.record;
    if !Privileged(role) {
      if CreatorColumn(rec) != Int(userId) && AssigneeColumn(rec) != Int(userId) {
        return Err(EDIT_DENIED);
      }
    }
    var read := ApplyEdit(db, id, data);
    r := Ok(read);
  }

  /** The write half of `update_record`, for a record that exists and that
      the caller may edit: collect the supplied columns, and unless there are
      none, set them on the record; then read it back. */
  method ApplyEdit(db: Connection, id: int, data: map<string, Value>) returns (r: Option<RecordView>)
    requires db.Valid() && RecordById(db.records, id).Some?
    modifies db
    ensures db.Valid()
    ensures db.users == old(db.users) && db.logs == old(db.logs)
    ensures |db.records| == |old(db.records)|
    ensures forall i :: 0 <= i < |db.records| ==> db.records[i] == EditRow(old(db.records)[i], id, data)
    ensures r.Some? && r == GetRecordById(db.users, db.records, id)
  {
    var sets := CollectSets(data, EDITABLE);
    var k := FindIndex(db.records, (x: DmtRecord) => x.id == id);
    EditAt(db.records, k, id, data);
    if sets == [] {
      RecordByIdAt(db.records, k);
      return GetRecordById(db.users, db.records, id);
    }
    var edited := db.records[k].(cols := ApplySets(db.records[k].cols, sets));
    UpdateUniqueBy(db.records, k, edited, RecordKey);
    db.records := db.records[k := edited];
    RecordByIdAt(db.records, k);
    r := GetRecordById(db.users, db.records, id);
  }

  /** `delete_record`: `False` for an unknown id; `PermissionError` for a user
      who may not delete it; otherwise the row is removed outright. */
  method DeleteRecord(db: Connection, id: int, userId: int, role: string) returns (r: Result<bool>)
    requires db.Valid()
    modifies db
    ensures db.Valid()
    ensures db.users == old(db.users) && db.logs == old(db.logs)
    ensures RecordById(old(db.records), id).None? ==> r == Ok(false) && db.records == old(db.records)
    ensures RecordById(old(db.records), id).Some? && !MayDelete(RecordById(old(db.records), id).value, userId, role)
            ==> r == Err(DELETE_DENIED) && db.records == old(db.records)
    ensures RecordById(old(db.records), id).Some? && MayDelete(RecordById(old(db.records), id).value, userId, role)
            ==> r == Ok(true) && db.records == Filter(old(db.records), (x: DmtRecord) => x.id != id)
    ensures forall x :: x in db.records ==> x in old(db.records)
  {
    var record := GetRecordById(db.users, db.records, id);
    if record.None? {
      return Ok(false);
    }
    var rec := record.value.record;
    if !Privileged(role) {
      if CreatorColumn(rec) != Int(userId) {
        return Err(DELETE_DENIED);
      }
    }
    var before := db.records;
    db.records := Filter(db.records, (x: DmtRecord) => x.id != id);
    FilterUniqueBy(before, (x: DmtRecord) => x.id != id, RecordKey);
    FilterKeepsAll(before, (x: DmtRecord) => x.id != id);
    assert rec in before && rec.id == id;
    r := Ok(|db.records| < |before|);
  }

  /** After a successful delete the record is gone. */
  lemma DeletedIsGone(records: seq<DmtRecord>, users: seq<UserRecord>, id: int)
    ensures GetRecordById(users, Filter(records, (x: DmtRecord) => x.id != id), id).None?
  {
  }
}
