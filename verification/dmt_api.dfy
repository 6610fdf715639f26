/** The REST endpoints for DMT records: list, read, create, update, soft
    delete, export, close and reopen. The logged-in user is the session's
    `user` entry (`None` when nobody is logged in); the new record's UUID and
    `CURRENT_TIMESTAMP` are parameters. Each handler's result is the value
    it returns or the status and detail of the `HTTPException` it raises; an
    exception nothing catches is a 500. */
module DmtApi {
  import opened Common
  import opened Seqs
  import opened Strings
  import opened Tables
  import opened DmtStore
  import opened ExportService
  import Auth

  const NOT_AUTHENTICATED := "Not authenticated"
  const FORBIDDEN := "Insufficient permissions"
  /** What FastAPI answers for an exception the handler does not catch. */
  const INTERNAL_ERROR := "Internal Server Error"

  /** `get_current_user` followed by `if not user: raise 401`. */
  function Authenticated(user: Option<Auth.UserInfo>): (r: Outcome<Auth.UserInfo>)
    ensures r.Pass? <==> user.Some?
    ensures r.Pass? ==> r.value == user.value
    ensures user.None? ==> r == Fail(401, NOT_AUTHENTICATED)
  {
    if user.None? then Fail(401, NOT_AUTHENTICATED) else Pass(user.value)
  }

  /** The login check followed by `if user["role"] not in roles: raise 403`. */
  function InRole(user: Option<Auth.UserInfo>, roles: seq<string>): (r: Outcome<Auth.UserInfo>)
    ensures r.Pass? <==> user.Some? && user.value.role in roles
    ensures r.Pass? ==> r.value == user.value
    ensures user.None? ==> r == Fail(401, NOT_AUTHENTICATED)
    ensures user.Some? && user.value.role !in roles ==> r == Fail(403, FORBIDDEN)
  {
    if user.None? then Fail(401, NOT_AUTHENTICATED)
    else if user.value.role !in roles then Fail(403, FORBIDDEN)
    else Pass(user.value)
  }

  /** The roles that may delete, close and export. */
  const MANAGERS: seq<string> := ["Admin", "Quality Manager"]
  /** The roles that may reopen. */
  const REOPENERS: seq<string> := ["Admin", "Inspector"]

  /** "Quality Manager" is not one of the user roles, so of the users the
      application creates only administrators pass the manager check. */
  lemma OnlyAdminsManage(role: Auth.UserRole, id: string, username: string)
    ensures InRole(Some(Auth.UserInfo(id, username, Auth.RoleValue(role))), MANAGERS).Pass? <==> role == Auth.Admin
  {
  }

  // ---------------------------------------------------------------------------
  // Reading

  /** `description LIKE '%search%' OR part_num LIKE '%search%'`, with no
      condition for an empty search. */
  predicate ApiHit(r: DmtRow, search: string) {
    search == "" || ColumnLike(Column(r, "description"), search) || ColumnLike(Column(r, "part_num"), search)
  }

  function ApiListed(search: string): DmtRow -> bool {
    (r: DmtRow) => r.isActive && ApiHit(r, search)
  }

  datatype RecordList = RecordList(items: seq<Row>, total: nat)

  /** `GET /api/dmt`: every active record the search hits, newest first, and their number. */
  function ListRecords(user: Option<Auth.UserInfo>, dmt: seq<DmtRow>, search: string): (r: Outcome<RecordList>)
    ensures user.None? ==> r == Fail(401, NOT_AUTHENTICATED)
    ensures user.Some? ==> r.Pass? && r.value.total == |r.value.items|
    ensures r.Pass? ==> r.value.total == |Filter(dmt, ApiListed(search))|
    ensures r.Pass? ==> forall d :: d in r.value.items <==>
                          exists x :: x in dmt && x.isActive && ApiHit(x, search) && d == DmtDict(x)
    ensures r.Pass? ==> r.value.items == Map(Newest(dmt, ApiListed(search)), DmtDict)
  {
    if user.None? then Fail(401, NOT_AUTHENTICATED)
    else
      var items := Select(dmt, ApiListed(search));
      Pass(RecordList(items, |items|))
  }

  const RECORD_NOT_FOUND := "DMT record not found"

  /** `GET /api/dmt/{id}`: the active record with the id, else 404. */
  function GetRecord(user: Option<Auth.UserInfo>, dmt: seq<DmtRow>, id: string): (r: Outcome<Row>)
    ensures user.None? ==> r == Fail(401, NOT_AUTHENTICATED)
    ensures user.Some? ==> (r.Pass? <==> exists x :: x in dmt && x.id == id && x.isActive)
    ensures user.Some? && r.Fail? ==> r == Fail(404, RECORD_NOT_FOUND)
    ensures r.Pass? ==> exists x :: x in dmt && x.id == id && x.isActive && r.value == DmtDict(x)
  {
    if user.None? then Fail(401, NOT_AUTHENTICATED)
    else
      match ActiveRecord(dmt, id)
      case None => Fail(404, RECORD_NOT_FOUND)
      case Some(x) => Pass(DmtDict(x))
  }

  // ---------------------------------------------------------------------------
  // Creating

  /** The request fields that name no column of `dmt_records`. */
  const FORM_FIELDS: seq<string> := [
    "title", "category", "severity", "department", "raisedBy", "assignedTo",
    "rootCause", "correctiveAction", "preventiveAction", "targetDate"]

  /** `DMTRecordBase.model_fields`, in declaration order. */
  function ModelFields(): seq<string> {
    FormColumns() + FORM_FIELDS
  }

  /** `[fields.get(key) for key in names]`, paired with the names. */
  function Values(data: map<string, Value>, names: seq<string>): (r: Assignments)
    ensures Keys(r) == names
    ensures forall k :: k in Keys(r) ==> (k, Get(data, k)) in r
    ensures forall p :: p in r ==> p.1 == Get(data, p.0)
  {
    var r := ColumnsOf(data, names);
    forall k | k in Keys(r) ensures (k, Get(data, k)) in r {
      var i :| 0 <= i < |names| && names[i] == k;
      assert r[i] == (k, Get(data, k));
    }
    r
  }

  const CREATE_FAILED := "Database error: Could not create DMT record. "

  /** `title` is no column of `dmt_records`. */
  lemma TitleNotAColumn()
    ensures !IsDmtColumn("title")
  {
  }

  /** The `INSERT` that `create_dmt_record` builds names `title` among its
      columns, and `title` is no column of the table. */
  lemma TitleIsNoColumn()
    ensures UnknownColumn(ModelFields()) == Some("title")
  {
    TitleNotAColumn();
    FormColumnsAreColumns();
    assert ModelFields() == FormColumns() + ["title"] + FORM_FIELDS[1..];
    FirstUnknown(FormColumns(), "title", FORM_FIELDS[1..]);
  }

  /** `POST /api/dmt` as written: it inserts every request field, so SQLite
      refuses the statement and the handler answers 500 whatever the
      request; nothing is written. */
  method CreateAsWritten(db: Database, user: Option<Auth.UserInfo>, data: map<string, Value>, uuid: string, now: int)
      returns (r: Outcome<Row>)
    requires db.Valid()
    modifies db
    ensures db.Valid()
    ensures user.None? ==> r == Fail(401, NOT_AUTHENTICATED)
    ensures user.Some? ==> r == Fail(500, CREATE_FAILED + NoSuchColumn("title"))
    ensures db.tables == old(db.tables) && db.dmt == old(db.dmt) && db.audit == old(db.audit)
  {
    if user.None? {
      return Fail(401, NOT_AUTHENTICATED);
    }
    TitleIsNoColumn();
    var inserted := InsertRecord(db, uuid, "open", Values(data, ModelFields()), now);
    match inserted
    case Err(e) =>
      r := Fail(500, CREATE_FAILED + e);
    case Ok(_) =>
      // the audit entry and the read-back that follow the INSERT are never reached
      assert false;
  }

  /** `POST /api/dmt` inserting the request fields that are columns: a new
      open record under the UUID and one CREATE entry by the user; a
      repeated UUID is refused with nothing written. */
  method CreateRecord(db: Database, user: Option<Auth.UserInfo>, data: map<string, Value>, uuid: string, now: int)
      returns (r: Outcome<Row>)
    requires db.Valid()
    modifies db
    ensures db.Valid() && db.tables == old(db.tables)
    ensures user.None? ==> r == Fail(401, NOT_AUTHENTICATED) && db.dmt == old(db.dmt) && db.audit == old(db.audit)
    ensures user.Some? && (exists x :: x in old(db.dmt) && x.id == uuid) ==>
              r == Fail(500, CREATE_FAILED + DUPLICATE_ID) && db.dmt == old(db.dmt) && db.audit == old(db.audit)
    ensures user.Some? && (forall x :: x in old(db.dmt) ==> x.id != uuid) ==>
              var row := NewRecord(uuid, "open", Values(data, FormColumns()), now);
              && r == Pass(DmtDict(row))
              && db.dmt == old(db.dmt) + [row]
              && db.audit == old(db.audit) + [NextEntry(old(db.audit), "dmt_records", uuid, "CREATE", Some(user.value.id), None, now)]
  {
    if user.None? {
      return Fail(401, NOT_AUTHENTICATED);
    }
    var fields := Values(data, FormColumns());
    forall c | c in Keys(fields) ensures IsDmtColumn(c) {
    }
    var inserted := InsertRecord(db, uuid, "open", fields, now);
    if inserted.Err? {
      return Fail(500, CREATE_FAILED + inserted.error);
    }
    db.Log("dmt_records", uuid, "CREATE", Some(user.value.id), None, now);
    r := Pass(DmtDict(inserted.value));
  }

  /** A created record reads back as the new open record. */
  lemma CreatedIsRead(dmt: seq<DmtRow>, user: Auth.UserInfo, row: DmtRow)
    requires forall x :: x in dmt ==> x.id != row.id
    requires row.isActive
    ensures GetRecord(Some(user), dmt + [row], row.id) == Pass(DmtDict(row))
  {
    var after := dmt + [row];
    assert after[|dmt|] == row;
    forall j | 0 <= j < |dmt| ensures !IsActiveRecord(row.id)(after[j]) {
      assert after[j] in dmt;
    }
    assert FindIndex(after, IsActiveRecord(row.id)) == |dmt|;
  }

  /** The created record is open and carries the request's value in every
      report column the request names. */
  lemma CreatedCarriesData(data: map<string, Value>, uuid: string, now: int)
    ensures var row := NewRecord(uuid, "open", Values(data, FormColumns()), now);
            row.status == "open" && row.isActive && forall k :: k in FormColumns() ==> Column(row, k) == Get(data, k)
  {
    var fields := Values(data, FormColumns());
    var row := NewRecord(uuid, "open", fields, now);
    forall k | k in FormColumns() ensures Column(row, k) == Get(data, k) {
      assert k in Keys(fields);
      assert (k, Column(row, k)) in fields;
    }
  }

  // ---------------------------------------------------------------------------
  // Updating

  const NO_FIELDS := "No fields provided for update"
  const UPDATE_NOT_FOUND := "DMT record not found or not active"

  /** `PUT /api/dmt/{id}` with the fields the request set: 400 for none, a
      500 when one of them is no column (SQLite refuses the statement before
      looking for the record), 404 without an active record with the id;
      otherwise the fields written, one UPDATE entry by the user, and the
      record as it now reads. The body is validated against `DMTRecordUpdate`,
      so only its field names can be set. */
  method UpdateRecord(db: Database, user: Option<Auth.UserInfo>, id: string, fields: Assignments, now: int)
      returns (r: Outcome<Row>)
    requires db.Valid()
    requires forall k :: k in Keys(fields) ==> k in ModelFields()
    modifies db
    ensures db.Valid() && db.tables == old(db.tables)
    ensures r.Fail? ==> db.dmt == old(db.dmt) && db.audit == old(db.audit)
    ensures user.None? ==> r == Fail(401, NOT_AUTHENTICATED)
    ensures user.Some? && fields == [] ==> r == Fail(400, NO_FIELDS)
    ensures user.Some? && fields != [] && UnknownColumn(Keys(fields)).Some? ==> r == Fail(500, INTERNAL_ERROR)
    ensures user.Some? && fields != [] && UnknownColumn(Keys(fields)).None? && ActiveRecord(old(db.dmt), id).None? ==>
              r == Fail(404, UPDATE_NOT_FOUND)
    ensures user.Some? && fields != [] && UnknownColumn(Keys(fields)).None? && ActiveRecord(old(db.dmt), id).Some? ==>
              && r == Pass(DmtDict(Patched(fields, now)(ActiveRecord(old(db.dmt), id).value)))
              && db.dmt == Map(old(db.dmt), Where(IsActiveRecord(id), Patched(fields, now)))
              && db.audit == old(db.audit) + [NextEntry(old(db.audit), "dmt_records", id, "UPDATE", Some(user.value.id), None, now)]
  {
    if user.None? {
      return Fail(401, NOT_AUTHENTICATED);
    }
    if fields == [] {
      return Fail(400, NO_FIELDS);
    }
    if UnknownColumn(Keys(fields)).Some? {
      return Fail(500, INTERNAL_ERROR);
    }
    var before := ActiveRecord(db.dmt, id);
    NoneUpdated(db.dmt, IsActiveRecord(id));
    var rowcount := UpdateWhere(db, IsActiveRecord(id), Patched(fields, now));
    if rowcount == 0 {
      return Fail(404, UPDATE_NOT_FOUND);
    }
    db.Log("dmt_records", id, "UPDATE", Some(user.value.id), None, now);
    r := Pass(DmtDict(Patched(fields, now)(before.value)));
  }

  /** After a successful update the record reads back with the new values,
      and no other record changes. */
  lemma UpdatedIsRead(dmt: seq<DmtRow>, user: Auth.UserInfo, id: string, fields: Assignments, now: int, other: string)
    requires UniqueBy(dmt, RowKey) && ActiveRecord(dmt, id).Some?
    ensures var after := Map(dmt, Where(IsActiveRecord(id), Patched(fields, now)));
            && GetRecord(Some(user), after, id) == Pass(DmtDict(Patched(fields, now)(ActiveRecord(dmt, id).value)))
            && (other != id ==> GetRecord(Some(user), after, other) == GetRecord(Some(user), dmt, other))
  {
    ReadAfterUpdate(dmt, id, Patched(fields, now), other);
  }

  // ---------------------------------------------------------------------------
  // Soft delete, close and reopen

  /** The shape of the delete, close and reopen handlers: the role check,
      `UPDATE … SET <f> WHERE <pick>`, 404 when no row was picked, else one
      audit entry by the user. */
  method Transition(db: Database, user: Option<Auth.UserInfo>, id: string, roles: seq<string>,
                    pick: DmtRow -> bool, f: DmtRow -> DmtRow, action: string, missing: string, done: string, now: int)
      returns (r: Outcome<string>)
    requires db.Valid() && KeepsId(f)
    modifies db
    ensures db.Valid() && db.tables == old(db.tables)
    ensures r.Fail? ==> db.dmt == old(db.dmt) && db.audit == old(db.audit)
    ensures InRole(user, roles).Fail? ==> r == Fail(InRole(user, roles).code, InRole(user, roles).detail)
    ensures InRole(user, roles).Pass? ==> (r.Pass? <==> exists x :: x in old(db.dmt) && pick(x))
    ensures InRole(user, roles).Pass? && r.Fail? ==> r == Fail(404, missing)
    ensures r.Pass? ==>
              && r.value == done
              && db.dmt == Map(old(db.dmt), Where(pick, f))
              && db.audit == old(db.audit) + [NextEntry(old(db.audit), "dmt_records", id, action, Some(user.value.id), None, now)]
  {
    var allowed := InRole(user, roles);
    if allowed.Fail? {
      return Fail(allowed.code, allowed.detail);
    }
    NoneUpdated(db.dmt, pick);
    var rowcount := UpdateWhere(db, pick, f);
    if rowcount == 0 {
      return Fail(404, missing);
    }
    db.Log("dmt_records", id, action, Some(user.value.id), None, now);
    r := Pass(done);
  }

  /** `DELETE /api/dmt/{id}`: managers only; the active record with the id
      deactivated, one DELETE entry; 404 without one. */
  method DeleteRecord(db: Database, user: Option<Auth.UserInfo>, id: string, now: int) returns (r: Outcome<string>)
    requires db.Valid()
    modifies db
    ensures db.Valid() && db.tables == old(db.tables)
    ensures r.Fail? ==> db.dmt == old(db.dmt) && db.audit == old(db.audit)
    ensures InRole(user, MANAGERS).Fail? ==> r == Fail(InRole(user, MANAGERS).code, InRole(user, MANAGERS).detail)
    ensures InRole(user, MANAGERS).Pass? ==> (r.Pass? <==> ActiveRecord(old(db.dmt), id).Some?)
    ensures InRole(user, MANAGERS).Pass? && r.Fail? ==> r == Fail(404, "DMT record not found or already deleted")
    ensures r.Pass? ==>
              && db.dmt == Map(old(db.dmt), Where(IsActiveRecord(id), Deactivated(now)))
              && db.audit == old(db.audit) + [NextEntry(old(db.audit), "dmt_records", id, "DELETE", Some(user.value.id), None, now)]
  {
    r := Transition(db, user, id, MANAGERS, IsActiveRecord(id), Deactivated(now), "DELETE",
                    "DMT record not found or already deleted", "DMT record deleted successfully", now);
  }

  /** After a delete the record is no longer found, and other records read as before. */
  lemma DeletedIsGone(dmt: seq<DmtRow>, user: Auth.UserInfo, id: string, now: int, other: string)
    ensures var after := Map(dmt, Where(IsActiveRecord(id), Deactivated(now)));
            && GetRecord(Some(user), after, id) == Fail(404, RECORD_NOT_FOUND)
            && (other != id ==> GetRecord(Some(user), after, other) == GetRecord(Some(user), dmt, other))
  {
    GoneAfterDelete(dmt, IsActiveRecord(id), id, now, other);
  }

  /** `POST /api/dmt/{id}/close` as written: managers only; status `closed`
      on the active record with the id, whatever its status was. */
  method CloseAsWritten(db: Database, user: Option<Auth.UserInfo>, id: string, now: int) returns (r: Outcome<string>)
    requires db.Valid()
    modifies db
    ensures db.Valid() && db.tables == old(db.tables)
    ensures r.Fail? ==> db.dmt == old(db.dmt) && db.audit == old(db.audit)
    ensures InRole(user, MANAGERS).Fail? ==> r == Fail(InRole(user, MANAGERS).code, InRole(user, MANAGERS).detail)
    ensures InRole(user, MANAGERS).Pass? ==> (r.Pass? <==> ActiveRecord(old(db.dmt), id).Some?)
    ensures InRole(user, MANAGERS).Pass? && r.Fail? ==> r == Fail(404, "DMT record not found or already closed")
    ensures r.Pass? ==>
              && db.dmt == Map(old(db.dmt), Where(IsActiveRecord(id), WithStatus("closed", now)))
              && db.audit == old(db.audit) + [NextEntry(old(db.audit), "dmt_records", id, "CLOSE", Some(user.value.id), None, now)]
  {
    r := Transition(db, user, id, MANAGERS, IsActiveRecord(id), WithStatus("closed", now), "CLOSE",
                    "DMT record not found or already closed", "DMT record closed successfully", now);
  }

  /** `POST /api/dmt/{id}/reopen` as written: administrators and
      inspectors; status `open` on the active record with the id, whatever
      its status was. */
  method ReopenAsWritten(db: Database, user: Option<Auth.UserInfo>, id: string, now: int) returns (r: Outcome<string>)
    requires db.Valid()
    modifies db
    ensures db.Valid() && db.tables == old(db.tables)
    ensures r.Fail? ==> db.dmt == old(db.dmt) && db.audit == old(db.audit)
    ensures InRole(user, REOPENERS).Fail? ==> r == Fail(InRole(user, REOPENERS).code, InRole(user, REOPENERS).detail)
    ensures InRole(user, REOPENERS).Pass? ==> (r.Pass? <==> ActiveRecord(old(db.dmt), id).Some?)
    ensures InRole(user, REOPENERS).Pass? && r.Fail? ==> r == Fail(404, "DMT record not found or already open")
    ensures r.Pass? ==>
              && db.dmt == Map(old(db.dmt), Where(IsActiveRecord(id), WithStatus("open", now)))
              && db.audit == old(db.audit) + [NextEntry(old(db.audit), "dmt_records", id, "REOPEN", Some(user.value.id), None, now)]
  {
    r := Transition(db, user, id, REOPENERS, IsActiveRecord(id), WithStatus("open", now), "REOPEN",
                    "DMT record not found or already open", "DMT record reopened successfully", now);
  }

  /** For a record already in status `status`, the update as written still
      picks it (closing a closed record, or reopening an open one, succeeds
      again and logs again), while the update with the status check picks
      nothing and answers 404. */
  lemma SameStatusAgain(dmt: seq<DmtRow>, id: string, status: string, from: string)
    requires UniqueBy(dmt, RowKey) && from != status
    requires exists x :: x in dmt && x.id == id && x.isActive && x.status == status
    ensures exists x :: x in dmt && IsActiveRecord(id)(x)
    ensures forall x :: x in dmt ==> !InStatus(id, from)(x)
  {
    var y :| y in dmt && y.id == id && y.isActive && y.status == status;
    forall x | x in dmt ensures !InStatus(id, from)(x) {
      if x.id == id {
        var i :| 0 <= i < |dmt| && dmt[i] == x;
        var k :| 0 <= k < |dmt| && dmt[k] == y;
        assert RowKey(dmt[i]) == RowKey(dmt[k]);
      }
    }
  }

  /** The record `id` while active and in status `status`. */
  function InStatus(id: string, status: string): DmtRow -> bool {
    (r: DmtRow) => r.id == id && r.isActive && r.status == status
  }

  /** `POST /api/dmt/{id}/close` picking only an open record, so that
      "already closed" is answered for a closed one. */
  method CloseRecord(db: Database, user: Option<Auth.UserInfo>, id: string, now: int) returns (r: Outcome<string>)
    requires db.Valid()
    modifies db
    ensures db.Valid() && db.tables == old(db.tables)
    ensures r.Fail? ==> db.dmt == old(db.dmt) && db.audit == old(db.audit)
    ensures InRole(user, MANAGERS).Fail? ==> r == Fail(InRole(user, MANAGERS).code, InRole(user, MANAGERS).detail)
    ensures InRole(user, MANAGERS).Pass? ==> (r.Pass? <==> exists x :: x in old(db.dmt) && InStatus(id, "open")(x))
    ensures InRole(user, MANAGERS).Pass? && r.Fail? ==> r == Fail(404, "DMT record not found or already closed")
    ensures r.Pass? ==>
              && db.dmt == Map(old(db.dmt), Where(InStatus(id, "open"), WithStatus("closed", now)))
              && db.audit == old(db.audit) + [NextEntry(old(db.audit), "dmt_records", id, "CLOSE", Some(user.value.id), None, now)]
  {
    r := Transition(db, user, id, MANAGERS, InStatus(id, "open"), WithStatus("closed", now), "CLOSE",
                    "DMT record not found or already closed", "DMT record closed successfully", now);
  }

  /** `POST /api/dmt/{id}/reopen` picking only a closed record. */
  method ReopenRecord(db: Database, user: Option<Auth.UserInfo>, id: string, now: int) returns (r: Outcome<string>)
    requires db.Valid()
    modifies db
    ensures db.Valid() && db.tables == old(db.tables)
    ensures r.Fail? ==> db.dmt == old(db.dmt) && db.audit == old(db.audit)
    ensures InRole(user, REOPENERS).Fail? ==> r == Fail(InRole(user, REOPENERS).code, InRole(user, REOPENERS).detail)
    ensures InRole(user, REOPENERS).Pass? ==> (r.Pass? <==> exists x :: x in old(db.dmt) && InStatus(id, "closed")(x))
    ensures InRole(user, REOPENERS).Pass? && r.Fail? ==> r == Fail(404, "DMT record not found or already open")
    ensures r.Pass? ==>
              && db.dmt == Map(old(db.dmt), Where(InStatus(id, "closed"), WithStatus("open", now)))
              && db.audit == old(db.audit) + [NextEntry(old(db.audit), "dmt_records", id, "REOPEN", Some(user.value.id), None, now)]
  {
    r := Transition(db, user, id, REOPENERS, InStatus(id, "closed"), WithStatus("open", now), "REOPEN",
                    "DMT record not found or already open", "DMT record reopened successfully", now);
  }

  /** With the status checks, closing an open record and reopening it gives
      back the record with only its update time changed, and a second close
      in a row is refused. */
  lemma CloseReopenRoundTrip(dmt: seq<DmtRow>, id: string, t1: int, t2: int)
    requires UniqueBy(dmt, RowKey) && ActiveRecord(dmt, id).Some? && ActiveRecord(dmt, id).value.status == "open"
    ensures var closed := Map(dmt, Where(InStatus(id, "open"), WithStatus("closed", t1)));
            && (forall x :: x in closed ==> !InStatus(id, "open")(x))
            && Map(closed, Where(InStatus(id, "closed"), WithStatus("open", t2)))
               == Map(dmt, Where(IsActiveRecord(id), (r: DmtRow) => r.(updatedAt := t2)))
  {
    var closed := Map(dmt, Where(InStatus(id, "open"), WithStatus("closed", t1)));
    var back := Map(closed, Where(InStatus(id, "closed"), WithStatus("open", t2)));
    var want := Map(dmt, Where(IsActiveRecord(id), (r: DmtRow) => r.(updatedAt := t2)));
    var before := ActiveRecord(dmt, id).value;
    forall i | 0 <= i < |dmt| ensures back[i] == want[i] {
      if dmt[i].id == id {
        assert dmt[i] == before by {
          var k :| 0 <= k < |dmt| && dmt[k] == before;
          assert RowKey(dmt[i]) == RowKey(dmt[k]);
        }
      }
    }
    forall x | x in closed ensures !InStatus(id, "open")(x) {
      var i :| 0 <= i < |closed| && closed[i] == x;
      if dmt[i].id == id {
        assert dmt[i] == before by {
          var k :| 0 <= k < |dmt| && dmt[k] == before;
          assert RowKey(dmt[i]) == RowKey(dmt[k]);
        }
      }
    }
  }

  // ---------------------------------------------------------------------------
  // Export

  /** `created_at >= date('now', '-N days')`: on or after the start of the
      day `N` days back. */
  function StartOfDay(t: int): int {
    (t / SECONDS_PER_DAY) * SECONDS_PER_DAY
  }

  /** The rows `export_dmt_records` reads: active, and with a positive
      `days` no older than the start of the day `days` days back. */
  predicate Exported(r: DmtRow, days: Option<int>, now: int) {
    r.isActive && (days.None? || days.value <= 0 || r.createdAt >= StartOfDay(now - days.value * SECONDS_PER_DAY))
  }

  function ExportedBy(days: Option<int>, now: int): DmtRow -> bool {
    (r: DmtRow) => Exported(r, days, now)
  }

  /** The query has no `ORDER BY`: the rows come in table order. */
  function ExportRows(dmt: seq<DmtRow>, days: Option<int>, now: int): (r: seq<Row>)
    ensures |r| == |Filter(dmt, ExportedBy(days, now))|
    ensures forall d :: d in r <==> exists x :: x in dmt && Exported(x, days, now) && d == DmtDict(x)
  {
    MapMembers(Filter(dmt, ExportedBy(days, now)), DmtDict);
    Map(Filter(dmt, ExportedBy(days, now)), DmtDict)
  }

  /** A download: CSV text or the JSON array of dictionaries. */
  datatype Download = CsvFile(text: string) | JsonFile(items: seq<Row>)

  const NOTHING_TO_EXPORT := "No records found to export"
  const BAD_FORMAT := "Invalid export format. Use 'csv' or 'json'."

  /** `GET /api/dmt/export/{format}` as written: the CSV branch calls
      `.encode` on the response `export_csv` returns, which has no such
      method, so every CSV export that gets that far is a 500. */
  method ExportAsWritten(dmt: seq<DmtRow>, user: Option<Auth.UserInfo>, format: string, days: Option<int>, now: int)
      returns (r: Outcome<Download>)
    ensures InRole(user, MANAGERS).Fail? ==> r == Fail(InRole(user, MANAGERS).code, InRole(user, MANAGERS).detail)
    ensures InRole(user, MANAGERS).Pass? && ExportRows(dmt, days, now) == [] ==> r == Fail(404, NOTHING_TO_EXPORT)
    ensures InRole(user, MANAGERS).Pass? && ExportRows(dmt, days, now) != [] ==>
              r == if format == "csv" then Fail(500, INTERNAL_ERROR)
                   else if format == "json" then Pass(JsonFile(CleanAll(ExportRows(dmt, days, now))))
                   else Fail(400, BAD_FORMAT)
  {
    var allowed := InRole(user, MANAGERS);
    if allowed.Fail? {
      return Fail(allowed.code, allowed.detail);
    }
    var records := ExportRows(dmt, days, now);
    if records == [] {
      return Fail(404, NOTHING_TO_EXPORT);
    }
    if format == "csv" {
      r := Fail(500, INTERNAL_ERROR);
    } else if format == "json" {
      var body := ExportJson(records);
      r := Pass(JsonFile(body));
    } else {
      r := Fail(400, BAD_FORMAT);
    }
  }

  /** The export with the CSV branch returning `export_csv`'s response. */
  method ExportRecords(dmt: seq<DmtRow>, user: Option<Auth.UserInfo>, format: string, days: Option<int>, now: int)
      returns (r: Outcome<Download>)
    ensures InRole(user, MANAGERS).Fail? ==> r == Fail(InRole(user, MANAGERS).code, InRole(user, MANAGERS).detail)
    ensures InRole(user, MANAGERS).Pass? && ExportRows(dmt, days, now) == [] ==> r == Fail(404, NOTHING_TO_EXPORT)
    ensures InRole(user, MANAGERS).Pass? && ExportRows(dmt, days, now) != [] && format == "csv" ==>
              var body := CsvBody(CleanAll(ExportRows(dmt, days, now)));
              body.Ok? && r == Pass(CsvFile(body.value))
    ensures InRole(user, MANAGERS).Pass? && ExportRows(dmt, days, now) != [] && format == "json" ==>
              r == Pass(JsonFile(CleanAll(ExportRows(dmt, days, now))))
    ensures InRole(user, MANAGERS).Pass? && ExportRows(dmt, days, now) != [] && format != "csv" && format != "json" ==>
              r == Fail(400, BAD_FORMAT)
  {
    var allowed := InRole(user, MANAGERS);
    if allowed.Fail? {
      return Fail(allowed.code, allowed.detail);
    }
    var records := ExportRows(dmt, days, now);
    if records == [] {
      return Fail(404, NOTHING_TO_EXPORT);
    }
    if format == "csv" {
      ExportableRecords(records);
      var body := ExportCsv(records);
      r := Pass(CsvFile(body.value));
    } else if format == "json" {
      var body := ExportJson(records);
      r := Pass(JsonFile(body));
    } else {
      r := Fail(400, BAD_FORMAT);
    }
  }

  /** Rows of `dmt_records` all have the same columns, so the CSV writer
      never meets a row with a key outside the header. */
  lemma ExportableRecords(records: seq<Row>)
    requires records != [] && forall d :: d in records ==> exists x: DmtRow :: d == DmtDict(x)
    ensures CsvBody(CleanAll(records)).Ok?
  {
    var clean := CleanAll(records);
    forall row | row in clean ensures Keys(row) == Keys(clean[0]) {
      var i :| 0 <= i < |clean| && clean[i] == row;
      assert records[i] in records && records[0] in records;
      var x :| records[i] == DmtDict(x);
      var y :| records[0] == DmtDict(y);
      DmtKeys(x);
      DmtKeys(y);
      CleanKeys(records[i], records[0]);
    }
    SameKeysExport(clean);
  }
}
