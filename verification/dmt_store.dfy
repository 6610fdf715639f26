/** The statements both DMT front ends run against `dmt_records`: the
    lookup of an active record, the `INSERT` of a new record, an `UPDATE …
    WHERE`, and the listing query (`WHERE is_active = 1 … ORDER BY
    created_at DESC`). SQLite's rejection of an unknown column name and of a
    repeated primary key are part of the model; other database failures are
    not. */
module DmtStore {
  import opened Common
  import opened Seqs
  import opened Strings
  import opened Tables

  // ---------------------------------------------------------------------------
  // Reading

  /** `WHERE id = ? AND is_active = 1`. */
  function IsActiveRecord(id: string): DmtRow -> bool {
    (r: DmtRow) => r.id == id && r.isActive
  }

  /** `WHERE id = ?`. */
  function HasId(id: string): DmtRow -> bool {
    (r: DmtRow) => r.id == id
  }

  /** `SELECT * FROM dmt_records WHERE id = ? AND is_active = 1`. */
  function ActiveRecord(dmt: seq<DmtRow>, id: string): (r: Option<DmtRow>)
    ensures r.Some? ==> r.value in dmt && r.value.id == id && r.value.isActive
    ensures r.None? <==> forall x :: x in dmt ==> !(x.id == id && x.isActive)
  {
    Find(dmt, IsActiveRecord(id))
  }

  /** `ORDER BY created_at DESC`. */
  function NewestRecordFirst(): (DmtRow, DmtRow) -> bool {
    (a: DmtRow, b: DmtRow) => a.createdAt >= b.createdAt
  }

  /** `SELECT * … WHERE <pick> ORDER BY created_at DESC`. */
  function Newest(dmt: seq<DmtRow>, pick: DmtRow -> bool): (r: seq<DmtRow>)
    ensures |r| == |Filter(dmt, pick)|
    ensures multiset(r) == multiset(Filter(dmt, pick))
    ensures forall x :: x in r <==> x in dmt && pick(x)
    ensures SortedBy(r, NewestRecordFirst())
  {
    assert TotalPreorder(NewestRecordFirst());
    SortMembers(Filter(dmt, pick), NewestRecordFirst());
    Sort(Filter(dmt, pick), NewestRecordFirst())
  }

  /** The same query, each row as the dictionary `dict(row)` makes of it. */
  function Select(dmt: seq<DmtRow>, pick: DmtRow -> bool): (r: seq<Row>)
    ensures |r| == |Filter(dmt, pick)|
    ensures forall d :: d in r <==> exists x :: x in dmt && pick(x) && d == DmtDict(x)
  {
    var sorted := Newest(dmt, pick);
    MapMembers(sorted, DmtDict);
    Map(sorted, DmtDict)
  }

  /** `col LIKE '%t%'`: a text column containing `t`, ignoring ASCII case;
      `NULL` never matches. */
  predicate ColumnLike(v: Value, t: string) {
    v.Text? && Like(v.s, t)
  }

  /** A report column's value. */
  function Column(r: DmtRow, name: string): Value {
    Get(r.cols, name)
  }

  // ---------------------------------------------------------------------------
  // Writing

  /** The report columns the forms and requests fill: all of them but
      `report_number`. */
  function FormColumns(): seq<string> {
    DMT_REPORT_COLUMNS[1..]
  }

  lemma FormColumnsAreColumns()
    ensures forall c :: c in FormColumns() ==> IsDmtColumn(c)
  {
    forall c | c in FormColumns() ensures c in DMT_REPORT_COLUMNS {
      var j :| 0 <= j < |FormColumns()| && FormColumns()[j] == c;
      assert c == DMT_REPORT_COLUMNS[j + 1];
    }
  }

  /** The columns `INSERT` and `UPDATE` statements assign, in order. */
  type Assignments = seq<(string, Value)>

  /** The first assigned name that is not a column of `dmt_records`; SQLite
      refuses the whole statement because of it. */
  function UnknownColumn(names: seq<string>): (r: Option<string>)
    ensures r.None? <==> forall c :: c in names ==> IsDmtColumn(c)
    ensures r.Some? ==> r.value in names && !IsDmtColumn(r.value)
    ensures r.Some? ==> exists k :: 0 <= k < |names| && names[k] == r.value
                          && forall j :: 0 <= j < k ==> IsDmtColumn(names[j])
  {
    var k := FindIndex(names, (c: string) => !IsDmtColumn(c));
    if k == -1 then None else Some(names[k])
  }

  /** The unknown column reported is the first one. */
  lemma FirstUnknown(prefix: seq<string>, c: string, rest: seq<string>)
    requires forall x :: x in prefix ==> IsDmtColumn(x)
    requires !IsDmtColumn(c)
    ensures UnknownColumn(prefix + [c] + rest) == Some(c)
  {
    var names := prefix + [c] + rest;
    assert names[|prefix|] == c;
    var k :| 0 <= k < |names| && names[k] == UnknownColumn(names).value
             && forall j :: 0 <= j < k ==> IsDmtColumn(names[j]);
    if k < |prefix| {
      assert names[k] in prefix;
    }
  }

  /** The message of the `OperationalError` an `INSERT` naming an unknown column raises. */
  function NoSuchColumn(c: string): string {
    "table dmt_records has no column named " + c
  }

  /** The message of the `IntegrityError` a repeated id raises. */
  const DUPLICATE_ID := "UNIQUE constraint failed: dmt_records.id"

  /** The column defaults of the table that the inserts leave to it. */
  const DMT_DEFAULTS: map<string, Value> := map["workflow_status" := Text("draft"), "is_session" := Int(0)]

  /** `cols` with the assignments applied in order; a later one wins. */
  function Assign(cols: map<string, Value>, fields: Assignments): (r: map<string, Value>)
    ensures forall k :: k in r <==> k in cols || k in Keys(fields)
    ensures forall k :: k in cols && k !in Keys(fields) ==> r[k] == cols[k]
    ensures forall k :: k in Keys(fields) ==> (k, r[k]) in fields
    ensures fields != [] ==> r[fields[|fields| - 1].0] == fields[|fields| - 1].1
    decreases |fields|
  {
    if fields == [] then cols
    else
      var n := |fields| - 1;
      var before := Assign(cols, fields[..n]);
      LastAssignment(fields);
      before[fields[n].0 := fields[n].1]
  }

  /** The keys and pairs of `fields` are those before its last pair, and that pair. */
  lemma LastAssignment(fields: Assignments)
    requires fields != []
    ensures var n := |fields| - 1;
            && (forall k :: k in Keys(fields) <==> k in Keys(fields[..n]) || k == fields[n].0)
            && forall p :: p in fields <==> p in fields[..n] || p == fields[n]
  {
    var n := |fields| - 1;
    assert Keys(fields) == Keys(fields[..n]) + [fields[n].0];
    assert fields == fields[..n] + [fields[n]];
  }

  /** The row an `INSERT` of `fields` creates under `id`. */
  function NewRecord(id: string, status: string, fields: Assignments, now: int): (r: DmtRow)
    ensures r.id == id && r.status == status && r.isActive && r.createdAt == now && r.updatedAt == now
    ensures forall k :: k in Keys(fields) ==> (k, Column(r, k)) in fields
  {
    DmtRow(id, Assign(DMT_DEFAULTS, fields), status, now, now, true)
  }

  /** `SET <fields>, updated_at = CURRENT_TIMESTAMP`. */
  function Patched(fields: Assignments, now: int): DmtRow -> DmtRow {
    (r: DmtRow) => r.(cols := Assign(r.cols, fields), updatedAt := now)
  }

  /** `SET status = ?, updated_at = CURRENT_TIMESTAMP`. */
  function WithStatus(status: string, now: int): DmtRow -> DmtRow {
    (r: DmtRow) => r.(status := status, updatedAt := now)
  }

  /** `SET is_active = 0, updated_at = CURRENT_TIMESTAMP`. */
  function Deactivated(now: int): DmtRow -> DmtRow {
    (r: DmtRow) => r.(isActive := false, updatedAt := now)
  }

  /** An `UPDATE`: `f` on the rows `pick` selects, the others as they were. */
  function Where(pick: DmtRow -> bool, f: DmtRow -> DmtRow): DmtRow -> DmtRow {
    (r: DmtRow) => if pick(r) then f(r) else r
  }

  /** A rewrite that keeps every row's id. */
  ghost predicate KeepsId(f: DmtRow -> DmtRow) {
    forall r :: f(r).id == r.id
  }

  /** `INSERT INTO dmt_records`: refused, with nothing written, for an
      unknown column or a repeated id; otherwise one row at the end. */
  method InsertRecord(db: Database, id: string, status: string, fields: Assignments, now: int) returns (r: Result<DmtRow>)
    requires db.Valid()
    modifies db
    ensures db.Valid() && db.tables == old(db.tables) && db.audit == old(db.audit)
    ensures UnknownColumn(Keys(fields)).Some? ==>
              r == Err(NoSuchColumn(UnknownColumn(Keys(fields)).value)) && db.dmt == old(db.dmt)
    ensures UnknownColumn(Keys(fields)).None? && (exists x :: x in old(db.dmt) && x.id == id) ==>
              r == Err(DUPLICATE_ID) && db.dmt == old(db.dmt)
    ensures UnknownColumn(Keys(fields)).None? && (forall x :: x in old(db.dmt) ==> x.id != id) ==>
              r == Ok(NewRecord(id, status, fields, now)) && db.dmt == old(db.dmt) + [r.value]
  {
    var bad := UnknownColumn(Keys(fields));
    if bad.Some? {
      return Err(NoSuchColumn(bad.value));
    }
    if Find(db.dmt, HasId(id)).Some? {
      return Err(DUPLICATE_ID);
    }
    var row := NewRecord(id, status, fields, now);
    AppendUniqueBy(db.dmt, row, RowKey);
    db.dmt := db.dmt + [row];
    r := Ok(row);
  }

  /** `UPDATE dmt_records SET … WHERE <pick>`: `f` on every picked row;
      `rowcount` is the number of rows picked. */
  method UpdateWhere(db: Database, pick: DmtRow -> bool, f: DmtRow -> DmtRow) returns (rowcount: nat)
    requires db.Valid() && KeepsId(f)
    modifies db
    ensures db.Valid() && db.tables == old(db.tables) && db.audit == old(db.audit)
    ensures rowcount == |Filter(old(db.dmt), pick)|
    ensures db.dmt == Map(old(db.dmt), Where(pick, f))
  {
    rowcount := |Filter(db.dmt, pick)|;
    MapUniqueBy(db.dmt, Where(pick, f), RowKey);
    db.dmt := Map(db.dmt, Where(pick, f));
  }

  /** No picked row means a zero row count. */
  lemma NoneUpdated(dmt: seq<DmtRow>, pick: DmtRow -> bool)
    ensures |Filter(dmt, pick)| == 0 <==> forall x :: x in dmt ==> !pick(x)
  {
    if |Filter(dmt, pick)| != 0 {
      assert Filter(dmt, pick)[0] in Filter(dmt, pick);
    }
  }

  /** After an update of the active record `id` that keeps it active, reading
      it gives the rewritten record, and every other record reads as before. */
  lemma ReadAfterUpdate(dmt: seq<DmtRow>, id: string, f: DmtRow -> DmtRow, other: string)
    requires UniqueBy(dmt, RowKey) && KeepsId(f) && forall r :: f(r).isActive == r.isActive
    requires ActiveRecord(dmt, id).Some?
    ensures ActiveRecord(Map(dmt, Where(IsActiveRecord(id), f)), id) == Some(f(ActiveRecord(dmt, id).value))
    ensures other != id ==> ActiveRecord(Map(dmt, Where(IsActiveRecord(id), f)), other) == ActiveRecord(dmt, other)
  {
    var after := Map(dmt, Where(IsActiveRecord(id), f));
    var before := ActiveRecord(dmt, id).value;
    var i :| 0 <= i < |dmt| && dmt[i] == before && forall j :: 0 <= j < i ==> !IsActiveRecord(id)(dmt[j]);
    assert after[i] == f(before);
    forall j | 0 <= j < i ensures !IsActiveRecord(id)(after[j]) {
      assert after[j] == dmt[j];
    }
    assert FindIndex(after, IsActiveRecord(id)) == i;
    if other != id {
      FindMapAgree(dmt, Where(IsActiveRecord(id), f), IsActiveRecord(other));
    }
  }

  /** After deactivating the record `id`, no active record has that id, and
      every other record reads as before. */
  lemma GoneAfterDelete(dmt: seq<DmtRow>, pick: DmtRow -> bool, id: string, now: int, other: string)
    requires forall r :: pick(r) ==> r.id == id
    requires forall r: DmtRow :: r.id == id && r.isActive ==> pick(r)
    ensures ActiveRecord(Map(dmt, Where(pick, Deactivated(now))), id).None?
    ensures other != id ==> ActiveRecord(Map(dmt, Where(pick, Deactivated(now))), other) == ActiveRecord(dmt, other)
  {
    var after := Map(dmt, Where(pick, Deactivated(now)));
    forall x | x in after ensures !(x.id == id && x.isActive) {
      var i :| 0 <= i < |after| && after[i] == x;
    }
    if other != id {
      FindMapAgree(dmt, Where(pick, Deactivated(now)), IsActiveRecord(other));
    }
  }
}
