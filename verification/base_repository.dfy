/** `Repository`: create, read, update and soft-delete for one entity table,
    with one audit entry per change. Reads see active rows only; listing
    filters by age and by name, orders newest first and pages by
    `PAGE_SIZE`. */
module BaseRepository {
  import opened Common
  import opened Seqs
  import opened Strings
  import opened Config
  import opened Tables

  // ---------------------------------------------------------------------------
  // Reads

  /** The `WHERE` of `get_all`: active, created within the last `days` days
      when `days` is truthy, named like `search` when `search` is truthy. */
  predicate Listed(x: EntityItem, days: Option<int>, search: Option<string>, now: int) {
    && x.isActive
    && (days.None? || days.value == 0 || x.createdAt >= now - days.value * SECONDS_PER_DAY)
    && (search.None? || search.value == "" || Like(x.name, search.value))
  }

  function ListedBy(days: Option<int>, search: Option<string>, now: int): EntityItem -> bool {
    (x: EntityItem) => Listed(x, days, search, now)
  }

  /** `ORDER BY created_at DESC`. */
  function NewestFirst(): (EntityItem, EntityItem) -> bool {
    (a: EntityItem, b: EntityItem) => a.createdAt >= b.createdAt
  }

  /** Every listed row, newest first: the result all pages are cut from. */
  function Matching(rows: seq<EntityItem>, days: Option<int>, search: Option<string>, now: int): (r: seq<EntityItem>)
    ensures |r| == |Filter(rows, ListedBy(days, search, now))|
    ensures forall x :: x in r <==> x in rows && Listed(x, days, search, now)
    ensures SortedBy(r, NewestFirst())
  {
    assert TotalPreorder(NewestFirst());
    var listed := Filter(rows, ListedBy(days, search, now));
    SortMembers(listed, NewestFirst());
    Sort(listed, NewestFirst())
  }

  /** `OFFSET (page - 1) * PAGE_SIZE`. */
  function Offset(page: int): int {
    (page - 1) * PAGE_SIZE
  }

  /** The `(items, total)` pair `get_all` returns. */
  datatype Page = Page(items: seq<EntityItem>, total: nat)

  /** `get_all(days, page, search)` on the rows of one table. */
  function Listing(rows: seq<EntityItem>, days: Option<int>, page: int, search: Option<string>, now: int): (r: Page)
    ensures r.total == |Filter(rows, ListedBy(days, search, now))|
    ensures |r.items| <= PAGE_SIZE
    ensures forall x :: x in r.items ==> x in rows && Listed(x, days, search, now)
    ensures SortedBy(r.items, NewestFirst())
  {
    var all := Matching(rows, days, search, now);
    WindowSorted(all, Offset(page), PAGE_SIZE, NewestFirst());
    WindowMembers(all, Offset(page), PAGE_SIZE);
    Page(Window(all, Offset(page), PAGE_SIZE), |all|)
  }

  /** Rows that are all listed and already newest first are their own listing. */
  lemma MatchingOfSorted(rows: seq<EntityItem>, days: Option<int>, search: Option<string>, now: int)
    requires forall x :: x in rows ==> Listed(x, days, search, now)
    requires SortedBy(rows, NewestFirst())
    ensures Matching(rows, days, search, now) == rows
  {
    forall x | x in rows ensures ListedBy(days, search, now)(x) {
    }
    FilterAll(rows, ListedBy(days, search, now));
    assert TotalPreorder(NewestFirst());
    SortOfSorted(rows, NewestFirst());
  }

  /** Pages `1..k` of a listing, concatenated in order. */
  function Pages(rows: seq<EntityItem>, days: Option<int>, search: Option<string>, now: int, k: nat): seq<EntityItem> {
    if k == 0 then [] else Pages(rows, days, search, now, k - 1) + Listing(rows, days, k, search, now).items
  }

  /** Pages `1..k` are the first `k * PAGE_SIZE` listed rows: no row is
      skipped or repeated between consecutive pages. */
  lemma PagesArePrefix(rows: seq<EntityItem>, days: Option<int>, search: Option<string>, now: int, k: nat)
    ensures var all := Matching(rows, days, search, now);
            Pages(rows, days, search, now, k) == all[..Min(k * PAGE_SIZE, |all|)]
  {
    PagesAreWindows(rows, days, search, now, k);
    WindowsArePrefix(Matching(rows, days, search, now), k);
  }

  /** The windows of pages `1..k` of `all`, concatenated. */
  function Windows<T>(all: seq<T>, k: nat): seq<T> {
    if k == 0 then [] else Windows(all, k - 1) + Window(all, Offset(k), PAGE_SIZE)
  }

  lemma {:induction false} WindowsArePrefix<T>(all: seq<T>, k: nat)
    ensures Windows(all, k) == all[..Min(k * PAGE_SIZE, |all|)]
  {
    if k == 0 {
      assert all[..0] == [];
    } else {
      WindowsArePrefix(all, k - 1);
      PageStep(all, Windows(all, k - 1), Window(all, Offset(k), PAGE_SIZE), k);
    }
  }

  /** Page by page, `Pages` reads the windows of the listed rows. */
  lemma {:induction false} PagesAreWindows(rows: seq<EntityItem>, days: Option<int>, search: Option<string>, now: int, k: nat)
    ensures Pages(rows, days, search, now, k) == Windows(Matching(rows, days, search, now), k)
  {
    if k > 0 {
      PagesAreWindows(rows, days, search, now, k - 1);
      ListingItems(rows, days, k, search, now);
    }
  }

  /** The first `k - 1` pages followed by page `k` are the first `k` pages. */
  lemma PageStep<T>(all: seq<T>, prev: seq<T>, page: seq<T>, k: nat)
    requires k >= 1 && prev == all[..Min((k - 1) * PAGE_SIZE, |all|)]
    requires page == Window(all, Offset(k), PAGE_SIZE)
    ensures prev + page == all[..Min(k * PAGE_SIZE, |all|)]
  {
    NextWindow(all, Offset(k), PAGE_SIZE);
  }

  /** Page `page` holds the window of the listed rows at its offset. */
  lemma ListingItems(rows: seq<EntityItem>, days: Option<int>, page: int, search: Option<string>, now: int)
    ensures Listing(rows, days, page, search, now).items == Window(Matching(rows, days, search, now), Offset(page), PAGE_SIZE)
  {
  }

  /** Enough pages together hold every listed row exactly once, in order. */
  lemma PagesComplete(rows: seq<EntityItem>, days: Option<int>, search: Option<string>, now: int, k: nat)
    requires k * PAGE_SIZE >= |Filter(rows, ListedBy(days, search, now))|
    ensures Pages(rows, days, search, now, k) == Matching(rows, days, search, now)
  {
    PagesArePrefix(rows, days, search, now, k);
  }

  /** `WHERE id = ? AND is_active = 1`. */
  function ActiveWithId(id: string): EntityItem -> bool {
    (x: EntityItem) => x.id == id && x.isActive
  }

  /** `get_by_id`: the active row with the id. */
  function ItemById(rows: seq<EntityItem>, id: string): (r: Option<EntityItem>)
    ensures r.Some? ==> r.value in rows && r.value.id == id && r.value.isActive
    ensures r.None? <==> forall x :: x in rows ==> !(x.id == id && x.isActive)
  {
    Find(rows, ActiveWithId(id))
  }

  /** `WHERE id = ?` with no condition on `is_active`. */
  function WithId(id: string): EntityItem -> bool {
    (x: EntityItem) => x.id == id
  }

  // ---------------------------------------------------------------------------
  // Writes

  /** `str(uuid.uuid4())[:8]`. */
  function ShortId(uuid: string): (r: string)
    ensures |r| == Min(8, |uuid|) && IsPrefix(r, uuid)
  {
    if |uuid| >= 8 then uuid[..8] else uuid
  }

  /** Whether `create` stores an employee number: on `employees`, and only a
      non-empty one. */
  predicate StoresNumber(t: EntityType, employeeNumber: Option<string>) {
    t == Employees && employeeNumber.Some? && employeeNumber.value != ""
  }

  /** The row `create` inserts; the columns left out of the `INSERT` take
      their defaults. */
  function NewItem(t: EntityType, id: string, name: string, employeeNumber: Option<string>, now: int): (x: EntityItem)
    ensures x.id == id && x.name == name && x.isActive
    ensures x.createdAt == now && x.updatedAt == now
    ensures x.employeeNumber.Some? <==> StoresNumber(t, employeeNumber)
    ensures x.employeeNumber.Some? ==> x.employeeNumber == employeeNumber
  {
    EntityItem(id, name, if StoresNumber(t, employeeNumber) then employeeNumber else None, now, now, true)
  }

  /** The `changes` recorded for a creation: the name, and the employee
      number when one was stored. */
  function CreateChanges(x: EntityItem): Json {
    if x.employeeNumber.Some? then JObject([("name", JText(x.name)), ("employee_number", JText(x.employeeNumber.value))])
    else JObject([("name", JText(x.name))])
  }

  /** The entry `create` logs for its new row `x`. */
  function CreateEntry(audit: seq<AuditEntry>, t: EntityType, x: EntityItem, now: int): AuditEntry {
    NextEntry(audit, TableName(t), x.id, "CREATE", None, Some(CreateChanges(x)), now)
  }

  /** Whether `update` writes an employee number: on `employees`, whenever
      one is passed, even an empty one. */
  predicate WritesNumber(t: EntityType, employeeNumber: Option<string>) {
    t == Employees && employeeNumber.Some?
  }

  /** The row after `UPDATE … SET name = ?[, employee_number = ?], updated_at = CURRENT_TIMESTAMP`. */
  function Renamed(x: EntityItem, t: EntityType, name: string, employeeNumber: Option<string>, now: int): (y: EntityItem)
    ensures y.id == x.id && y.name == name && y.isActive == x.isActive && y.createdAt == x.createdAt
    ensures y.updatedAt == now
    ensures y.employeeNumber == if WritesNumber(t, employeeNumber) then employeeNumber else x.employeeNumber
  {
    x.(name := name, employeeNumber := if WritesNumber(t, employeeNumber) then employeeNumber else x.employeeNumber,
       updatedAt := now)
  }

  /** The update applied to the table: the row with the id renamed, the others as they were. */
  function RenameWith(t: EntityType, id: string, name: string, employeeNumber: Option<string>, now: int): EntityItem -> EntityItem {
    (x: EntityItem) => if x.id == id then Renamed(x, t, name, employeeNumber, now) else x
  }

  /** The `changes` recorded for an update: old and new name, and on the
      employee branch old and new employee number as well. */
  function UpdateChanges(before: EntityItem, t: EntityType, name: string, employeeNumber: Option<string>): Json {
    if WritesNumber(t, employeeNumber) then
      JObject([("old", JObject([("name", JText(before.name)), ("employee_number", JsonText(before.employeeNumber))])),
               ("new", JObject([("name", JText(name)), ("employee_number", JsonText(employeeNumber))]))])
    else JObject([("old", JText(before.name)), ("new", JText(name))])
  }

  /** The soft delete applied to the table: `is_active = 0` and a fresh
      `updated_at` on the row with the id, whether or not it was active. */
  function DeactivateWith(id: string, now: int): EntityItem -> EntityItem {
    (x: EntityItem) => if x.id == id then x.(isActive := false, updatedAt := now) else x
  }

  /** The message of the `IntegrityError` a colliding id raises. */
  function DuplicateIdMessage(t: EntityType): string {
    "UNIQUE constraint failed: " + TableName(t) + ".id"
  }

  class Repository {
    const entityType: EntityType
    const db: Database

    constructor(entityType: EntityType, db: Database)
      ensures this.entityType == entityType && this.db == db
    {
      this.entityType := entityType;
      this.db := db;
    }

    /** The rows of this repository's table. */
    function Rows(): seq<EntityItem>
      reads db
    {
      db.Table(entityType)
    }

    function GetAll(days: Option<int>, page: int, search: Option<string>, now: int): Page
      reads db
    {
      Listing(Rows(), days, page, search, now)
    }

    function GetById(id: string): Option<EntityItem>
      reads db
    {
      ItemById(Rows(), id)
    }

    /** `create(name, employee_number)`: a row under the first eight
        characters of `uuid` and one CREATE entry; an id already in the table
        (active or not) raises and nothing is committed. */
    method Create(name: string, employeeNumber: Option<string>, uuid: string, now: int) returns (r: Result<EntityItem>)
      requires db.Valid()
      modifies db
      ensures db.Valid() && db.dmt == old(db.dmt)
      ensures Find(old(Rows()), WithId(ShortId(uuid))).Some? ==>
                r == Err(DuplicateIdMessage(entityType)) && db.tables == old(db.tables) && db.audit == old(db.audit)
      ensures Find(old(Rows()), WithId(ShortId(uuid))).None? ==>
                && r == Ok(NewItem(entityType, ShortId(uuid), name, employeeNumber, now))
                && db.tables == old(db.tables)[entityType := old(Rows()) + [r.value]]
                && db.audit == old(db.audit) + [CreateEntry(old(db.audit), entityType, r.value, now)]
    {
      var id := ShortId(uuid);
      if Find(Rows(), WithId(id)).Some? {
        return Err(DuplicateIdMessage(entityType));
      }
      var item := NewItem(entityType, id, name, employeeNumber, now);
      var rows := Rows();
      AppendUniqueBy(rows, item, ItemKey);
      db.tables := db.tables[entityType := rows + [item]];
      db.Log(TableName(entityType), id, "CREATE", None, Some(CreateChanges(item)), now);
      r := Ok(item);
    }

    /** `update(item_id, name, employee_number)`: `None` and no change for an
        unknown id; otherwise the row (active or not) renamed, one UPDATE
        entry with the old and new values, and the row as it now reads. */
    method Update(id: string, name: string, employeeNumber: Option<string>, now: int) returns (r: Option<EntityItem>)
      requires db.Valid()
      modifies db
      ensures db.Valid() && db.dmt == old(db.dmt)
      ensures Find(old(Rows()), WithId(id)).None? ==>
                r.None? && db.tables == old(db.tables) && db.audit == old(db.audit)
      ensures Find(old(Rows()), WithId(id)).Some? ==>
                var before := Find(old(Rows()), WithId(id)).value;
                && r == Some(Renamed(before, entityType, name, employeeNumber, now))
                && db.tables == old(db.tables)[entityType := Map(old(Rows()), RenameWith(entityType, id, name, employeeNumber, now))]
                && db.audit == old(db.audit) + [NextEntry(old(db.audit), TableName(entityType), id, "UPDATE", None,
                                                          Some(UpdateChanges(before, entityType, name, employeeNumber)), now)]
    {
      var found := Find(Rows(), WithId(id));
      if found.None? {
        return None;
      }
      var before := found.value;
      var rows := Rows();
      MapUniqueBy(rows, RenameWith(entityType, id, name, employeeNumber, now), ItemKey);
      db.tables := db.tables[entityType := Map(rows, RenameWith(entityType, id, name, employeeNumber, now))];
      db.Log(TableName(entityType), id, "UPDATE", None, Some(UpdateChanges(before, entityType, name, employeeNumber)), now);
      r := Some(Renamed(before, entityType, name, employeeNumber, now));
    }

    /** `delete(item_id)`: a soft delete of the row with the id, active or
        not; true, with one DELETE entry, exactly when such a row exists. */
    method Delete(id: string, now: int) returns (deleted: bool)
      requires db.Valid()
      modifies db
      ensures db.Valid() && db.dmt == old(db.dmt)
      ensures deleted <==> exists x :: x in old(Rows()) && x.id == id
      ensures !deleted ==> db.tables == old(db.tables) && db.audit == old(db.audit)
      ensures deleted ==>
                && db.tables == old(db.tables)[entityType := Map(old(Rows()), DeactivateWith(id, now))]
                && db.audit == old(db.audit) + [NextEntry(old(db.audit), TableName(entityType), id, "DELETE", None, None, now)]
    {
      var rows := Rows();
      deleted := Find(rows, WithId(id)).Some?;
      if deleted {
        MapUniqueBy(rows, DeactivateWith(id, now), ItemKey);
        db.tables := db.tables[entityType := Map(rows, DeactivateWith(id, now))];
        db.Log(TableName(entityType), id, "DELETE", None, None, now);
      }
    }
  }

  // ---------------------------------------------------------------------------
  // What the writes mean for later reads

  /** A row just created reads back by its id, and on the first page of an
      unfiltered listing taken at the same instant. */
  lemma CreatedIsRead(rows: seq<EntityItem>, t: EntityType, id: string, name: string,
                      employeeNumber: Option<string>, now: int)
    requires Find(rows, WithId(id)).None?
    ensures ItemById(rows + [NewItem(t, id, name, employeeNumber, now)], id) == Some(NewItem(t, id, name, employeeNumber, now))
  {
    var x := NewItem(t, id, name, employeeNumber, now);
    var r := ItemById(rows + [x], id);
    assert x in rows + [x];
    forall y | y in rows + [x] && y.id == id ensures y == x {
      assert y !in rows;
    }
  }

  /** After a soft delete the row is never read again: `get_by_id` misses it
      and no page of any listing holds it. */
  lemma DeletedIsHidden(rows: seq<EntityItem>, id: string, now: int, days: Option<int>, page: int, search: Option<string>)
    ensures ItemById(Map(rows, DeactivateWith(id, now)), id).None?
    ensures forall x :: x in Listing(Map(rows, DeactivateWith(id, now)), days, page, search, now).items ==> x.id != id
  {
    var after := Map(rows, DeactivateWith(id, now));
    forall x | x in after ensures !(x.id == id && x.isActive) {
      var i :| 0 <= i < |after| && after[i] == x;
    }
  }

  /** A soft delete changes no other row: reads of other ids see what they saw before. */
  lemma DeleteKeepsOthers(rows: seq<EntityItem>, id: string, other: string, now: int)
    requires other != id
    ensures ItemById(Map(rows, DeactivateWith(id, now)), other) == ItemById(rows, other)
  {
    var after := Map(rows, DeactivateWith(id, now));
    FindMapAgree(rows, DeactivateWith(id, now), ActiveWithId(other));
  }

  /** A rename reads back by id exactly when the row is active. */
  lemma UpdatedIsRead(rows: seq<EntityItem>, t: EntityType, id: string, name: string,
                      employeeNumber: Option<string>, now: int)
    requires UniqueBy(rows, ItemKey) && Find(rows, WithId(id)).Some?
    ensures var before := Find(rows, WithId(id)).value;
            ItemById(Map(rows, RenameWith(t, id, name, employeeNumber, now)), id)
              == if before.isActive then Some(Renamed(before, t, name, employeeNumber, now)) else None
  {
    var before := Find(rows, WithId(id)).value;
    var k :| 0 <= k < |rows| && rows[k] == before;
    var after := Map(rows, RenameWith(t, id, name, employeeNumber, now));
    forall i | 0 <= i < |rows| && i != k ensures after[i].id != id {
      assert ItemKey(rows[i]) != ItemKey(rows[k]);
    }
    if before.isActive {
      assert after[k] == Renamed(before, t, name, employeeNumber, now);
      assert after[k] in after;
    }
  }
}
