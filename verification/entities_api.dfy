/** The REST endpoints over the entity tables: list, export, create, update
    and delete. Each checks the session user, then turns the path's entity
    name into an entity type, and hands the work to that table's
    repository. A handler's result is the value it returns or the status and
    detail of the `HTTPException` it raises; an exception nothing catches
    is a 500. */
module EntitiesApi {
  import opened Common
  import opened Seqs
  import opened Strings
  import opened Config
  import opened Tables
  import opened ExportService
  import opened BaseRepository
  import Auth
  import DmtApi

  const INVALID_ENTITY := "Invalid entity type"
  const ENTITY_NOT_FOUND := "Entity not found"

  /** The two checks every handler starts with: 401 without a session user,
      then 400 for a name that is no entity type; the repository is not
      touched before both pass. */
  function Resolve(user: Option<Auth.UserInfo>, entity: string): (r: Outcome<EntityType>)
    ensures user.None? ==> r == Fail(401, DmtApi.NOT_AUTHENTICATED)
    ensures user.Some? && ParseEntityType(entity).None? ==> r == Fail(400, INVALID_ENTITY)
    ensures r.Pass? <==> user.Some? && ParseEntityType(entity).Some?
    ensures r.Pass? ==> TableName(r.value) == entity
  {
    if user.None? then Fail(401, DmtApi.NOT_AUTHENTICATED)
    else match ParseEntityType(entity)
      case None => Fail(400, INVALID_ENTITY)
      case Some(t) => Pass(t)
  }

  /** A query parameter that is empty is passed on as `None`. */
  function SearchArg(search: string): Option<string> {
    if search == "" then None else Some(search)
  }

  /** `GET /api/entities/{entity}`: the first page of the active rows whose
      name contains the search, newest first, and how many there are. */
  function ListEntities(db: Database, user: Option<Auth.UserInfo>, entity: string, search: string, now: int)
      : (r: Outcome<Page>)
    reads db
    ensures Resolve(user, entity).Fail? ==> r == Fail(Resolve(user, entity).code, Resolve(user, entity).detail)
    ensures r.Pass? ==> Resolve(user, entity).Pass?
    ensures r.Pass? ==>
              var rows := db.Table(Resolve(user, entity).value);
              && r.value.total == |Filter(rows, ListedBy(None, SearchArg(search), now))|
              && |r.value.items| == Min(PAGE_SIZE, r.value.total)
              && r.value.items == Matching(rows, None, SearchArg(search), now)[..|r.value.items|]
              && forall x :: x in r.value.items ==> x in rows && x.isActive && (search == "" || Like(x.name, search))
  {
    match Resolve(user, entity)
    case Fail(code, detail) => Fail(code, detail)
    case Pass(t) => Pass(Listing(db.Table(t), None, 1, SearchArg(search), now))
  }

  // ---------------------------------------------------------------------------
  // Export

  /** The loop that gathers every page: it stops at the first empty page or
      once it holds `total` rows, and then holds every listed row once,
      newest first. */
  method ExportAll(repo: Repository, days: Option<int>, now: int) returns (items: seq<EntityItem>)
    ensures items == Matching(repo.Rows(), days, None, now)
  {
    ghost var all := Matching(repo.Rows(), days, None, now);
    items := [];
    var page := 1;
    while true
      invariant page >= 1
      invariant items == all[..Min((page - 1) * PAGE_SIZE, |all|)]
      decreases |all| - |items|
    {
      var listing := repo.GetAll(days, page, None, now);
      if listing.items == [] {
        assert all[..|all|] == all;
        break;
      }
      NextWindow(all, (page - 1) * PAGE_SIZE, PAGE_SIZE);
      items := items + listing.items;
      if |items| >= listing.total {
        assert all[..|all|] == all;
        break;
      }
      page := page + 1;
    }
  }

  /** The dictionaries of entity rows, as the repository hands them out. */
  function ItemDicts(t: EntityType, items: seq<EntityItem>): (r: seq<Row>)
    ensures |r| == |items| && forall i :: 0 <= i < |items| ==> r[i] == ItemDict(t, items[i])
  {
    Map(items, (x: EntityItem) => ItemDict(t, x))
  }

  /** Rows of one entity table have the same columns, so their CSV export
      never fails. */
  lemma ExportableItems(t: EntityType, items: seq<EntityItem>)
    ensures CsvBody(CleanAll(ItemDicts(t, items))).Ok?
  {
    var dicts := ItemDicts(t, items);
    var clean := CleanAll(dicts);
    if clean != [] {
      forall i | 0 <= i < |clean| ensures Keys(clean[i]) == ExportedColumns(t) {
        assert clean[i] == Clean(ItemDict(t, items[i]));
        CleanedItemKeys(t, items[i]);
      }
      SameKeysExport(clean);
    }
  }

  /** The columns of an exported entity row. */
  function ExportedColumns(t: EntityType): seq<string> {
    ["id", "name", "created_at", "updated_at"] + (if t == Employees then ["employee_number"] else [])
  }

  lemma CleanedItemKeys(t: EntityType, x: EntityItem)
    ensures Keys(Clean(ItemDict(t, x))) == ExportedColumns(t)
  {
    CleanEntityRow(t, x);
  }

  /** `GET /api/entities/{entity}/export/{format}`: every listed row of the
      table, newest first, as CSV for `"csv"` and as JSON otherwise. */
  method ExportEntities(db: Database, user: Option<Auth.UserInfo>, entity: string, format: string,
                        days: Option<int>, now: int) returns (r: Outcome<DmtApi.Download>)
    ensures Resolve(user, entity).Fail? ==> r == Fail(Resolve(user, entity).code, Resolve(user, entity).detail)
    ensures Resolve(user, entity).Pass? ==>
              var t := Resolve(user, entity).value;
              var dicts := ItemDicts(t, Matching(db.Table(t), days, None, now));
              && (format == "csv" ==> CsvBody(CleanAll(dicts)).Ok? && r == Pass(DmtApi.CsvFile(CsvBody(CleanAll(dicts)).value)))
              && (format != "csv" ==> r == Pass(DmtApi.JsonFile(CleanAll(dicts))))
  {
    var resolved := Resolve(user, entity);
    if resolved.Fail? {
      return Fail(resolved.code, resolved.detail);
    }
    var t := resolved.value;
    var repo := new Repository(t, db);
    var items := ExportAll(repo, days, now);
    var dicts := ItemDicts(t, items);
    if format == "csv" {
      ExportableItems(t, items);
      var body := ExportCsv(dicts);
      r := Pass(DmtApi.CsvFile(body.value));
    } else {
      var body := ExportJson(dicts);
      r := Pass(DmtApi.JsonFile(body));
    }
  }

  // ---------------------------------------------------------------------------
  // Create, update, delete

  /** The employee number `create_entity` passes on: stripped, for
      `employees` and a non-empty value only. */
  function CreateNumber(entity: string, employeeNumber: Option<string>): Option<string> {
    if entity == "employees" && employeeNumber.Some? && employeeNumber.value != "" then Some(Strip(employeeNumber.value))
    else None
  }

  /** The employee number `update_entity` passes on: stripped, for
      `employees` and any value that is present, even an empty one. */
  function UpdateNumber(entity: string, employeeNumber: Option<string>): Option<string> {
    if entity == "employees" && employeeNumber.Some? then Some(Strip(employeeNumber.value)) else None
  }

  /** A created employee keeps the number exactly when it has visible
      characters; no other table stores one. */
  lemma CreateStoresNumber(t: EntityType, entity: string, employeeNumber: Option<string>, id: string, name: string, now: int)
    requires ParseEntityType(entity) == Some(t)
    ensures var x := NewItem(t, id, name, CreateNumber(entity, employeeNumber), now);
            && (x.employeeNumber.Some? <==> t == Employees && employeeNumber.Some? && Strip(employeeNumber.value) != "")
            && (x.employeeNumber.Some? ==> x.employeeNumber.value == Strip(employeeNumber.value))
  {
    ParseTableName(t);
    if t == Employees && employeeNumber.Some? && Strip(employeeNumber.value) != "" {
      assert employeeNumber.value != "";
    }
  }

  /** An update of an employee writes whatever number is sent, stripped,
      even when nothing visible is left, which a create would not store; an
      update that sends none keeps the old number. */
  lemma UpdateWritesNumber(t: EntityType, entity: string, employeeNumber: Option<string>, x: EntityItem, name: string, now: int)
    requires ParseEntityType(entity) == Some(t)
    ensures var y := Renamed(x, t, name, UpdateNumber(entity, employeeNumber), now);
            && (t == Employees && employeeNumber.Some? ==> y.employeeNumber == Some(Strip(employeeNumber.value)))
            && (!(t == Employees && employeeNumber.Some?) ==> y.employeeNumber == x.employeeNumber)
  {
    ParseTableName(t);
  }

  /** `POST /api/entities/{entity}`: the stripped name and number created
      through the repository; a repeated id raises, which nothing catches. */
  method CreateEntity(db: Database, user: Option<Auth.UserInfo>, entity: string, name: string,
                      employeeNumber: Option<string>, uuid: string, now: int) returns (r: Outcome<EntityItem>)
    requires db.Valid()
    modifies db
    ensures db.Valid() && db.dmt == old(db.dmt)
    ensures Resolve(user, entity).Fail? ==>
              r == Fail(Resolve(user, entity).code, Resolve(user, entity).detail)
              && db.tables == old(db.tables) && db.audit == old(db.audit)
    ensures Resolve(user, entity).Pass? ==>
              var t := Resolve(user, entity).value;
              var rows := old(db.Table(t));
              && (Find(rows, WithId(ShortId(uuid))).Some? ==>
                    r == Fail(500, DmtApi.INTERNAL_ERROR) && db.tables == old(db.tables) && db.audit == old(db.audit))
              && (Find(rows, WithId(ShortId(uuid))).None? ==>
                    var x := NewItem(t, ShortId(uuid), Strip(name), CreateNumber(entity, employeeNumber), now);
                    && r == Pass(x)
                    && db.tables == old(db.tables)[t := rows + [x]]
                    && db.audit == old(db.audit) + [NextEntry(old(db.audit), entity, ShortId(uuid), "CREATE", None,
                                                              Some(CreateChanges(x)), now)])
  {
    var resolved := Resolve(user, entity);
    if resolved.Fail? {
      return Fail(resolved.code, resolved.detail);
    }
    var repo := new Repository(resolved.value, db);
    var created := repo.Create(Strip(name), CreateNumber(entity, employeeNumber), uuid, now);
    if created.Err? {
      return Fail(500, DmtApi.INTERNAL_ERROR);
    }
    r := Pass(created.value);
  }

  /** `PUT /api/entities/{entity}/{item_id}`: the stripped name, and number
      as `UpdateNumber` says, written through the repository; 404 when the
      table has no row with the id. */
  method UpdateEntity(db: Database, user: Option<Auth.UserInfo>, entity: string, id: string, name: string,
                      employeeNumber: Option<string>, now: int) returns (r: Outcome<EntityItem>)
    requires db.Valid()
    modifies db
    ensures db.Valid() && db.dmt == old(db.dmt)
    ensures r.Fail? ==> db.tables == old(db.tables) && db.audit == old(db.audit)
    ensures Resolve(user, entity).Fail? ==> r == Fail(Resolve(user, entity).code, Resolve(user, entity).detail)
    ensures Resolve(user, entity).Pass? ==>
              var t := Resolve(user, entity).value;
              var rows := old(db.Table(t));
              && (Find(rows, WithId(id)).None? ==> r == Fail(404, ENTITY_NOT_FOUND))
              && (Find(rows, WithId(id)).Some? ==>
                    var before := Find(rows, WithId(id)).value;
                    var number := UpdateNumber(entity, employeeNumber);
                    && r == Pass(Renamed(before, t, Strip(name), number, now))
                    && db.tables == old(db.tables)[t := Map(rows, RenameWith(t, id, Strip(name), number, now))]
                    && db.audit == old(db.audit) + [NextEntry(old(db.audit), entity, id, "UPDATE", None,
                                                              Some(UpdateChanges(before, t, Strip(name), number)), now)])
  {
    var resolved := Resolve(user, entity);
    if resolved.Fail? {
      return Fail(resolved.code, resolved.detail);
    }
    var repo := new Repository(resolved.value, db);
    var updated := repo.Update(id, Strip(name), UpdateNumber(entity, employeeNumber), now);
    if updated.None? {
      return Fail(404, ENTITY_NOT_FOUND);
    }
    r := Pass(updated.value);
  }

  const DELETED := "Entity deleted successfully"

  /** `DELETE /api/entities/{entity}/{item_id}`: the repository's soft
      delete; 404 when the table has no row with the id. */
  method DeleteEntity(db: Database, user: Option<Auth.UserInfo>, entity: string, id: string, now: int)
      returns (r: Outcome<string>)
    requires db.Valid()
    modifies db
    ensures db.Valid() && db.dmt == old(db.dmt)
    ensures r.Fail? ==> db.tables == old(db.tables) && db.audit == old(db.audit)
    ensures Resolve(user, entity).Fail? ==> r == Fail(Resolve(user, entity).code, Resolve(user, entity).detail)
    ensures Resolve(user, entity).Pass? ==>
              var t := Resolve(user, entity).value;
              var rows := old(db.Table(t));
              && ((exists x :: x in rows && x.id == id) <==> r == Pass(DELETED))
              && (r.Fail? ==> r == Fail(404, ENTITY_NOT_FOUND))
              && (r.Pass? ==>
                    && db.tables == old(db.tables)[t := Map(rows, DeactivateWith(id, now))]
                    && db.audit == old(db.audit) + [NextEntry(old(db.audit), entity, id, "DELETE", None, None, now)])
  {
    var resolved := Resolve(user, entity);
    if resolved.Fail? {
      return Fail(resolved.code, resolved.detail);
    }
    var repo := new Repository(resolved.value, db);
    var deleted := repo.Delete(id, now);
    if !deleted {
      return Fail(404, ENTITY_NOT_FOUND);
    }
    r := Pass(DELETED);
  }
}
