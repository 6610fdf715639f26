/** The HTML routes over the entity tables: the list page and its pager,
    create, edit, update and delete forms, the CSV upload and the export.
    These routes check no login. The path's entity name is turned into an
    entity type without a guard, so an unknown name raises `ValueError`,
    which nothing catches outside the upload. The rendered templates are
    left out: a route's result is the data it hands its template and the
    toast it shows; the entity's display label comes from a helper that is
    not part of this model and is a parameter. */
module EntityRoutes {
  import opened Common
  import opened Seqs
  import opened Strings
  import opened Decimal
  import opened Config
  import opened Tables
  import opened ExportService
  import opened BaseRepository
  import opened CsvImport
  import EntitiesApi
  import DmtApi

  /** A toast: its text and its kind (`"success"`, `"error"` or `"info"`). */
  datatype Toast = Toast(message: string, kind: string)

  /** What `items_list.html` is given. */
  datatype ItemsView = ItemsView(items: seq<EntityItem>, total: nat, page: int, totalPages: nat)

  /** A route's answer: the refreshed list with a toast, a toast alone, or
      the edit form of one row. */
  datatype Reply = Refreshed(view: ItemsView, toast: Toast) | Alert(toast: Toast) | Editing(item: EntityItem)

  // ---------------------------------------------------------------------------
  // Pager

  /** `(total + PAGE_SIZE - 1) // PAGE_SIZE`: the number of pages, rounded up. */
  function TotalPages(total: nat): (r: nat)
    ensures r * PAGE_SIZE >= total
    ensures r == 0 || (r - 1) * PAGE_SIZE < total
    ensures r == 0 <==> total == 0
  {
    (total + PAGE_SIZE - 1) / PAGE_SIZE
  }

  /** One page of the list and its pager. */
  function ItemsList(rows: seq<EntityItem>, page: int, search: string, now: int): (v: ItemsView)
    ensures v.total == |Filter(rows, ListedBy(None, EntitiesApi.SearchArg(search), now))|
    ensures 1 <= page <= v.totalPages ==> v.items != []
    ensures page > v.totalPages ==> v.items == []
    ensures forall x :: x in v.items ==> x in rows && x.isActive
  {
    var listing := Listing(rows, None, page, EntitiesApi.SearchArg(search), now);
    ItemsView(listing.items, listing.total, page, TotalPages(listing.total))
  }

  /** Following the pager from page 1 to the last page shows every listed
      row once, newest first. */
  lemma PagerShowsAll(rows: seq<EntityItem>, search: string, now: int)
    ensures var total := |Filter(rows, ListedBy(None, EntitiesApi.SearchArg(search), now))|;
            Pages(rows, None, EntitiesApi.SearchArg(search), now, TotalPages(total))
              == Matching(rows, None, EntitiesApi.SearchArg(search), now)
  {
    var total := |Filter(rows, ListedBy(None, EntitiesApi.SearchArg(search), now))|;
    PagesComplete(rows, None, EntitiesApi.SearchArg(search), now, TotalPages(total));
  }

  /** `EntityType(entity)` outside a `try`: an unknown name is a 500. */
  function Entity(entity: string): (r: Outcome<EntityType>)
    ensures r.Pass? <==> ParseEntityType(entity).Some?
    ensures r.Pass? ==> TableName(r.value) == entity
    ensures r.Fail? ==> r == Fail(500, DmtApi.INTERNAL_ERROR)
  {
    match ParseEntityType(entity)
    case None => Fail(500, DmtApi.INTERNAL_ERROR)
    case Some(t) => Pass(t)
  }

  /** `entity_page` and `get_items`: a page of the list with its pager. */
  function GetItems(db: Database, entity: string, page: int, search: string, now: int): (r: Outcome<ItemsView>)
    reads db
    ensures r.Pass? <==> ParseEntityType(entity).Some?
    ensures r.Pass? ==> r.value.page == page && r.value.total == |Filter(db.Table(Entity(entity).value),
                                                       ListedBy(None, EntitiesApi.SearchArg(search), now))|
    ensures r.Pass? ==> r.value.items == Window(Matching(db.Table(Entity(entity).value), None, EntitiesApi.SearchArg(search), now),
                                                Offset(page), PAGE_SIZE)
  {
    match Entity(entity)
    case Fail(code, detail) => Fail(code, detail)
    case Pass(t) => Pass(ItemsList(db.Table(t), page, search, now))
  }

  // ---------------------------------------------------------------------------
  // Create, edit, update, delete

  const ITEM_NOT_FOUND := "Item not found"

  /** `create_item`: the stripped name, and the stripped number for
      `employees` when one was sent, created through the repository; then
      the first page and a success toast. A repeated id raises. */
  method CreateItem(db: Database, entity: string, name: string, employeeNumber: Option<string>, caption: string,
                    uuid: string, now: int) returns (r: Outcome<Reply>)
    requires db.Valid()
    modifies db
    ensures db.Valid() && db.dmt == old(db.dmt)
    ensures r.Fail? ==> r == Fail(500, DmtApi.INTERNAL_ERROR) && db.tables == old(db.tables) && db.audit == old(db.audit)
    ensures ParseEntityType(entity).None? ==> r.Fail?
    ensures ParseEntityType(entity).Some? ==>
              var t := ParseEntityType(entity).value;
              && (r.Pass? <==> Find(old(db.Table(t)), WithId(ShortId(uuid))).None?)
              && (r.Pass? ==>
                    var x := NewItem(t, ShortId(uuid), Strip(name), EntitiesApi.CreateNumber(entity, employeeNumber), now);
                    && db.tables == old(db.tables)[t := old(db.Table(t)) + [x]]
                    && db.audit == old(db.audit) + [NextEntry(old(db.audit), TableName(t), ShortId(uuid), "CREATE",
                                                              None, Some(CreateChanges(x)), now)]
                    && r.value == Refreshed(ItemsList(db.Table(t), 1, "", now), Toast(caption + " created successfully!", "success")))
  {
    var parsed := Entity(entity);
    if parsed.Fail? {
      return Fail(parsed.code, parsed.detail);
    }
    var t := parsed.value;
    var repo := new Repository(t, db);
    var created := repo.Create(Strip(name), EntitiesApi.CreateNumber(entity, employeeNumber), uuid, now);
    if created.Err? {
      return Fail(500, DmtApi.INTERNAL_ERROR);
    }
    r := Pass(Refreshed(ItemsList(db.Table(t), 1, "", now), Toast(caption + " created successfully!", "success")));
  }

  /** `edit_form`: the active row with the id, or the error toast. */
  function EditForm(db: Database, entity: string, id: string): (r: Outcome<Reply>)
    reads db
    ensures r.Pass? <==> ParseEntityType(entity).Some?
    ensures r.Pass? ==>
              var rows := db.Table(Entity(entity).value);
              && (r.value.Editing? <==> exists x :: x in rows && x.id == id && x.isActive)
              && (r.value.Editing? ==> r.value.item in rows && r.value.item.id == id && r.value.item.isActive)
              && (!r.value.Editing? ==> r.value == Alert(Toast(ITEM_NOT_FOUND, "error")))
  {
    match Entity(entity)
    case Fail(code, detail) => Fail(code, detail)
    case Pass(t) =>
      match ItemById(db.Table(t), id)
      case None => Pass(Alert(Toast(ITEM_NOT_FOUND, "error")))
      case Some(x) => Pass(Editing(x))
  }

  /** `update_item`: the stripped name, and the stripped number for
      `employees` whenever one is sent, written through the repository; the
      "not found" toast, with nothing written, when the table has no row
      with the id. */
  method UpdateItem(db: Database, entity: string, id: string, name: string, employeeNumber: Option<string>,
                    caption: string, now: int) returns (r: Outcome<Reply>)
    requires db.Valid()
    modifies db
    ensures db.Valid() && db.dmt == old(db.dmt)
    ensures ParseEntityType(entity).None? ==>
              r == Fail(500, DmtApi.INTERNAL_ERROR) && db.tables == old(db.tables) && db.audit == old(db.audit)
    ensures ParseEntityType(entity).Some? ==>
              var t := ParseEntityType(entity).value;
              var rows := old(db.Table(t));
              && (Find(rows, WithId(id)).None? ==>
                    r == Pass(Alert(Toast(ITEM_NOT_FOUND, "error"))) && db.tables == old(db.tables) && db.audit == old(db.audit))
              && (Find(rows, WithId(id)).Some? ==>
                    && db.tables == old(db.tables)[t := Map(rows, RenameWith(t, id, Strip(name), EntitiesApi.UpdateNumber(entity, employeeNumber), now))]
                    && db.audit == old(db.audit) + [NextEntry(old(db.audit), TableName(t), id, "UPDATE", None,
                                                              Some(UpdateChanges(Find(rows, WithId(id)).value, t, Strip(name),
                                                                                 EntitiesApi.UpdateNumber(entity, employeeNumber))), now)]
                    && r == Pass(Refreshed(ItemsList(db.Table(t), 1, "", now), Toast(caption + " updated successfully!", "success"))))
  {
    var parsed := Entity(entity);
    if parsed.Fail? {
      return Fail(parsed.code, parsed.detail);
    }
    var t := parsed.value;
    var repo := new Repository(t, db);
    var updated := repo.Update(id, Strip(name), EntitiesApi.UpdateNumber(entity, employeeNumber), now);
    if updated.None? {
      return Pass(Alert(Toast(ITEM_NOT_FOUND, "error")));
    }
    r := Pass(Refreshed(ItemsList(db.Table(t), 1, "", now), Toast(caption + " updated successfully!", "success")));
  }

  /** `delete_item`: the repository's soft delete; the "not found" toast,
      with nothing written, when the table has no row with the id. */
  method DeleteItem(db: Database, entity: string, id: string, caption: string, now: int) returns (r: Outcome<Reply>)
    requires db.Valid()
    modifies db
    ensures db.Valid() && db.dmt == old(db.dmt)
    ensures ParseEntityType(entity).None? ==>
              r == Fail(500, DmtApi.INTERNAL_ERROR) && db.tables == old(db.tables) && db.audit == old(db.audit)
    ensures ParseEntityType(entity).Some? ==>
              var t := ParseEntityType(entity).value;
              var rows := old(db.Table(t));
              && ((forall x :: x in rows ==> x.id != id) ==>
                    r == Pass(Alert(Toast(ITEM_NOT_FOUND, "error"))) && db.tables == old(db.tables) && db.audit == old(db.audit))
              && ((exists x :: x in rows && x.id == id) ==>
                    && db.tables == old(db.tables)[t := Map(rows, DeactivateWith(id, now))]
                    && db.audit == old(db.audit) + [NextEntry(old(db.audit), TableName(t), id, "DELETE", None, None, now)]
                    && r == Pass(Refreshed(ItemsList(db.Table(t), 1, "", now), Toast(caption + " deleted successfully!", "success"))))
  {
    var parsed := Entity(entity);
    if parsed.Fail? {
      return Fail(parsed.code, parsed.detail);
    }
    var t := parsed.value;
    var repo := new Repository(t, db);
    var deleted := repo.Delete(id, now);
    if !deleted {
      return Pass(Alert(Toast(ITEM_NOT_FOUND, "error")));
    }
    r := Pass(Refreshed(ItemsList(db.Table(t), 1, "", now), Toast(caption + " deleted successfully!", "success")));
  }

  // ---------------------------------------------------------------------------
  // CSV upload

  const NOT_CSV := "Please upload a CSV file"
  const NO_ITEMS := "No valid items found in CSV"
  const ERRORS_SHOWN := 5

  /** The tail added when more errors were found than are shown. */
  function MoreErrors(hidden: int): string {
    "<br>...and " + IntToString(hidden) + " more errors"
  }

  /** The parse errors as the toast lists them: the first five joined by
      line breaks, then how many more there were. */
  function ErrorSummary(errors: seq<string>): (r: string)
    ensures var shown := Join(errors[..Min(ERRORS_SHOWN, |errors|)], "<br>");
            && IsPrefix(shown, r)
            && (|errors| <= ERRORS_SHOWN ==> r == shown)
            && (|errors| > ERRORS_SHOWN ==> r[|shown|..] == MoreErrors(|errors| - ERRORS_SHOWN))
  {
    var shown := Join(errors[..Min(ERRORS_SHOWN, |errors|)], "<br>");
    if |errors| > ERRORS_SHOWN then shown + MoreErrors(|errors| - ERRORS_SHOWN) else shown
  }

  /** The start of the import toast. */
  function ImportedHead(success: nat): string {
    "✓ Imported " + IntToString(success) + " items"
  }

  /** The import toast's text. */
  function ImportMessage(success: nat, skipped: nat, errorCount: nat): (r: string)
    ensures IsPrefix(ImportedHead(success), r)
  {
    ImportedHead(success)
    + (if skipped > 0 then ", skipped " + IntToString(skipped) + " duplicates" else "")
    + (if errorCount > 0 then "<br>⚠ " + IntToString(errorCount) + " errors occurred" else "")
  }

  /** The toast can be read back: skips are mentioned (the text goes on with
      a comma after the head) exactly when there were some, and errors (the
      text ends "errors occurred") exactly when there were some. */
  lemma ImportMessageReadsBack(success: nat, skipped: nat, errorCount: nat)
    ensures var head := ImportedHead(success);
            var r := ImportMessage(success, skipped, errorCount);
            && (skipped > 0 <==> |r| > |head| && r[|head|] == ',')
            && (errorCount > 0 <==> EndsWith(r, " errors occurred"))
  {
    var head := ImportedHead(success);
    var skips := if skipped > 0 then ", skipped " + IntToString(skipped) + " duplicates" else "";
    var errs := if errorCount > 0 then "<br>⚠ " + IntToString(errorCount) + " errors occurred" else "";
    var r := ImportMessage(success, skipped, errorCount);
    assert r == head + skips + errs;
    if skipped > 0 {
      assert r[|head|] == skips[0];
    } else if errorCount > 0 {
      assert r[|head|] == errs[0];
    }
    if errorCount == 0 {
      assert r == head + skips;
      assert r[|r| - 1] == 's';
      NotEndsWith(r, " errors occurred");
    } else {
      assert EndsWith(errs, " errors occurred");
      EndsWithAppend(head + skips, errs, " errors occurred");
    }
  }

  /** A suffix of the tail is a suffix of the whole. */
  lemma EndsWithAppend(a: string, b: string, t: string)
    requires EndsWith(b, t)
    ensures EndsWith(a + b, t)
  {
    assert (a + b)[|a + b| - |t|..] == b[|b| - |t|..];
  }

  /** Text whose last character differs from the last of `t` does not end with `t`. */
  lemma NotEndsWith(s: string, t: string)
    requires s != [] && t != [] && s[|s| - 1] != t[|t| - 1]
    ensures !EndsWith(s, t)
  {
  }

  /** The toast's kind: `"info"` when some item failed. */
  function ImportKind(errorCount: nat): (k: string)
    ensures k == "info" <==> errorCount > 0
    ensures k != "info" ==> k == "success"
  {
    if errorCount == 0 then "success" else "info"
  }

  /** `str(ValueError)` for an unknown entity name. */
  function NotAnEntityType(entity: string): string {
    "'" + entity + "' is not a valid EntityType"
  }

  /** `upload_csv` on a file already decoded and split into a header and
      records: a name that does not end in `.csv`, parse errors, an upload
      with no items and an unknown entity name each answer an error toast
      and write nothing; otherwise the items are imported as `ImportRun`
      says and the first page comes back with a toast that counts them. */
  method UploadCsv(db: Database, entity: string, filename: string, header: seq<string>, records: seq<seq<string>>,
                   uuidAt: nat -> string, now: int) returns (r: Reply)
    requires db.Valid()
    modifies db
    ensures db.Valid() && db.dmt == old(db.dmt)
    ensures r.Alert? ==> r.toast.kind == "error" && db.tables == old(db.tables) && db.audit == old(db.audit)
    ensures !EndsWith(filename, ".csv") ==> r == Alert(Toast(NOT_CSV, "error"))
    ensures EndsWith(filename, ".csv") ==>
              var items := CsvResult(header, records, entity).0;
              var errs := CsvResult(header, records, entity).1;
              && (errs != [] ==> r == Alert(Toast("CSV parsing errors:<br>" + ErrorSummary(errs), "error")))
              && (errs == [] && items == [] ==> r == Alert(Toast(NO_ITEMS, "error")))
              && (errs == [] && items != [] && ParseEntityType(entity).None? ==>
                    r == Alert(Toast("Upload failed: " + NotAnEntityType(entity), "error")))
              && (errs == [] && items != [] && ParseEntityType(entity).Some? ==>
                    var t := ParseEntityType(entity).value;
                    var run := ImportRun(t, old(db.Table(t)), items, uuidAt, now);
                    && db.Table(t) == run.rows
                    && (forall u :: u != t ==> db.Table(u) == old(db.Table(u)))
                    && |db.audit| == |old(db.audit)| + run.success
                    && db.audit == CreateLog(old(db.audit), t, run.rows[|old(db.Table(t))|..], now)
                    && r == Refreshed(ItemsList(run.rows, 1, "", now),
                                      Toast(ImportMessage(run.success, run.skipped, |run.errors|), ImportKind(|run.errors|))))
    ensures !r.Alert? ==> EndsWith(filename, ".csv") && ParseEntityType(entity).Some?
    ensures r.Refreshed? ==>
              var t := ParseEntityType(entity).value;
              && |old(db.Table(t))| <= |db.Table(t)|
              && db.Table(t)[..|old(db.Table(t))|] == old(db.Table(t))
              && NoNewDuplicates(db.Table(t), |old(db.Table(t))|)
              && (r.toast.kind == "info" <==> EndsWith(r.toast.message, " errors occurred"))
  {
    if !EndsWith(filename, ".csv") {
      return Alert(Toast(NOT_CSV, "error"));
    }
    var items, parseErrors := ParseCsv(header, records, entity);
    if parseErrors != [] {
      return Alert(Toast("CSV parsing errors:<br>" + ErrorSummary(parseErrors), "error"));
    }
    if items == [] {
      return Alert(Toast(NO_ITEMS, "error"));
    }
    var parsed := ParseEntityType(entity);
    if parsed.None? {
      return Alert(Toast("Upload failed: " + NotAnEntityType(entity), "error"));
    }
    var t := parsed.value;
    var repo := new Repository(t, db);
    var success, skipped, importErrors := ImportItems(repo, items, uuidAt, now);
    ImportRunCounts(t, old(db.Table(t)), items, uuidAt, now);
    ImportRunNoDuplicates(t, old(db.Table(t)), items, uuidAt, now);
    ImportMessageReadsBack(success, skipped, |importErrors|);
    r := Refreshed(ItemsList(db.Table(t), 1, "", now),
                   Toast(ImportMessage(success, skipped, |importErrors|), ImportKind(|importErrors|)));
  }

  // ---------------------------------------------------------------------------
  // Export

  /** A `days` of zero lists like no `days` at all. */
  lemma ZeroDaysListAll(rows: seq<EntityItem>, now: int)
    ensures Matching(rows, Some(0), None, now) == Matching(rows, None, None, now)
  {
    FilterAgree(rows, ListedBy(Some(0), None, now), ListedBy(None, None, now));
  }

  /** `export_data`: every listed row of the table, newest first, gathered
      page by page, within the last `days` days when `days` is truthy; CSV
      for `"csv"`, JSON otherwise. */
  method ExportData(db: Database, entity: string, format: string, days: Option<int>, now: int)
      returns (r: Outcome<DmtApi.Download>)
    ensures ParseEntityType(entity).None? ==> r == Fail(500, DmtApi.INTERNAL_ERROR)
    ensures ParseEntityType(entity).Some? ==>
              var t := ParseEntityType(entity).value;
              var dicts := EntitiesApi.ItemDicts(t, Matching(db.Table(t), days, None, now));
              && (format == "csv" ==> CsvBody(CleanAll(dicts)).Ok? && r == Pass(DmtApi.CsvFile(CsvBody(CleanAll(dicts)).value)))
              && (format != "csv" ==> r == Pass(DmtApi.JsonFile(CleanAll(dicts))))
  {
    var parsed := Entity(entity);
    if parsed.Fail? {
      return Fail(parsed.code, parsed.detail);
    }
    var t := parsed.value;
    var repo := new Repository(t, db);
    var items;
    if days.Some? && days.value != 0 {
      items := EntitiesApi.ExportAll(repo, days, now);
    } else {
      items := EntitiesApi.ExportAll(repo, None, now);
      if days.Some? {
        ZeroDaysListAll(db.Table(t), now);
      }
    }
    var dicts := EntitiesApi.ItemDicts(t, items);
    if format == "csv" {
      EntitiesApi.ExportableItems(t, items);
      var body := ExportCsv(dicts);
      r := Pass(DmtApi.CsvFile(body.value));
    } else {
      var body := ExportJson(dicts);
      r := Pass(DmtApi.JsonFile(body));
    }
  }
}
