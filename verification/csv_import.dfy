/** `CSVImportService`: the header check, the record loop that turns a CSV
    upload into items and error messages, and the import loop that creates
    the items not already present. The file arrives decoded and split into
    records by Python's `csv` reader (blank lines dropped). */
module CsvImport {
  import opened Common
  import opened Seqs
  import opened Strings
  import opened Decimal
  import opened Config
  import opened Tables
  import opened BaseRepository

  // ---------------------------------------------------------------------------
  // Headers

  /** The columns an upload must have. */
  function Required(entity: string): seq<string> {
    if entity == "employees" then ["name", "employee_number"] else ["name"]
  }

  const MISSING_COLUMN := "Missing required column: "

  function Absent(headers: seq<string>): string -> bool {
    (c: string) => c !in headers
  }

  /** `validate_csv_headers`: valid when every required column is a header;
      otherwise the message names the first one missing. */
  function ValidateHeaders(headers: seq<string>, entity: string): (r: (bool, string))
    ensures r.0 <==> forall c :: c in Required(entity) ==> c in headers
    ensures r.0 ==> r.1 == ""
    ensures !r.0 ==> exists k :: 0 <= k < |Required(entity)| && Required(entity)[k] !in headers
                       && (forall j :: 0 <= j < k ==> Required(entity)[j] in headers)
                       && r.1 == MISSING_COLUMN + Required(entity)[k]
  {
    var req := Required(entity);
    var k := FindIndex(req, Absent(headers));
    if k == -1 then (true, "") else (false, MISSING_COLUMN + req[k])
  }

  /** Employees need both columns; other entities only `name`. */
  lemma RequiredColumns(headers: seq<string>)
    ensures ValidateHeaders(headers, "employees").0 <==> "name" in headers && "employee_number" in headers
    ensures ValidateHeaders(headers, "areas").0 <==> "name" in headers
    ensures "name" !in headers ==> ValidateHeaders(headers, "employees").1 == MISSING_COLUMN + "name"
  {
    if "name" !in headers {
      assert Absent(headers)(Required("employees")[0]);
    }
  }

  // ---------------------------------------------------------------------------
  // Records

  /** One field of a record, or `None` (`restval`) past its end. */
  function Cell(fields: seq<string>, i: nat): Option<string> {
    if i < |fields| then Some(fields[i]) else None
  }

  /** `csv.DictReader`'s dictionary of a record: each header to its field; a
      repeated header keeps the later field. */
  function RowDict(header: seq<string>, fields: seq<string>): (d: map<string, Option<string>>)
    ensures forall k :: k in d <==> k in header
    ensures forall k :: k in d ==> exists i :: 0 <= i < |header| && header[i] == k && d[k] == Cell(fields, i)
    decreases |header|
  {
    if header == [] then map[]
    else
      var n := |header| - 1;
      var d := RowDict(header[..n], fields)[header[n] := Cell(fields, n)];
      assert forall k :: k in header[..n] ==> k in header;
      assert header == header[..n] + [header[n]];
      d
  }

  /** `any(row.values())`: some field under a header is non-empty, or the
      record is longer than the header (the extra fields form a non-empty list). */
  predicate AnyValue(header: seq<string>, fields: seq<string>) {
    |fields| > |header|
    || exists k :: k in RowDict(header, fields) && RowDict(header, fields)[k].Some? && RowDict(header, fields)[k].value != ""
  }

  /** `row.get(key, '')`. */
  function DictGet(d: map<string, Option<string>>, key: string): Option<string> {
    if key in d then d[key] else Some("")
  }

  datatype Item = Item(name: string, employeeNumber: Option<string>)

  /** What one record contributes: nothing, an item, an error, or the
      exception (`.strip()` of a missing field) that ends the loop. */
  datatype RowOutcome = Skip | Accept(item: Item) | Reject(error: string) | Crash(error: string)

  const NO_HEADERS := "CSV file is empty or has no headers"
  const NAME_REQUIRED := "Name is required"
  const NUMBER_REQUIRED := "Employee number is required"
  const NONE_STRIP := "Unexpected error: 'NoneType' object has no attribute 'strip'"

  /** `f"Row {idx}: {what}"`. */
  function RowMessage(idx: int, what: string): string {
    "Row " + IntToString(idx) + ": " + what
  }

  /** `row.get(key, '')` on the record's dictionary. */
  function Field(header: seq<string>, fields: seq<string>, key: string): Option<string> {
    DictGet(RowDict(header, fields), key)
  }

  /** The body of the record loop for the record numbered `idx`. */
  function ParseRow(header: seq<string>, fields: seq<string>, entity: string, idx: int): (r: RowOutcome)
    ensures r.Accept? ==> r.item.name != "" && Strip(r.item.name) == r.item.name
    ensures r.Accept? ==> (r.item.employeeNumber.Some? <==> entity == "employees")
    ensures r.Accept? && r.item.employeeNumber.Some? ==>
              r.item.employeeNumber.value != "" && Strip(r.item.employeeNumber.value) == r.item.employeeNumber.value
    ensures r.Skip? <==> !AnyValue(header, fields)
  {
    var d := RowDict(header, fields);
    if !AnyValue(header, fields) then Skip
    else
      match DictGet(d, "name")
      case None => Crash(NONE_STRIP)
      case Some(name) =>
        if Strip(name) == "" then Reject(RowMessage(idx, NAME_REQUIRED))
        else if entity != "employees" then (StripIdempotent(name); Accept(Item(Strip(name), None)))
        else
          match DictGet(d, "employee_number")
          case None => Crash(NONE_STRIP)
          case Some(number) =>
            if Strip(number) == "" then Reject(RowMessage(idx, NUMBER_REQUIRED))
            else
              StripIdempotent(name);
              StripIdempotent(number);
              Accept(Item(Strip(name), Some(Strip(number))))
  }

  /** An accepted item as `ParseRow` promises it. */
  lemma AcceptedItem(header: seq<string>, fields: seq<string>, entity: string, idx: int)
    ensures var r := ParseRow(header, fields, entity, idx);
            r.Accept? ==> && r.item.name != "" && Strip(r.item.name) == r.item.name
                          && (r.item.employeeNumber.Some? <==> entity == "employees")
  {
  }

  /** What the record loop does with a record that has some value: it is
      rejected with "Row idx: Name is required" when its name is blank, and,
      for employees, with "Row idx: Employee number is required" when its
      number is blank; a missing field (`None`) raises; otherwise the item
      carries the stripped name and, for employees, the stripped number. */
  lemma RowMessages(header: seq<string>, fields: seq<string>, entity: string, idx: int)
    requires AnyValue(header, fields)
    ensures var r := ParseRow(header, fields, entity, idx);
            var name := Field(header, fields, "name");
            var number := Field(header, fields, "employee_number");
            && (name.None? ==> r == Crash(NONE_STRIP))
            && (name.Some? && Strip(name.value) == "" ==> r == Reject(RowMessage(idx, NAME_REQUIRED)))
            && (name.Some? && Strip(name.value) != "" && entity != "employees" ==> r == Accept(Item(Strip(name.value), None)))
            && (name.Some? && Strip(name.value) != "" && entity == "employees" ==>
                  && (number.None? ==> r == Crash(NONE_STRIP))
                  && (number.Some? && Strip(number.value) == "" ==> r == Reject(RowMessage(idx, NUMBER_REQUIRED)))
                  && (number.Some? && Strip(number.value) != "" ==>
                        r == Accept(Item(Strip(name.value), Some(Strip(number.value))))))
  {
  }

  /** The items and errors gathered so far, and whether an exception ended the loop. */
  datatype Parsed = Parsed(items: seq<Item>, errors: seq<string>, crashed: bool)

  /** What each record contributes, records being numbered from 2 (line 1
      is the header). */
  function Outcomes(header: seq<string>, records: seq<seq<string>>, entity: string): (r: seq<RowOutcome>)
    ensures |r| == |records|
  {
    seq(|records|, k requires 0 <= k < |records| => ParseRow(header, records[k], entity, k + 2))
  }

  /** The outcomes of a prefix of the records are a prefix of the outcomes. */
  lemma OutcomesPrefix(header: seq<string>, records: seq<seq<string>>, entity: string, j: nat)
    requires j <= |records|
    ensures Outcomes(header, records[..j], entity) == Outcomes(header, records, entity)[..j]
  {
  }

  /** The record loop on the outcomes: items and errors in record order, up
      to and including the first exception. */
  function Gather(outs: seq<RowOutcome>): (p: Parsed)
    decreases |outs|
  {
    if outs == [] then Parsed([], [], false)
    else
      var n := |outs| - 1;
      var before := Gather(outs[..n]);
      if before.crashed then before
      else
        match outs[n]
        case Skip => before
        case Accept(it) => before.(items := before.items + [it])
        case Reject(e) => before.(errors := before.errors + [e])
        case Crash(e) => Parsed(before.items, before.errors + [e], true)
  }

  /** Every item gathered was accepted from some record, and there are no
      more items and errors than records. */
  lemma {:induction false} GatherSources(outs: seq<RowOutcome>)
    ensures |Gather(outs).items| + |Gather(outs).errors| <= |outs|
    ensures forall it :: it in Gather(outs).items ==> Accept(it) in outs
    decreases |outs|
  {
    if outs != [] {
      var n := |outs| - 1;
      GatherSources(outs[..n]);
      assert forall o :: o in outs[..n] ==> o in outs;
    }
  }

  /** One more outcome only adds to what the loop has gathered. */
  lemma GatherStepExtends(outs: seq<RowOutcome>)
    requires outs != []
    ensures var before := Gather(outs[..|outs| - 1]);
            before.items <= Gather(outs).items && before.errors <= Gather(outs).errors
  {
    var before := Gather(outs[..|outs| - 1]);
    var after := Gather(outs);
    if !before.crashed {
      match outs[|outs| - 1]
      case Skip =>
      case Accept(it) =>
        assert after.items == before.items + [it];
      case Reject(e) =>
        assert after.errors == before.errors + [e];
      case Crash(e) =>
        assert after.errors == before.errors + [e];
    }
  }

  /** The loop over a prefix has gathered a prefix of what the whole loop gathers. */
  lemma {:induction false} GatherPrefix(outs: seq<RowOutcome>, j: nat)
    requires j <= |outs|
    ensures Gather(outs[..j]).items <= Gather(outs).items
    ensures Gather(outs[..j]).errors <= Gather(outs).errors
    decreases |outs| - j
  {
    if j < |outs| {
      var n := |outs| - 1;
      assert outs[..n][..j] == outs[..j];
      GatherPrefix(outs[..n], j);
      GatherStepExtends(outs);
    } else {
      assert outs[..j] == outs;
    }
  }

  /** Once an exception ends the loop, later outcomes change nothing. */
  lemma {:induction false} GatherCrashSticks(outs: seq<RowOutcome>, i: nat)
    requires i <= |outs| && Gather(outs[..i]).crashed
    ensures Gather(outs) == Gather(outs[..i])
    decreases |outs| - i
  {
    if i < |outs| {
      var n := |outs| - 1;
      assert outs[..n][..i] == outs[..i];
      GatherCrashSticks(outs[..n], i);
    } else {
      assert outs[..i] == outs;
    }
  }

  /** Unless an exception came before it, the outcome at index `i` adds its
      item or its message to the result. */
  lemma GatherAt(outs: seq<RowOutcome>, i: nat)
    requires i < |outs| && !Gather(outs[..i]).crashed
    ensures outs[i].Accept? ==> outs[i].item in Gather(outs).items
    ensures outs[i].Reject? || outs[i].Crash? ==> outs[i].error in Gather(outs).errors
  {
    var p := Gather(outs[..i + 1]);
    assert outs[..i + 1][..i] == outs[..i];
    GatherPrefix(outs, i + 1);
    if outs[i].Accept? {
      assert Gather(outs).items[|p.items| - 1] == outs[i].item;
    }
    if outs[i].Reject? || outs[i].Crash? {
      assert Gather(outs).errors[|p.errors| - 1] == outs[i].error;
    }
  }

  /** The record loop over `records`. */
  function ParseRows(header: seq<string>, records: seq<seq<string>>, entity: string): (p: Parsed)
  {
    Gather(Outcomes(header, records, entity))
  }

  /** At most one item or error per record, and every item is accepted as
      `ParseRow` accepts one. */
  lemma ParsedItems(header: seq<string>, records: seq<seq<string>>, entity: string)
    ensures var p := ParseRows(header, records, entity);
            && |p.items| + |p.errors| <= |records|
            && (forall it :: it in p.items ==> it.name != "" && Strip(it.name) == it.name)
            && (forall it :: it in p.items ==> (it.employeeNumber.Some? <==> entity == "employees"))
  {
    var outs := Outcomes(header, records, entity);
    GatherSources(outs);
    forall it | it in Gather(outs).items
      ensures it.name != "" && Strip(it.name) == it.name
      ensures it.employeeNumber.Some? <==> entity == "employees"
    {
      var k :| 0 <= k < |outs| && outs[k] == Accept(it);
      OutcomeAccepted(header, records, entity, k);
    }
  }

  /** An accepted outcome carries an item as `ParseRow` promises it. */
  lemma OutcomeAccepted(header: seq<string>, records: seq<seq<string>>, entity: string, k: nat)
    requires k < |records|
    ensures var o := Outcomes(header, records, entity)[k];
            o.Accept? ==> && o.item.name != "" && Strip(o.item.name) == o.item.name
                          && (o.item.employeeNumber.Some? <==> entity == "employees")
  {
    AcceptedItem(header, records[k], entity, k + 2);
  }

  /** The record loop over one more record is one more step, on the
      outcome of that record numbered `|records| + 2`. */
  lemma ParseRowsSnoc(header: seq<string>, records: seq<seq<string>>, fields: seq<string>, entity: string)
    ensures var outs := Outcomes(header, records + [fields], entity);
            && outs[..|records|] == Outcomes(header, records, entity)
            && outs[|records|] == ParseRow(header, fields, entity, |records| + 2)
  {
  }

  /** Records are numbered from 2, the header being line 1: unless an
      exception ended the loop earlier, the record at index `i` contributes
      its item, or its message for row `i + 2`, to the result. */
  lemma RowNumbering(header: seq<string>, records: seq<seq<string>>, entity: string, i: nat)
    requires i < |records| && !ParseRows(header, records[..i], entity).crashed
    ensures var row := ParseRow(header, records[i], entity, i + 2);
            && (row.Accept? ==> row.item in ParseRows(header, records, entity).items)
            && (row.Reject? || row.Crash? ==> row.error in ParseRows(header, records, entity).errors)
  {
    var outs := Outcomes(header, records, entity);
    OutcomesPrefix(header, records, entity, i);
    GatherAt(outs, i);
  }

  /** Once an exception ends the loop, later records change nothing. */
  lemma CrashSticks(header: seq<string>, records: seq<seq<string>>, entity: string, i: nat)
    requires i <= |records| && ParseRows(header, records[..i], entity).crashed
    ensures ParseRows(header, records, entity) == ParseRows(header, records[..i], entity)
  {
    OutcomesPrefix(header, records, entity, i);
    GatherCrashSticks(Outcomes(header, records, entity), i);
  }

  /** A record whose fields are all empty, and no more than the headers, is
      skipped: it adds neither an item nor an error. */
  lemma BlankRecordSkipped(header: seq<string>, records: seq<seq<string>>, blank: seq<string>, entity: string)
    requires |blank| <= |header| && forall i :: 0 <= i < |blank| ==> blank[i] == ""
    ensures ParseRows(header, records + [blank], entity) == ParseRows(header, records, entity)
  {
    var d := RowDict(header, blank);
    forall k | k in d ensures !(d[k].Some? && d[k].value != "") {
      var i :| 0 <= i < |header| && header[i] == k && d[k] == Cell(blank, i);
    }
    var outs := Outcomes(header, records + [blank], entity);
    ParseRowsSnoc(header, records, blank, entity);
    assert outs[..|outs| - 1] == Outcomes(header, records, entity);
  }

  /** What `parse_csv` answers: no headers, missing columns, or the items
      and errors of the record loop. */
  function CsvResult(header: seq<string>, records: seq<seq<string>>, entity: string): (seq<Item>, seq<string>) {
    if header == [] then ([], [NO_HEADERS])
    else if !ValidateHeaders(header, entity).0 then ([], [ValidateHeaders(header, entity).1])
    else (ParseRows(header, records, entity).items, ParseRows(header, records, entity).errors)
  }

  /** `parse_csv` on the reader's header and records. */
  method ParseCsv(header: seq<string>, records: seq<seq<string>>, entity: string) returns (items: seq<Item>, errors: seq<string>)
    ensures header == [] ==> items == [] && errors == [NO_HEADERS]
    ensures header != [] && !ValidateHeaders(header, entity).0 ==> items == [] && errors == [ValidateHeaders(header, entity).1]
    ensures header != [] && ValidateHeaders(header, entity).0 ==>
              items == ParseRows(header, records, entity).items && errors == ParseRows(header, records, entity).errors
    ensures (items, errors) == CsvResult(header, records, entity)
  {
    if header == [] {
      return [], [NO_HEADERS];
    }
    var check := ValidateHeaders(header, entity);
    if !check.0 {
      return [], [check.1];
    }
    items := [];
    errors := [];
    ghost var outs := Outcomes(header, records, entity);
    var i := 0;
    while i < |records|
      invariant 0 <= i <= |records|
      invariant Gather(outs[..i]) == Parsed(items, errors, false)
    {
      var crashed;
      items, errors, crashed := ParseOne(header, records, entity, i, items, errors);
      if crashed {
        GatherCrashSticks(outs, i + 1);
        return;
      }
      i := i + 1;
    }
    assert outs[..i] == outs;
  }

  /** One pass of the record loop, on the record at index `i`. */
  method ParseOne(header: seq<string>, records: seq<seq<string>>, entity: string, i: nat, items: seq<Item>, errors: seq<string>)
      returns (items': seq<Item>, errors': seq<string>, crashed: bool)
    requires i < |records| && Gather(Outcomes(header, records, entity)[..i]) == Parsed(items, errors, false)
    ensures Gather(Outcomes(header, records, entity)[..i + 1]) == Parsed(items', errors', crashed)
  {
    ghost var outs := Outcomes(header, records, entity);
    assert outs[..i + 1][..i] == outs[..i];
    var row := ParseRow(header, records[i], entity, i + 2);
    assert row == outs[i];
    items', errors', crashed := items, errors, false;
    match row {
      case Skip =>
      case Accept(it) =>
        items' := items + [it];
      case Reject(e) =>
        errors' := errors + [e];
      case Crash(e) =>
        errors' := errors + [e];
        crashed := true;
    }
  }

  // ---------------------------------------------------------------------------
  // Import

  /** The duplicate test as written: the first page of `get_all(search=name)`
      holds a row with the same name, ignoring case. */
  predicate FoundOnFirstPage(rows: seq<EntityItem>, name: string, now: int) {
    exists x :: x in Listing(rows, None, 1, Some(name), now).items && Lower(x.name) == Lower(name)
  }

  /** The intended test: some active row has the same name, ignoring case. */
  predicate NameTaken(rows: seq<EntityItem>, name: string) {
    exists x :: x in rows && x.isActive && Lower(x.name) == Lower(name)
  }

  /** The test as written never reports a duplicate that is not one. */
  lemma FoundIsTaken(rows: seq<EntityItem>, name: string, now: int)
    ensures FoundOnFirstPage(rows, name, now) ==> NameTaken(rows, name)
  {
  }

  /** While the search matches at most one page of rows, the test as written
      is the intended one. */
  lemma FirstPageSuffices(rows: seq<EntityItem>, name: string, now: int)
    requires |Filter(rows, ListedBy(None, Some(name), now))| <= PAGE_SIZE
    ensures FoundOnFirstPage(rows, name, now) <==> NameTaken(rows, name)
  {
    if NameTaken(rows, name) {
      var x :| x in rows && x.isActive && Lower(x.name) == Lower(name);
      ContainsSelf(Lower(name));
      assert Listed(x, None, Some(name), now);
      var all := Matching(rows, None, Some(name), now);
      WindowWhole(all, PAGE_SIZE);
      assert x in Listing(rows, None, 1, Some(name), now).items;
    }
  }

  /** When a full page of newer rows contains the search text without
      equalling it, the test as written misses an older row that does equal
      it. */
  lemma FullPageHidesName(newer: seq<EntityItem>, dup: EntityItem, name: string, now: int)
    requires |newer| == PAGE_SIZE && SortedBy(newer, NewestFirst())
    requires forall x :: x in newer ==>
               Listed(x, None, Some(name), now) && Lower(x.name) != Lower(name) && x.createdAt >= dup.createdAt
    requires dup.isActive && Lower(dup.name) == Lower(name)
    ensures NameTaken(newer + [dup], name)
    ensures !FoundOnFirstPage(newer + [dup], name, now)
  {
    var rows := newer + [dup];
    assert dup in rows;
    ContainsSelf(Lower(name));
    forall i, j | 0 <= i < j < |rows| ensures NewestFirst()(rows[i], rows[j]) {
      assert rows[i] in newer;
      if j < |newer| {
        assert rows[j] in newer;
      }
    }
    MatchingOfSorted(rows, None, Some(name), now);
    assert Listing(rows, None, 1, Some(name), now).items == newer;
  }

  /** A row named "ab", created after the row named "a" below. */
  function Newer(i: int): EntityItem {
    EntityItem("n" + IntToString(i), "ab", None, 2, 2, true)
  }

  /** A concrete import that creates a duplicate: twenty rows named "ab"
      fill the first page of the search for "a", so the older row named "a"
      goes unseen. */
  lemma FirstPageMissesDuplicate()
    ensures var rows := seq(20, i => Newer(i)) + [EntityItem("o", "a", None, 1, 1, true)];
            NameTaken(rows, "a") && !FoundOnFirstPage(rows, "a", 2)
  {
    var newer := seq(20, i => Newer(i));
    assert Lower("ab") == "ab" && Lower("a") == "a";
    assert OccursAt("a", "ab", 0);
    forall x | x in newer
      ensures Listed(x, None, Some("a"), 2) && Lower(x.name) != Lower("a") && x.createdAt >= 1
    {
    }
    FullPageHidesName(newer, EntityItem("o", "a", None, 1, 1, true), "a", 2);
  }

  /** Appending a row whose name no active row has keeps new names fresh. */
  lemma AppendFresh(rows: seq<EntityItem>, from: nat, x: EntityItem)
    requires from <= |rows| && NoNewDuplicates(rows, from) && !NameTaken(rows, x.name)
    ensures NoNewDuplicates(rows + [x], from)
  {
    var after := rows + [x];
    forall j, k | from <= j < |after| && 0 <= k < j
      ensures !(after[k].isActive && Lower(after[k].name) == Lower(after[j].name))
    {
      if j == |rows| {
        assert after[k] in rows;
      }
    }
  }

  /** New rows (from index `from` on) repeat no name, ignoring case, of an
      active row before them. */
  predicate NoNewDuplicates(rows: seq<EntityItem>, from: int) {
    forall j, i :: 0 <= from <= j < |rows| && 0 <= i < j ==>
      !(rows[i].isActive && Lower(rows[i].name) == Lower(rows[j].name))
  }

  /** `f"Error importing '{name}': {e}"`. */
  function ImportError(name: string, e: string): string {
    "Error importing '" + name + "': " + e
  }

  /** `str(KeyError('employee_number'))`. */
  const NO_NUMBER_KEY := "'employee_number'"

  /** The number `create` is given for an item: its own on `employees`, none elsewhere. */
  function NumberFor(t: EntityType, item: Item): Option<string> {
    if t == Employees then item.employeeNumber else None
  }

  /** The table and the counts as the import loop leaves them. */
  datatype Tally = Tally(rows: seq<EntityItem>, success: nat, skipped: nat, errors: seq<string>)

  /** One pass of the import loop for `item`, whose row would take the id cut
      from `uuid`: skipped when an active row already has the name (ignoring
      case), an error when an employee has no number (`KeyError`) or the id
      is taken (`IntegrityError`), and otherwise one new row. */
  function ImportStep(t: EntityType, st: Tally, item: Item, uuid: string, now: int): Tally {
    if NameTaken(st.rows, item.name) then st.(skipped := st.skipped + 1)
    else if t == Employees && item.employeeNumber.None? then
      st.(errors := st.errors + [ImportError(item.name, NO_NUMBER_KEY)])
    else if Find(st.rows, WithId(ShortId(uuid))).Some? then
      st.(errors := st.errors + [ImportError(item.name, DuplicateIdMessage(t))])
    else
      st.(rows := st.rows + [NewItem(t, ShortId(uuid), item.name, NumberFor(t, item), now)], success := st.success + 1)
  }

  /** The import loop over `items` on a table holding `rows`, the item at
      index `i` drawing `uuidAt(i)`. */
  function ImportRun(t: EntityType, rows: seq<EntityItem>, items: seq<Item>, uuidAt: nat -> string, now: int): (r: Tally)
    ensures |rows| <= |r.rows| && r.rows[..|rows|] == rows
    decreases |items|
  {
    if items == [] then Tally(rows, 0, 0, [])
    else
      var n := |items| - 1;
      ImportStep(t, ImportRun(t, rows, items[..n], uuidAt, now), items[n], uuidAt(n), now)
  }

  /** Every item is created, skipped or reported, and created rows are
      appended after the old ones, which stay as they were. */
  lemma {:induction false} ImportRunCounts(t: EntityType, rows: seq<EntityItem>, items: seq<Item>,
                                           uuidAt: nat -> string, now: int)
    ensures var r := ImportRun(t, rows, items, uuidAt, now);
            && r.success + r.skipped + |r.errors| == |items|
            && |r.rows| == |rows| + r.success && r.rows[..|rows|] == rows
    decreases |items|
  {
    if items == [] {
      assert rows[..|rows|] == rows;
    } else {
      var n := |items| - 1;
      ImportRunCounts(t, rows, items[..n], uuidAt, now);
      var before := ImportRun(t, rows, items[..n], uuidAt, now);
      var after := ImportRun(t, rows, items, uuidAt, now);
      assert after.rows[..|rows|] == before.rows[..|rows|];
    }
  }

  /** No row an import creates repeats, ignoring case, the name of an active
      row before it: neither an old row nor one created earlier in the upload. */
  lemma {:induction false} ImportRunNoDuplicates(t: EntityType, rows: seq<EntityItem>, items: seq<Item>,
                                                 uuidAt: nat -> string, now: int)
    ensures NoNewDuplicates(ImportRun(t, rows, items, uuidAt, now).rows, |rows|)
    decreases |items|
  {
    if items != [] {
      var n := |items| - 1;
      var before := ImportRun(t, rows, items[..n], uuidAt, now);
      var after := ImportStep(t, before, items[n], uuidAt(n), now);
      ImportRunNoDuplicates(t, rows, items[..n], uuidAt, now);
      ImportRunCounts(t, rows, items[..n], uuidAt, now);
      if after.success > before.success {
        var x := after.rows[|after.rows| - 1];
        assert after.rows == before.rows + [x];
        AppendFresh(before.rows, |rows|, x);
      }
    }
  }

  /** The rows an import creates when nothing stands in its way: one per
      item, in order, each under the id cut from its own uuid. */
  function Created(t: EntityType, items: seq<Item>, uuidAt: nat -> string, now: int): (r: seq<EntityItem>)
    ensures |r| == |items|
  {
    seq(|items|, i requires 0 <= i < |items| => NewItem(t, ShortId(uuidAt(i)), items[i].name, NumberFor(t, items[i]), now))
  }

  /** Items whose names are new to the table and to each other, with numbers
      where the table needs them and ids that collide with nothing. */
  predicate FreshUpload(t: EntityType, rows: seq<EntityItem>, items: seq<Item>, uuidAt: nat -> string) {
    && (forall i :: 0 <= i < |items| ==> !NameTaken(rows, items[i].name))
    && (forall i, j :: 0 <= i < j < |items| ==> Lower(items[i].name) != Lower(items[j].name))
    && (t == Employees ==> forall i :: 0 <= i < |items| ==> items[i].employeeNumber.Some?)
    && (forall i, x :: 0 <= i < |items| && x in rows ==> x.id != ShortId(uuidAt(i)))
    && (forall i, j :: 0 <= i < j < |items| ==> ShortId(uuidAt(i)) != ShortId(uuidAt(j)))
  }

  /** A fresh upload is all created, in order, with no skip and no error. */
  lemma {:induction false} ImportFresh(t: EntityType, rows: seq<EntityItem>, items: seq<Item>, uuidAt: nat -> string, now: int)
    requires FreshUpload(t, rows, items, uuidAt)
    ensures ImportRun(t, rows, items, uuidAt, now) == Tally(rows + Created(t, items, uuidAt, now), |items|, 0, [])
    decreases |items|
  {
    if items == [] {
      assert rows + Created(t, items, uuidAt, now) == rows;
    } else {
      var n := |items| - 1;
      FreshPrefix(t, rows, items, uuidAt);
      ImportFresh(t, rows, items[..n], uuidAt, now);
      var made := Created(t, items[..n], uuidAt, now);
      var st := Tally(rows + made, n, 0, []);
      assert ImportRun(t, rows, items[..n], uuidAt, now) == st;
      CreatedLeavesRoom(t, rows, items, uuidAt, now);
      StepCreates(t, st, items[n], uuidAt(n), now);
      ImportRunLast(t, rows, items, uuidAt, now);
      CreatedSnoc(t, rows, items, uuidAt, now);
    }
  }

  /** All but the last item of a fresh upload are a fresh upload. */
  lemma FreshPrefix(t: EntityType, rows: seq<EntityItem>, items: seq<Item>, uuidAt: nat -> string)
    requires items != [] && FreshUpload(t, rows, items, uuidAt)
    ensures FreshUpload(t, rows, items[..|items| - 1], uuidAt)
  {
  }

  /** The last item of a fresh upload meets neither an active name nor an id
      among the table's rows and the rows the items before it created. */
  lemma CreatedLeavesRoom(t: EntityType, rows: seq<EntityItem>, items: seq<Item>, uuidAt: nat -> string, now: int)
    requires items != [] && FreshUpload(t, rows, items, uuidAt)
    ensures var all := rows + Created(t, items[..|items| - 1], uuidAt, now);
            && !NameTaken(all, items[|items| - 1].name)
            && Find(all, WithId(ShortId(uuidAt(|items| - 1)))).None?
            && (t == Employees ==> items[|items| - 1].employeeNumber.Some?)
  {
    var n := |items| - 1;
    var made := Created(t, items[..n], uuidAt, now);
    forall x | x in rows + made
      ensures !(x.isActive && Lower(x.name) == Lower(items[n].name)) && x.id != ShortId(uuidAt(n))
    {
      if x !in rows {
        var k :| 0 <= k < |made| && made[k] == x;
        assert x.name == items[k].name && x.id == ShortId(uuidAt(k));
      }
    }
  }

  /** A step with nothing in its way appends the item's row. */
  lemma StepCreates(t: EntityType, st: Tally, item: Item, uuid: string, now: int)
    requires !NameTaken(st.rows, item.name) && Find(st.rows, WithId(ShortId(uuid))).None?
    requires t == Employees ==> item.employeeNumber.Some?
    ensures ImportStep(t, st, item, uuid, now)
            == st.(rows := st.rows + [NewItem(t, ShortId(uuid), item.name, NumberFor(t, item), now)], success := st.success + 1)
  {
  }

  /** The rows created for one more item end with that item's row. */
  lemma CreatedSnoc(t: EntityType, rows: seq<EntityItem>, items: seq<Item>, uuidAt: nat -> string, now: int)
    requires items != []
    ensures var n := |items| - 1;
            rows + Created(t, items, uuidAt, now)
            == rows + Created(t, items[..n], uuidAt, now) + [NewItem(t, ShortId(uuidAt(n)), items[n].name, NumberFor(t, items[n]), now)]
  {
    var n := |items| - 1;
    assert Created(t, items, uuidAt, now)
           == Created(t, items[..n], uuidAt, now) + [NewItem(t, ShortId(uuidAt(n)), items[n].name, NumberFor(t, items[n]), now)];
  }

  /** The skip rule: an item named like an active row already in the table
      is skipped, whatever came before it in the upload. */
  lemma ImportSkipsTaken(t: EntityType, rows: seq<EntityItem>, items: seq<Item>, item: Item, uuidAt: nat -> string, now: int)
    requires NameTaken(rows, item.name)
    ensures var before := ImportRun(t, rows, items, uuidAt, now);
            ImportRun(t, rows, items + [item], uuidAt, now) == before.(skipped := before.skipped + 1)
  {
    var before := ImportRun(t, rows, items, uuidAt, now);
    var x :| x in rows && x.isActive && Lower(x.name) == Lower(item.name);
    var k :| 0 <= k < |rows| && rows[k] == x;
    ImportRunCounts(t, rows, items, uuidAt, now);
    assert before.rows[..|rows|][k] == x;
    assert NameTaken(before.rows, item.name);
    ImportRunSnoc(t, rows, items, item, uuidAt, now);
  }

  /** The import of a non-empty upload is the import of all but its last
      item, then one step for the last. */
  lemma ImportRunLast(t: EntityType, rows: seq<EntityItem>, items: seq<Item>, uuidAt: nat -> string, now: int)
    requires items != []
    ensures var n := |items| - 1;
            ImportRun(t, rows, items, uuidAt, now) == ImportStep(t, ImportRun(t, rows, items[..n], uuidAt, now), items[n], uuidAt(n), now)
  {
  }

  /** The import of one more item is one more step of the loop. */
  lemma ImportRunSnoc(t: EntityType, rows: seq<EntityItem>, items: seq<Item>, item: Item, uuidAt: nat -> string, now: int)
    ensures ImportRun(t, rows, items + [item], uuidAt, now)
            == ImportStep(t, ImportRun(t, rows, items, uuidAt, now), item, uuidAt(|items|), now)
  {
    assert (items + [item])[..|items|] == items;
  }

  /** The audit log after `create` has logged each row of `created`, in order. */
  function CreateLog(audit: seq<AuditEntry>, t: EntityType, created: seq<EntityItem>, now: int): seq<AuditEntry>
    decreases |created|
  {
    if created == [] then audit
    else
      var before := CreateLog(audit, t, created[..|created| - 1], now);
      before + [CreateEntry(before, t, created[|created| - 1], now)]
  }

  /** Logging one more created row extends the log by its entry. */
  lemma CreateLogStep(audit: seq<AuditEntry>, t: EntityType, rows: seq<EntityItem>, start: nat, x: EntityItem, now: int)
    requires start <= |rows|
    ensures var before := CreateLog(audit, t, rows[start..], now);
            CreateLog(audit, t, (rows + [x])[start..], now) == before + [CreateEntry(before, t, x, now)]
  {
    assert (rows + [x])[start..][..|(rows + [x])[start..]| - 1] == rows[start..];
  }

  /** One pass of the loop in `import_items`, on the counts so far. */
  method ImportOne(repo: Repository, item: Item, uuid: string, now: int, success: nat, skipped: nat, errors: seq<string>)
      returns (success': nat, skipped': nat, errors': seq<string>)
    requires repo.db.Valid()
    modifies repo.db
    ensures repo.db.Valid() && repo.db.dmt == old(repo.db.dmt)
    ensures Tally(repo.Rows(), success', skipped', errors')
            == ImportStep(repo.entityType, Tally(old(repo.Rows()), success, skipped, errors), item, uuid, now)
    ensures forall t :: t != repo.entityType ==> repo.db.Table(t) == old(repo.db.Table(t))
    ensures success' == success || success' == success + 1
    ensures |repo.db.audit| == |old(repo.db.audit)| + (success' - success)
    ensures success' == success ==> repo.Rows() == old(repo.Rows()) && repo.db.audit == old(repo.db.audit)
    ensures success' == success + 1 ==>
              && |repo.Rows()| == |old(repo.Rows())| + 1
              && repo.Rows() == old(repo.Rows()) + [repo.Rows()[|old(repo.Rows())|]]
              && repo.db.audit == old(repo.db.audit) + [CreateEntry(old(repo.db.audit), repo.entityType, repo.Rows()[|old(repo.Rows())|], now)]
  {
    success', skipped', errors' := success, skipped, errors;
    if NameTaken(repo.Rows(), item.name) {
      skipped' := skipped + 1;
    } else if repo.entityType == Employees && item.employeeNumber.None? {
      errors' := errors + [ImportError(item.name, NO_NUMBER_KEY)];
    } else {
      var number := if repo.entityType == Employees then item.employeeNumber else None;
      var r := repo.Create(item.name, number, uuid, now);
      if r.Err? {
        errors' := errors + [ImportError(item.name, r.error)];
      } else {
        success' := success + 1;
      }
    }
  }

  /** `import_items` with the intended duplicate test: the table and the
      counts are those of the import loop `ImportRun`, and each created row
      is written to the audit log. */
  method ImportItems(repo: Repository, items: seq<Item>, uuidAt: nat -> string, now: int)
      returns (success: nat, skipped: nat, errors: seq<string>)
    requires repo.db.Valid()
    modifies repo.db
    ensures repo.db.Valid() && repo.db.dmt == old(repo.db.dmt)
    ensures Tally(repo.Rows(), success, skipped, errors) == ImportRun(repo.entityType, old(repo.Rows()), items, uuidAt, now)
    ensures forall t :: t != repo.entityType ==> repo.db.Table(t) == old(repo.db.Table(t))
    ensures |repo.db.audit| == |old(repo.db.audit)| + success
    ensures repo.db.audit == CreateLog(old(repo.db.audit), repo.entityType, repo.Rows()[|old(repo.Rows())|..], now)
  {
    success, skipped, errors := 0, 0, [];
    ghost var start := repo.Rows();
    for i := 0 to |items|
      invariant repo.db.Valid() && repo.db.dmt == old(repo.db.dmt)
      invariant Tally(repo.Rows(), success, skipped, errors) == ImportRun(repo.entityType, start, items[..i], uuidAt, now)
      invariant forall t :: t != repo.entityType ==> repo.db.Table(t) == old(repo.db.Table(t))
      invariant |repo.db.audit| == |old(repo.db.audit)| + success
      invariant repo.db.audit == CreateLog(old(repo.db.audit), repo.entityType, repo.Rows()[|start|..], now)
    {
      assert items[..i + 1][..i] == items[..i];
      ImportRunLast(repo.entityType, start, items[..i + 1], uuidAt, now);
      ghost var rowsBefore := repo.Rows();
      ghost var success0 := success;
      success, skipped, errors := ImportOne(repo, items[i], uuidAt(i), now, success, skipped, errors);
      if success == success0 + 1 {
        CreateLogStep(old(repo.db.audit), repo.entityType, rowsBefore, |start|, repo.Rows()[|rowsBefore|], now);
      }
    }
    assert items[..|items|] == items;
  }
}
