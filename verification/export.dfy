/** `ExportService`: rows handed out as a JSON array or a CSV file, without
    their `is_active` flag. The JSON body is modelled as the array of
    cleaned dictionaries; the CSV body as its text. */
module ExportService {
  import opened Common
  import opened Seqs
  import opened Decimal
  import opened Csv
  import opened Config
  import opened Tables
  import opened Strings

  function NotFlag(): ((string, Value)) -> bool {
    (p: (string, Value)) => p.0 != "is_active"
  }

  /** `{k: v for k, v in item.items() if k != "is_active"}`. */
  function Clean(item: Row): (r: Row)
    ensures forall p :: p in r <==> p in item && p.0 != "is_active"
    ensures multiset(r) <= multiset(item)
  {
    Filter(item, NotFlag())
  }

  /** Every item cleaned, in order. */
  function CleanAll(items: seq<Row>): (r: seq<Row>)
    ensures |r| == |items|
    ensures forall i :: 0 <= i < |items| ==> r[i] == Clean(items[i])
    ensures forall row, p :: row in r && p in row ==> p.0 != "is_active"
  {
    seq(|items|, i requires 0 <= i < |items| => Clean(items[i]))
  }

  /** The loop `export_json` and `export_csv` share. */
  method CleanItems(items: seq<Row>) returns (clean: seq<Row>)
    ensures clean == CleanAll(items)
  {
    clean := [];
    for i := 0 to |items|
      invariant clean == CleanAll(items[..i])
    {
      clean := clean + [Clean(items[i])];
    }
    assert items[..|items|] == items;
  }

  /** A row with no `is_active` key is exported unchanged. */
  lemma CleanKeepsUnflagged(item: Row)
    requires forall p :: p in item ==> p.0 != "is_active"
    ensures Clean(item) == item
  {
    FilterAll(item, NotFlag());
  }

  function KeyOf(p: (string, Value)): string {
    p.0
  }

  /** The keys of a cleaned row are the row's keys without `is_active`. */
  lemma CleanedKeys(row: Row)
    ensures Keys(Clean(row)) == Filter(Keys(row), (k: string) => k != "is_active")
  {
    var notFlagKey := (k: string) => k != "is_active";
    MapFilter(row, KeyOf, NotFlag(), notFlagKey);
    assert Keys(row) == Map(row, KeyOf);
    assert Keys(Clean(row)) == Map(Filter(row, NotFlag()), KeyOf);
  }

  /** Rows with the same keys keep the same keys once cleaned. */
  lemma CleanKeys(a: Row, b: Row)
    requires Keys(a) == Keys(b)
    ensures Keys(Clean(a)) == Keys(Clean(b))
  {
    CleanedKeys(a);
    CleanedKeys(b);
  }

  /** Cleaning drops the flag from between two unflagged parts. */
  lemma CleanAround(head: Row, v: Value, tail: Row)
    requires forall p :: p in head + tail ==> p.0 != "is_active"
    ensures Clean(head + [("is_active", v)] + tail) == head + tail
  {
    var flag: Row := [("is_active", v)];
    forall p | p in head ensures NotFlag()(p) {
      assert p in head + tail;
    }
    forall p | p in tail ensures NotFlag()(p) {
      assert p in head + tail;
    }
    FilterAll(head, NotFlag());
    FilterAll(tail, NotFlag());
    assert Filter(flag, NotFlag()) == [] by {
      assert flag[1..] == [];
    }
    FilterAppend(head, flag, NotFlag());
    assert Filter(head + flag, NotFlag()) == head;
    FilterAppend(head + flag, tail, NotFlag());
    assert Clean(head + flag + tail) == Filter(head + flag, NotFlag()) + Filter(tail, NotFlag());
  }

  /** Cleaning an entity row drops its flag and keeps its other columns in
      their order. */
  lemma CleanEntityRow(t: EntityType, x: EntityItem)
    ensures Clean(ItemDict(t, x)) ==
              [("id", Text(x.id)), ("name", Text(x.name)), ("created_at", Int(x.createdAt)),
               ("updated_at", Int(x.updatedAt))]
              + (if t == Employees then [("employee_number", OptText(x.employeeNumber))] else [])
  {
    var head := [("id", Text(x.id)), ("name", Text(x.name)), ("created_at", Int(x.createdAt)),
                 ("updated_at", Int(x.updatedAt))];
    var tail := if t == Employees then [("employee_number", OptText(x.employeeNumber))] else [];
    assert ItemDict(t, x) == head + [("is_active", Flag(x.isActive))] + tail;
    CleanAround(head, Flag(x.isActive), tail);
  }

  /** `export_json`: the body is the array of cleaned items, in order. */
  method ExportJson(items: seq<Row>) returns (body: seq<Row>)
    ensures body == CleanAll(items)
    ensures |body| == |items|
    ensures forall i :: 0 <= i < |items| ==> body[i] == Clean(items[i])
  {
    body := CleanItems(items);
  }

  // ---------------------------------------------------------------------------
  // CSV

  /** How the writer spells a value: `None` as empty, the rest as `str()` does. */
  function CellText(v: Value): string {
    match v
    case Null => ""
    case Bool(b) => if b then "True" else "False"
    case Int(i) => IntToString(i)
    case Text(s) => s
  }

  function KeyIs(key: string): ((string, Value)) -> bool {
    (p: (string, Value)) => p.0 == key
  }

  /** `row.get(key)`. */
  function Lookup(row: Row, key: string): (r: Option<Value>)
    ensures r.Some? ==> (key, r.value) in row
    ensures r.None? <==> key !in Keys(row)
  {
    match Find(row, KeyIs(key))
    case None => None
    case Some(p) => Some(p.1)
  }

  /** `DictWriter.writerow`'s cells: each field name's value, `restval` ("")
      for a missing one. */
  function Cells(row: Row, fieldnames: seq<string>): (r: seq<string>)
    ensures |r| == |fieldnames|
    ensures forall i :: 0 <= i < |fieldnames| ==> r[i] == if fieldnames[i] in Keys(row) then CellText(Lookup(row, fieldnames[i]).value) else ""
  {
    seq(|fieldnames|, i requires 0 <= i < |fieldnames| =>
      match Lookup(row, fieldnames[i])
      case None => ""
      case Some(v) => CellText(v))
  }

  /** `extrasaction='raise'`: every key of the row is a field name. */
  predicate Fits(row: Row, fieldnames: seq<string>) {
    forall k :: k in Keys(row) ==> k in fieldnames
  }

  const EXTRA_FIELDS := "dict contains fields not in fieldnames"

  /** A key as `repr` shows it in the error: between single quotes. */
  function KeyRepr(k: string): string {
    "'" + k + "'"
  }

  /** The keys of `row` that are not field names, in the row's order. */
  function ExtraKeys(row: Row, fieldnames: seq<string>): (r: seq<string>)
    ensures r == [] <==> Fits(row, fieldnames)
  {
    Filter(Keys(row), (k: string) => k !in fieldnames)
  }

  /** The `ValueError` text `writerow` raises for a row with keys outside the header. */
  function ExtraFieldsError(row: Row, fieldnames: seq<string>): string {
    EXTRA_FIELDS + ": " + Join(Map(ExtraKeys(row, fieldnames), KeyRepr), ", ")
  }

  /** The line `writerow` writes for one row. */
  function RowLine(fieldnames: seq<string>): Row -> string {
    (row: Row) => Line(Cells(row, fieldnames))
  }

  /** `writer.writerows(rows)`: one line per row, in order; a row with a key
      outside the header raises and the export fails. */
  function Records(rows: seq<Row>, fieldnames: seq<string>): (r: Result<string>)
    ensures r.Err? <==> exists row :: row in rows && !Fits(row, fieldnames)
    ensures r.Err? ==> exists i :: 0 <= i < |rows| && !Fits(rows[i], fieldnames)
                          && (forall j :: 0 <= j < i ==> Fits(rows[j], fieldnames))
                          && r.error == ExtraFieldsError(rows[i], fieldnames)
    ensures r.Ok? ==> r.value == Concat(Map(rows, RowLine(fieldnames)))
  {
    if rows == [] then Ok("")
    else if !Fits(rows[0], fieldnames) then Err(ExtraFieldsError(rows[0], fieldnames))
    else
      match Records(rows[1..], fieldnames)
      case Err(e) =>
        assert rows == [rows[0]] + rows[1..];
        FirstMisfitBehindHead(rows, fieldnames, e);
        Err(e)
      case Ok(text) =>
        assert rows == [rows[0]] + rows[1..];
        MapCons(rows, RowLine(fieldnames));
        Ok(Line(Cells(rows[0], fieldnames)) + text)
  }

  /** When the head fits, the first row that does not is the tail's first. */
  lemma FirstMisfitBehindHead(rows: seq<Row>, fieldnames: seq<string>, e: string)
    requires rows != [] && Fits(rows[0], fieldnames)
    requires exists i :: 0 <= i < |rows[1..]| && !Fits(rows[1..][i], fieldnames)
                         && (forall j :: 0 <= j < i ==> Fits(rows[1..][j], fieldnames))
                         && e == ExtraFieldsError(rows[1..][i], fieldnames)
    ensures exists i :: 0 <= i < |rows| && !Fits(rows[i], fieldnames)
                        && (forall j :: 0 <= j < i ==> Fits(rows[j], fieldnames))
                        && e == ExtraFieldsError(rows[i], fieldnames)
  {
    var i :| 0 <= i < |rows[1..]| && !Fits(rows[1..][i], fieldnames)
             && (forall j :: 0 <= j < i ==> Fits(rows[1..][j], fieldnames))
             && e == ExtraFieldsError(rows[1..][i], fieldnames);
    forall j | 0 <= j < i + 1 ensures Fits(rows[j], fieldnames) {
      if j > 0 { assert rows[j] == rows[1..][j - 1]; }
    }
    assert rows[i + 1] == rows[1..][i];
  }

  /** The CSV text of cleaned items: nothing at all for no items, otherwise
      the first item's keys as header and then the rows. */
  function CsvBody(clean: seq<Row>): (r: Result<string>)
    ensures clean == [] ==> r == Ok("")
    ensures clean != [] ==> (r.Ok? <==> forall row :: row in clean ==> Fits(row, Keys(clean[0])))
    ensures clean != [] && r.Ok? ==>
              r.value == Line(Keys(clean[0])) + Concat(Map(clean, RowLine(Keys(clean[0]))))
    ensures r.Err? ==> exists row :: row in clean && !Fits(row, Keys(clean[0]))
                                      && r.error == ExtraFieldsError(row, Keys(clean[0]))
  {
    if clean == [] then Ok("")
    else
      match Records(clean, Keys(clean[0]))
      case Err(e) => Err(e)
      case Ok(text) => Ok(Line(Keys(clean[0])) + text)
  }

  /** `export_csv`. */
  method ExportCsv(items: seq<Row>) returns (body: Result<string>)
    ensures body == CsvBody(CleanAll(items))
  {
    var clean := CleanItems(items);
    body := CsvBody(clean);
  }

  /** Rows that all carry the first row's keys never raise: an export of
      rows read from one table succeeds. */
  lemma SameKeysExport(clean: seq<Row>)
    requires clean != []
    requires forall row :: row in clean ==> Keys(row) == Keys(clean[0])
    ensures CsvBody(clean).Ok?
  {
    var names := Keys(clean[0]);
    forall row | row in clean ensures Fits(row, names) {
    }
  }

  /** With distinct keys, a row's cells under its own keys are its values in order. */
  lemma CellsOfOwnKeys(row: Row)
    requires UniqueBy(Keys(row), (k: string) => k)
    ensures forall i :: 0 <= i < |row| ==> Cells(row, Keys(row))[i] == CellText(row[i].1)
  {
    var names := Keys(row);
    forall i | 0 <= i < |row| ensures Lookup(row, names[i]) == Some(row[i].1) {
      var p := Find(row, KeyIs(names[i]));
      assert p.Some?;
      var j :| 0 <= j < |row| && row[j] == p.value;
      assert names[j] == names[i];
    }
  }

  /** The header line reads back as the first item's keys. */
  lemma HeaderReadsBack(clean: seq<Row>)
    requires clean != [] && Keys(clean[0]) != []
    ensures ParseFields(FieldsText(Keys(clean[0]))) == Some(Keys(clean[0]))
  {
    FieldsRoundTrip(Keys(clean[0]));
  }
}
