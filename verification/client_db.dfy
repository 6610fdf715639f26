/** The browser-side store: a DMT table whose rows may be drafts (`isSession`),
    four entity tables and an audit table. Mutations that name a user append
    one audit row through `logAudit`, whose own failure is swallowed. The row
    id the SQL engine assigns on insert and whether an audit insert fails are
    parameters; the clock is `now`. */
module ClientDb {
  import opened Common
  import opened Seqs
  import opened Strings
  import opened Decimal

  datatype DmtRow = DmtRow(
    id: int, dmtNumber: string, title: string, description: string, status: string,
    isSession: bool, createdAt: int, updatedAt: int)

  /** The inserted columns of a new record; `createdAt` and `updatedAt` take the clock. */
  datatype DmtInput = DmtInput(
    dmtNumber: string, title: string, description: string, status: string, isSession: bool)

  /** The columns an update may set (`Partial<...>` without the key). */
  datatype DmtPatch = DmtPatch(
    dmtNumber: Option<string>, title: Option<string>, description: Option<string>,
    status: Option<string>, isSession: Option<bool>, createdAt: Option<int>, updatedAt: Option<int>)

  datatype AuditRow = AuditRow(
    entityType: string, entityId: string, action: string, user: string, details: string, timestamp: int)

  datatype DmtStats = DmtStats(total: nat, open: nat, inProgress: nat, closed: nat)

  datatype EntityKind = Products | Suppliers | Customers | Equipment

  datatype EntityRow = EntityRow(id: int, name: string)

  function KindName(k: EntityKind): (s: string)
    ensures s in ["products", "suppliers", "customers", "equipment"]
  {
    match k
    case Products => "products"
    case Suppliers => "suppliers"
    case Customers => "customers"
    case Equipment => "equipment"
  }

  /** JavaScript truthiness of an optional string: present and not empty. */
  predicate TruthyText(s: Option<string>) {
    s.Some? && s.value != []
  }

  /** `ORDER BY created_at DESC`. */
  function NewestFirst(): (DmtRow, DmtRow) -> bool {
    (a: DmtRow, b: DmtRow) => a.createdAt >= b.createdAt
  }

  /** `ORDER BY timestamp DESC`. */
  function LatestFirst(): (AuditRow, AuditRow) -> bool {
    (a: AuditRow, b: AuditRow) => a.timestamp >= b.timestamp
  }

  lemma OrdersAreTotal()
    ensures TotalPreorder(NewestFirst()) && TotalPreorder(LatestFirst())
  {
  }

  predicate Matches(r: DmtRow, term: string) {
    Like(r.dmtNumber, term) || Like(r.title, term) || Like(r.description, term)
  }

  function Published(): DmtRow -> bool {
    (r: DmtRow) => !r.isSession
  }

  function MatchesTerm(term: string): DmtRow -> bool {
    (x: DmtRow) => Matches(x, term)
  }

  /** The rows `dmt.list` answers: drafts only when asked for, and only
      matching rows under a non-empty search. */
  function Listed(search: Option<string>, includeSession: bool): DmtRow -> bool {
    (x: DmtRow) => (includeSession || !x.isSession) && (!TruthyText(search) || Matches(x, search.value))
  }

  /** `dmt.list(search, includeSession)`: the query result (every row, or the
      rows matching the search) newest first, then without drafts unless
      they are asked for. */
  function ListDmt(rows: seq<DmtRow>, search: Option<string>, includeSession: bool): (r: seq<DmtRow>)
    ensures forall x :: x in r <==>
              x in rows && (includeSession || !x.isSession) && (!TruthyText(search) || Matches(x, search.value))
    ensures SortedBy(r, NewestFirst())
    ensures multiset(r) == multiset(Filter(rows, Listed(search, includeSession)))
    ensures |r| <= |rows|
  {
    OrdersAreTotal();
    var selected := if !TruthyText(search) then rows else Filter(rows, MatchesTerm(search.value));
    var ordered := Sort(selected, NewestFirst());
    SortMembers(selected, NewestFirst());
    FilterSorted(ordered, Published(), NewestFirst());
    var r := if includeSession then ordered else Filter(ordered, Published());
    ListedCounts(rows, search, includeSession, selected, ordered, r);
    r
  }

  /** Searching, sorting and dropping drafts keep each listed row as often as
      the table holds it. */
  lemma ListedCounts(rows: seq<DmtRow>, search: Option<string>, includeSession: bool,
                     selected: seq<DmtRow>, ordered: seq<DmtRow>, r: seq<DmtRow>)
    requires selected == if !TruthyText(search) then rows else Filter(rows, MatchesTerm(search.value))
    requires multiset(ordered) == multiset(selected)
    requires r == if includeSession then ordered else Filter(ordered, Published())
    ensures multiset(r) == multiset(Filter(rows, Listed(search, includeSession)))
  {
    var listed := Filter(rows, Listed(search, includeSession));
    forall x ensures multiset(r)[x] == multiset(listed)[x] {
      FilterCount(rows, Listed(search, includeSession), x);
      SelectedCount(rows, search, selected, x);
      if !includeSession {
        FilterCount(ordered, Published(), x);
      }
    }
  }

  /** The search keeps every copy of a matching row and none of the others. */
  lemma SelectedCount(rows: seq<DmtRow>, search: Option<string>, selected: seq<DmtRow>, x: DmtRow)
    requires selected == if !TruthyText(search) then rows else Filter(rows, MatchesTerm(search.value))
    ensures multiset(selected)[x] == if !TruthyText(search) || Matches(x, search.value) then multiset(rows)[x] else 0
  {
    if TruthyText(search) {
      FilterCount(rows, MatchesTerm(search.value), x);
    }
  }

  /** Drafts never appear unless asked for, with or without a search term. */
  lemma ListHidesDrafts(rows: seq<DmtRow>, search: Option<string>)
    ensures forall x :: x in ListDmt(rows, search, false) ==> !x.isSession
  {
  }

  function FindDmtById(rows: seq<DmtRow>, id: int): (r: Option<DmtRow>)
    ensures r.Some? <==> exists x :: x in rows && x.id == id
    ensures r.Some? ==> r.value in rows && r.value.id == id
  {
    Find(rows, (x: DmtRow) => x.id == id)
  }

  /** `.set({ ...data, updatedAt: now })`: each supplied column replaces the
      stored one and the update time is the clock's, whatever the patch says. */
  function ApplyDmtPatch(x: DmtRow, p: DmtPatch, now: int): (y: DmtRow)
    ensures y.id == x.id && y.updatedAt == now
    ensures p.dmtNumber.Some? ==> y.dmtNumber == p.dmtNumber.value
    ensures p.dmtNumber.None? ==> y.dmtNumber == x.dmtNumber
    ensures p.title.Some? ==> y.title == p.title.value
    ensures p.title.None? ==> y.title == x.title
    ensures p.description.Some? ==> y.description == p.description.value
    ensures p.description.None? ==> y.description == x.description
    ensures p.status.Some? ==> y.status == p.status.value
    ensures p.status.None? ==> y.status == x.status
    ensures p.isSession.Some? ==> y.isSession == p.isSession.value
    ensures p.isSession.None? ==> y.isSession == x.isSession
    ensures p.createdAt.Some? ==> y.createdAt == p.createdAt.value
    ensures p.createdAt.None? ==> y.createdAt == x.createdAt
  {
    DmtRow(x.id, p.dmtNumber.GetOr(x.dmtNumber), p.title.GetOr(x.title), p.description.GetOr(x.description),
           p.status.GetOr(x.status), p.isSession.GetOr(x.isSession), p.createdAt.GetOr(x.createdAt), now)
  }

  /** A patch that supplies nothing, or only an update time, only re-stamps the row. */
  lemma EmptyPatchStamps(x: DmtRow, updatedAt: Option<int>, now: int)
    ensures ApplyDmtPatch(x, DmtPatch(None, None, None, None, None, None, updatedAt), now) == x.(updatedAt := now)
  {
  }

  function HasStatus(status: string): DmtRow -> bool {
    (x: DmtRow) => x.status == status
  }

  function CountStatus(rows: seq<DmtRow>, status: string): nat {
    |Filter(rows, HasStatus(status))|
  }

  /** The number of published rows with the given status, counted one row at a time. */
  function PublishedTally(rows: seq<DmtRow>, status: string): nat {
    if rows == [] then 0
    else (if !rows[0].isSession && rows[0].status == status then 1 else 0) + PublishedTally(rows[1..], status)
  }

  lemma {:induction false} PublishedTallyCounts(rows: seq<DmtRow>, status: string)
    ensures CountStatus(Filter(rows, Published()), status) == PublishedTally(rows, status)
  {
    if rows != [] {
      PublishedTallyCounts(rows[1..], status);
      FilterCons(rows, Published());
      var head := if Published()(rows[0]) then [rows[0]] else [];
      FilterAppend(head, Filter(rows[1..], Published()), HasStatus(status));
      assert Filter(head, HasStatus(status)) == if !rows[0].isSession && rows[0].status == status then [rows[0]] else [] by {
        if head != [] { FilterCons(head, HasStatus(status)); }
      }
    }
  }

  /** `dmt.getStats`: counts over the published (non-draft) rows only. */
  function GetStats(rows: seq<DmtRow>): (s: DmtStats)
    ensures s == DmtStats(|Filter(rows, Published())|, PublishedTally(rows, "Open"),
                          PublishedTally(rows, "In Progress"), PublishedTally(rows, "Closed"))
    ensures s.open + s.inProgress + s.closed <= s.total <= |rows|
  {
    var published := Filter(rows, Published());
    PublishedTallyCounts(rows, "Open");
    PublishedTallyCounts(rows, "In Progress");
    PublishedTallyCounts(rows, "Closed");
    CountUnion(published, HasStatus("In Progress"), HasStatus("Closed"));
    CountDisjoint(published, HasStatus("Open"), Either(HasStatus("In Progress"), HasStatus("Closed")));
    DmtStats(|published|, CountStatus(published, "Open"), CountStatus(published, "In Progress"),
             CountStatus(published, "Closed"))
  }

  /** A draft never counts, whatever its status. */
  lemma DraftsDoNotCount(rows: seq<DmtRow>, d: DmtRow)
    requires d.isSession
    ensures GetStats(rows + [d]) == GetStats(rows)
  {
    FilterAppend(rows, [d], Published());
    assert Filter([d], Published()) == [];
    assert Filter(rows, Published()) + [] == Filter(rows, Published());
  }

  /** The default of `audit.list`'s `limit` parameter. */
  const DEFAULT_AUDIT_LIMIT: int := 50

  /** `audit.list(limit = 50)`: the newest `limit` audit rows, newest first. */
  function ListAudit(audits: seq<AuditRow>, limit: Option<int>): (r: seq<AuditRow>)
    ensures var n := limit.GetOr(DEFAULT_AUDIT_LIMIT); n >= 0 ==> |r| == Min(n, |audits|)
    ensures limit.None? ==> |r| == Min(50, |audits|)
    ensures SortedBy(r, LatestFirst())
    ensures |r| <= |audits| && multiset(r) <= multiset(audits)
    ensures r == Sort(audits, LatestFirst())[..|r|]
    ensures forall x, y :: x in r && y in audits && y !in r ==> x.timestamp >= y.timestamp
  {
    OrdersAreTotal();
    var n := limit.GetOr(DEFAULT_AUDIT_LIMIT);
    var ordered := Sort(audits, LatestFirst());
    SortMembers(audits, LatestFirst());
    WindowSorted(ordered, 0, n, LatestFirst());
    WindowFirst(ordered, n, LatestFirst());
    var r := Window(ordered, 0, n);
    assert r == ordered[..|r|];
    PrefixMultiset(ordered, |r|);
    r
  }

  /** The audit row `logAudit` writes: the id as decimal text and `""` for absent details. */
  function AuditEntry(entityType: string, entityId: string, action: string, user: string,
                      details: Option<string>, now: int): (a: AuditRow)
    ensures a.details == (if details.Some? then details.value else [])
    ensures a.entityId == entityId && a.timestamp == now
  {
    AuditRow(entityType, entityId, action, user, details.GetOr([]), now)
  }

  /** The audit rows a mutation appends: one when a user is named (and the
      insert succeeds), none otherwise. */
  function AuditIf(cond: bool, insertFails: bool, a: AuditRow): (r: seq<AuditRow>)
    ensures |r| <= 1
    ensures r == [a] <==> cond && !insertFails
  {
    if cond && !insertFails then [a] else []
  }

  class Store {
    var dmtRecords: seq<DmtRow>
    var auditLogs: seq<AuditRow>
    var entities: map<EntityKind, seq<EntityRow>>

    ghost predicate Valid()
      reads this
    {
      forall k: EntityKind :: k in entities
    }

    constructor ()
      ensures Valid()
      ensures dmtRecords == [] && auditLogs == []
      ensures forall k :: entities[k] == []
    {
      dmtRecords := [];
      auditLogs := [];
      entities := map[Products := [], Suppliers := [], Customers := [], Equipment := []];
      new;
      forall k: EntityKind ensures k in entities {
        match k
        case Products =>
        case Suppliers =>
        case Customers =>
        case Equipment =>
      }
    }

    /** `logAudit`: appends one row, or nothing when the insert fails; the
        failure is logged and never reaches the caller. */
    method LogAudit(entityType: string, entityId: string, action: string, user: string,
                    details: Option<string>, now: int, insertFails: bool)
      modifies this
      ensures auditLogs == old(auditLogs) + AuditIf(true, insertFails, AuditEntry(entityType, entityId, action, user, details, now))
      ensures dmtRecords == old(dmtRecords) && entities == old(entities)
    {
      if !insertFails {
        auditLogs := auditLogs + [AuditEntry(entityType, entityId, action, user, details, now)];
      }
    }

    /** `dmt.create`: inserts the row under the engine's id and, when a user is
        named, audits CREATE. */
    method CreateDmt(data: DmtInput, username: Option<string>, newId: int, now: int, auditFails: bool)
      returns (x: DmtRow)
      modifies this
      ensures x == DmtRow(newId, data.dmtNumber, data.title, data.description, data.status, data.isSession, now, now)
      ensures dmtRecords == old(dmtRecords) + [x]
      ensures auditLogs == old(auditLogs) + AuditIf(TruthyText(username), auditFails,
                AuditRow("dmt_records", IntToString(newId), "CREATE", username.GetOr([]), "Created DMT " + data.dmtNumber, now))
      ensures entities == old(entities)
    {
      x := DmtRow(newId, data.dmtNumber, data.title, data.description, data.status, data.isSession, now, now);
      dmtRecords := dmtRecords + [x];
      if TruthyText(username) {
        LogAudit("dmt_records", IntToString(newId), "CREATE", username.value, Some("Created DMT " + data.dmtNumber), now, auditFails);
      }
    }

    /** `dmt.update`: every row with the id is patched and re-stamped; UPDATE
        is audited only when a user is named and a row was updated. */
    method UpdateDmt(id: int, patch: DmtPatch, username: Option<string>, now: int, auditFails: bool)
      returns (r: Option<DmtRow>)
      modifies this
      ensures dmtRecords == Map(old(dmtRecords), (x: DmtRow) => if x.id == id then ApplyDmtPatch(x, patch, now) else x)
      ensures r == FindDmtById(dmtRecords, id)
      ensures r.Some? <==> exists x :: x in old(dmtRecords) && x.id == id
      ensures r.Some? ==> r.value.updatedAt == now
      ensures auditLogs == old(auditLogs) + AuditIf(TruthyText(username) && r.Some?, auditFails,
                AuditRow("dmt_records", IntToString(id), "UPDATE", username.GetOr([]),
                         "Updated DMT " + (if r.Some? then r.value.dmtNumber else []), now))
      ensures entities == old(entities)
    {
      var before := dmtRecords;
      dmtRecords := Map(dmtRecords, (x: DmtRow) => if x.id == id then ApplyDmtPatch(x, patch, now) else x);
      r := FindDmtById(dmtRecords, id);
      FindAfterMap(before, (x: DmtRow) => if x.id == id then ApplyDmtPatch(x, patch, now) else x, (x: DmtRow) => x.id == id);
      if TruthyText(username) && r.Some? {
        LogAudit("dmt_records", IntToString(id), "UPDATE", username.value, Some("Updated DMT " + r.value.dmtNumber), now, auditFails);
      }
    }

    /** `dmt.delete`: reads the row first, deletes every row with the id, audits
        DELETE only when the row existed and a user is named, and answers true. */
    method DeleteDmt(id: int, username: Option<string>, now: int, auditFails: bool) returns (ok: bool)
      modifies this
      ensures ok
      ensures dmtRecords == Filter(old(dmtRecords), (x: DmtRow) => x.id != id)
      ensures var found := FindDmtById(old(dmtRecords), id);
              auditLogs == old(auditLogs) + AuditIf(TruthyText(username) && found.Some?, auditFails,
                AuditRow("dmt_records", IntToString(id), "DELETE", username.GetOr([]),
                         "Deleted DMT " + (if found.Some? then found.value.dmtNumber else []), now))
      ensures entities == old(entities)
    {
      var found := FindDmtById(dmtRecords, id);
      dmtRecords := Filter(dmtRecords, (x: DmtRow) => x.id != id);
      if TruthyText(username) && found.Some? {
        LogAudit("dmt_records", IntToString(id), "DELETE", username.value, Some("Deleted DMT " + found.value.dmtNumber), now, auditFails);
      }
      ok := true;
    }

    /** `entity.create`: inserts into the kind's table and, when a user is named, audits CREATE. */
    method CreateEntity(kind: EntityKind, name: string, username: Option<string>, newId: int, now: int, auditFails: bool)
      returns (e: EntityRow)
      requires Valid()
      modifies this
      ensures Valid()
      ensures e == EntityRow(newId, name)
      ensures entities == old(entities)[kind := old(entities)[kind] + [e]]
      ensures auditLogs == old(auditLogs) + AuditIf(TruthyText(username), auditFails,
                AuditRow(KindName(kind), IntToString(newId), "CREATE", username.GetOr([]),
                         "Created " + KindName(kind) + " " + name, now))
      ensures dmtRecords == old(dmtRecords)
    {
      e := EntityRow(newId, name);
      entities := entities[kind := entities[kind] + [e]];
      if TruthyText(username) {
        LogAudit(KindName(kind), IntToString(newId), "CREATE", username.value,
                 Some("Created " + KindName(kind) + " " + name), now, auditFails);
      }
    }

    /** `entity.update`: renames every row with the id when a name is given;
        audits UPDATE only when a user is named and a row was updated, naming
        the given name or, when that is empty, the stored one. */
    method UpdateEntity(kind: EntityKind, id: int, name: Option<string>, username: Option<string>,
                        now: int, auditFails: bool)
      returns (r: Option<EntityRow>)
      requires Valid()
      modifies this
      ensures Valid()
      ensures entities == old(entities)[kind := Map(old(entities)[kind],
                (e: EntityRow) => if e.id == id then EntityRow(e.id, name.GetOr(e.name)) else e)]
      ensures r == Find(entities[kind], (e: EntityRow) => e.id == id)
      ensures r.Some? <==> exists e :: e in old(entities)[kind] && e.id == id
      ensures auditLogs == old(auditLogs) + AuditIf(TruthyText(username) && r.Some?, auditFails,
                AuditRow(KindName(kind), IntToString(id), "UPDATE", username.GetOr([]),
                         "Updated " + KindName(kind) + " "
                         + (if TruthyText(name) then name.value else if r.Some? then r.value.name else []), now))
      ensures dmtRecords == old(dmtRecords)
    {
      var before := entities[kind];
      var after := Map(before, (e: EntityRow) => if e.id == id then EntityRow(e.id, name.GetOr(e.name)) else e);
      entities := entities[kind := after];
      r := Find(after, (e: EntityRow) => e.id == id);
      FindAfterMap(before, (e: EntityRow) => if e.id == id then EntityRow(e.id, name.GetOr(e.name)) else e, (e: EntityRow) => e.id == id);
      if TruthyText(username) && r.Some? {
        var shown := if TruthyText(name) then name.value else r.value.name;
        LogAudit(KindName(kind), IntToString(id), "UPDATE", username.value,
                 Some("Updated " + KindName(kind) + " " + shown), now, auditFails);
      }
    }

    /** `entity.delete`: reads the row first, deletes every row with the id,
        audits DELETE only when the row existed and a user is named, and answers true. */
    method DeleteEntity(kind: EntityKind, id: int, username: Option<string>, now: int, auditFails: bool)
      returns (ok: bool)
      requires Valid()
      modifies this
      ensures Valid()
      ensures ok
      ensures entities == old(entities)[kind := Filter(old(entities)[kind], (e: EntityRow) => e.id != id)]
      ensures var found := Find(old(entities)[kind], (e: EntityRow) => e.id == id);
              auditLogs == old(auditLogs) + AuditIf(TruthyText(username) && found.Some?, auditFails,
                AuditRow(KindName(kind), IntToString(id), "DELETE", username.GetOr([]),
                         "Deleted " + KindName(kind) + " " + (if found.Some? then found.value.name else []), now))
      ensures dmtRecords == old(dmtRecords)
    {
      var found := Find(entities[kind], (e: EntityRow) => e.id == id);
      entities := entities[kind := Filter(entities[kind], (e: EntityRow) => e.id != id)];
      if TruthyText(username) && found.Some? {
        LogAudit(KindName(kind), IntToString(id), "DELETE", username.value,
                 Some("Deleted " + KindName(kind) + " " + found.value.name), now, auditFails);
      }
      ok := true;
    }
  }

  /** A mutation never adds more than one audit row, and adds none without a user. */
  lemma AuditAtMostOne(cond: bool, insertFails: bool, a: AuditRow)
    ensures |AuditIf(cond, insertFails, a)| <= 1
    ensures !cond ==> AuditIf(cond, insertFails, a) == []
  {
  }
}
