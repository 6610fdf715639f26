/** `AuditService`: appends entries to `audit_logs` without ever failing the
    caller, and lists them newest first, filtered by entity type and user,
    each joined with its user's name. */
module AuditService {
  import opened Common
  import opened Seqs
  import opened AppDb

  /** `log_action`: one entry with the next row id and the current instant;
      when the insert fails (`dbFails`) the error is swallowed and nothing is
      written. */
  method LogAction(db: Connection, userId: Option<int>, action: string, entityType: string,
                   entityId: Option<int>, details: Option<string>, now: int, dbFails: bool)
    modifies db
    ensures db.users == old(db.users) && db.records == old(db.records)
    ensures dbFails ==> db.logs == old(db.logs)
    ensures !dbFails ==>
              && |db.logs| == |old(db.logs)| + 1
              && db.logs[..|old(db.logs)|] == old(db.logs)
              && var e := db.logs[|old(db.logs)|];
                 && (forall l :: l in old(db.logs) ==> l.id < e.id)
                 && e == AuditLog(e.id, userId, action, entityType, entityId, details, now)
  {
    if dbFails {
      return;
    }
    var id := NextRowId(Map(db.logs, (a: AuditLog) => a.id));
    forall l | l in db.logs ensures l.id < id {
      var i :| 0 <= i < |db.logs| && db.logs[i] == l;
      assert Map(db.logs, (a: AuditLog) => a.id)[i] == l.id;
    }
    db.logs := db.logs + [AuditLog(id, userId, action, entityType, entityId, details, now)];
  }

  /** A row of `SELECT a.*, u.username`. */
  datatype LogView = LogView(log: AuditLog, username: Option<string>)

  function UserKeyValue(userId: Option<int>): Value {
    if userId.Some? then Int(userId.value) else Null
  }

  function JoinedLog(users: seq<UserRecord>, l: AuditLog): (v: LogView)
    ensures v.log == l && v.username == JoinedUsername(users, UserKeyValue(l.userId))
  {
    LogView(l, JoinedUsername(users, UserKeyValue(l.userId)))
  }

  function JoinedLogWith(users: seq<UserRecord>): AuditLog -> LogView {
    (l: AuditLog) => JoinedLog(users, l)
  }

  /** The `WHERE` of `get_logs`: each filter applies only when its argument
      is truthy, so an empty type and user id 0 filter nothing. */
  predicate Matches(l: AuditLog, entityType: Option<string>, userId: Option<int>) {
    && (entityType.None? || entityType.value == "" || l.entityType == entityType.value)
    && (userId.None? || userId.value == 0 || l.userId == userId)
  }

  function MatchesFilters(entityType: Option<string>, userId: Option<int>): AuditLog -> bool {
    (l: AuditLog) => Matches(l, entityType, userId)
  }

  /** `ORDER BY a.timestamp DESC`. */
  function NewestFirst(): (AuditLog, AuditLog) -> bool {
    (a: AuditLog, b: AuditLog) => a.timestamp >= b.timestamp
  }

  /** The matching entries, newest first. */
  function MatchingNewestFirst(logs: seq<AuditLog>, entityType: Option<string>, userId: Option<int>): (r: seq<AuditLog>)
    ensures |r| <= |logs|
    ensures forall l :: l in r <==> l in logs && Matches(l, entityType, userId)
    ensures SortedBy(r, NewestFirst())
    ensures multiset(r) == multiset(Filter(logs, MatchesFilters(entityType, userId)))
  {
    assert TotalPreorder(NewestFirst());
    var matching := Filter(logs, MatchesFilters(entityType, userId));
    SortMembers(matching, NewestFirst());
    Sort(matching, NewestFirst())
  }

  /** `get_logs(skip, limit, entity_type, user_id)`. */
  function GetLogs(users: seq<UserRecord>, logs: seq<AuditLog>, skip: int, limit: int,
                   entityType: Option<string>, userId: Option<int>): (r: seq<LogView>)
    ensures limit >= 0 ==> |r| <= limit
    ensures forall v :: v in r ==> v.log in logs && Matches(v.log, entityType, userId) && v == JoinedLog(users, v.log)
    ensures forall i, j :: 0 <= i < j < |r| ==> r[i].log.timestamp >= r[j].log.timestamp
    ensures IsPage(r, MatchingNewestFirst(logs, entityType, userId), JoinedLogWith(users), skip, limit)
  {
    var ordered := MatchingNewestFirst(logs, entityType, userId);
    var page := Window(ordered, skip, limit);
    MapWindowIsPage(ordered, JoinedLogWith(users), skip, limit);
    WindowSorted(ordered, skip, limit, NewestFirst());
    WindowMembers(ordered, skip, limit);
    var r := Map(page, JoinedLogWith(users));
    forall v | v in r ensures v.log in logs && Matches(v.log, entityType, userId) && v == JoinedLog(users, v.log) {
      var i :| 0 <= i < |r| && r[i] == v;
      assert page[i] in page;
    }
    r
  }

  /** On a page large enough, an entry is listed exactly when it matches the filters. */
  lemma GetLogsComplete(users: seq<UserRecord>, logs: seq<AuditLog>, limit: int,
                        entityType: Option<string>, userId: Option<int>)
    requires limit < 0 || limit >= |logs|
    ensures forall l :: l in logs ==>
              (Matches(l, entityType, userId) <==> JoinedLog(users, l) in GetLogs(users, logs, 0, limit, entityType, userId))
  {
    var ordered := MatchingNewestFirst(logs, entityType, userId);
    WindowWhole(ordered, limit);
    var r := GetLogs(users, logs, 0, limit, entityType, userId);
    assert r == Map(ordered, JoinedLogWith(users));
    forall l | l in logs && Matches(l, entityType, userId) ensures JoinedLog(users, l) in r {
      var i :| 0 <= i < |ordered| && ordered[i] == l;
      assert r[i] == JoinedLog(users, l);
    }
  }

  /** Consecutive pages from offset 0 join into the longer page: no entry
      is served twice and none is passed over. */
  lemma LogPagesTile(users: seq<UserRecord>, logs: seq<AuditLog>, entityType: Option<string>, userId: Option<int>,
                     start: nat, size: nat)
    ensures GetLogs(users, logs, 0, start, entityType, userId) + GetLogs(users, logs, start, size, entityType, userId)
            == GetLogs(users, logs, 0, start + size, entityType, userId)
  {
    MapWindowsTile(MatchingNewestFirst(logs, entityType, userId), JoinedLogWith(users), start, size);
  }

  /** Falsy filter values filter nothing: an empty entity type is no entity
      type, and user id 0 is no user id. */
  lemma FalsyFiltersAreAbsent(users: seq<UserRecord>, logs: seq<AuditLog>, skip: int, limit: int,
                              entityType: Option<string>, userId: Option<int>)
    ensures GetLogs(users, logs, skip, limit, Some(""), userId) == GetLogs(users, logs, skip, limit, None, userId)
    ensures GetLogs(users, logs, skip, limit, entityType, Some(0)) == GetLogs(users, logs, skip, limit, entityType, None)
  {
    FilterAgree(logs, MatchesFilters(Some(""), userId), MatchesFilters(None, userId));
    FilterAgree(logs, MatchesFilters(entityType, Some(0)), MatchesFilters(entityType, None));
  }

  /** An entry just written is listed under its own entity type and user. */
  lemma LoggedEntryIsListed(users: seq<UserRecord>, logs: seq<AuditLog>, e: AuditLog)
    ensures JoinedLog(users, e) in GetLogs(users, logs + [e], 0, -1, Some(e.entityType), e.userId)
  {
    assert e in logs + [e];
    GetLogsComplete(users, logs + [e], -1, Some(e.entityType), e.userId);
  }
}
