/** The preview store: arrays of users, DMT (defective material tag) records
    and audit entries, a password map keyed by username, and dashboard
    statistics. Timestamps are the clock reading `now` in milliseconds; their
    ISO-8601 rendering is not modelled. */
module MockDb {
  import opened Common
  import opened Seqs
  import opened Strings
  import opened Encoding

  datatype User = User(id: int, username: string, role: string, isActive: bool)

  /** `Partial<User>`: each field replaces the stored one when present. */
  datatype UserPatch = UserPatch(id: Option<int>, username: Option<string>, role: Option<string>, isActive: Option<bool>)

  datatype DmtRecord = DmtRecord(
    id: int, dmtNumber: string, title: string, description: string, status: string,
    workflowStage: string, createdBy: string, createdAt: int, updatedAt: int)

  /** The caller-supplied fields of a new record (everything but the id and timestamps). */
  datatype DmtInput = DmtInput(
    dmtNumber: string, title: string, description: string, status: string,
    workflowStage: string, createdBy: string)

  /** `Partial<DMTRecord>`. */
  datatype DmtPatch = DmtPatch(
    id: Option<int>, dmtNumber: Option<string>, title: Option<string>, description: Option<string>,
    status: Option<string>, workflowStage: Option<string>, createdBy: Option<string>,
    createdAt: Option<int>, updatedAt: Option<int>)

  datatype AuditLog = AuditLog(
    id: int, action: string, entityType: string, entityId: int, user: string, timestamp: int, details: string)

  datatype AuditInput = AuditInput(action: string, entityType: string, entityId: int, user: string, details: string)

  datatype Stats = Stats(
    totalUsers: nat, totalReports: nat, openReports: nat, recentAudits: nat,
    recentReports: seq<(int, string, string, string, int)>,
    recentUsers: seq<(string, string)>,
    myReports: Option<nat>, myOpenReports: Option<nat>, myClosedReports: Option<nat>)

  // ---------------------------------------------------------------------------
  // Password "hashing": the Base64 text of the UTF-8 bytes.

  function HashPassword(password: string): (h: string)
    ensures |h| % 4 == 0
    ensures h == [] <==> password == []
  {
    Base64(Utf8(password))
  }

  predicate VerifyPassword(password: string, hash: string) {
    HashPassword(password) == hash
  }

  /** A password verifies against its own hash and against no other password's. */
  lemma VerifyPasswordExact(p: string, q: string)
    ensures VerifyPassword(q, HashPassword(p)) <==> q == p
  {
    if VerifyPassword(q, HashPassword(p)) {
      Base64Injective(Utf8(q), Utf8(p));
      Utf8Injective(q, p);
    }
  }

  /** `users.verifyPassword`: false when no hash, or the empty (falsy) hash,
      is stored for the name; otherwise whether the password hashes to it. */
  function CheckUserPassword(passwords: map<string, string>, username: string, password: string): (ok: bool)
    ensures username !in passwords ==> !ok
    ensures ok ==> username in passwords && passwords[username] == HashPassword(password)
  {
    if username !in passwords || passwords[username] == [] then false
    else VerifyPassword(password, passwords[username])
  }

  /** After `users.create` stores the hash of `p` under a name, exactly `p`
      logs in under that name, provided `p` is not empty. */
  lemma CheckAfterCreate(passwords: map<string, string>, username: string, p: string, q: string)
    ensures CheckUserPassword(passwords[username := HashPassword(p)], username, q) <==> p != [] && q == p
  {
    VerifyPasswordExact(p, q);
  }

  // ---------------------------------------------------------------------------
  // Readers.

  /** `find((u) => u.id === id)`: ids can repeat in this store (see
      `LengthIdsRepeatAfterDelete`), and `find` answers the first user with the id. */
  function FindUserById(users: seq<User>, id: int): (r: Option<User>)
    ensures r.Some? <==> exists u :: u in users && u.id == id
    ensures r.Some? ==> r.value in users && r.value.id == id
    ensures r.Some? ==> exists i :: 0 <= i < |users| && users[i] == r.value
                          && forall j :: 0 <= j < i ==> users[j].id != id
  {
    Find(users, (u: User) => u.id == id)
  }

  /** `find((u) => u.username === username)`: `users.create` does not refuse a
      taken name, so names can repeat, and `find` answers the first user with it. */
  function FindUserByUsername(users: seq<User>, username: string): (r: Option<User>)
    ensures r.Some? <==> exists u :: u in users && u.username == username
    ensures r.Some? ==> r.value in users && r.value.username == username
    ensures r.Some? ==> exists i :: 0 <= i < |users| && users[i] == r.value
                          && forall j :: 0 <= j < i ==> users[j].username != username
  {
    Find(users, (u: User) => u.username == username)
  }

  /** The search test of `dmt.list`: a case-blind substring of the number, title or description. */
  predicate DmtMatches(r: DmtRecord, term: string) {
    Contains(Lower(r.dmtNumber), Lower(term)) || Contains(Lower(r.title), Lower(term))
    || Contains(Lower(r.description), Lower(term))
  }

  /** `dmt.list(search)`: every record when the search is absent or empty,
      otherwise exactly the matching records, in array order. */
  function ListDmt(records: seq<DmtRecord>, search: Option<string>): (r: seq<DmtRecord>)
    ensures search.None? || search == Some([]) ==> r == records
    ensures search.Some? && search.value != [] ==>
              (forall x :: x in r <==> x in records && DmtMatches(x, search.value))
    ensures search.Some? && search.value != [] ==> r == Filter(records, (x: DmtRecord) => DmtMatches(x, search.value))
  {
    if search.None? || search.value == [] then records
    else Filter(records, (x: DmtRecord) => DmtMatches(x, search.value))
  }

  /** With a non-empty term, every record listed matches and none is invented. */
  lemma ListDmtSubset(records: seq<DmtRecord>, term: string)
    ensures |ListDmt(records, Some(term))| <= |records|
    ensures forall x :: x in ListDmt(records, Some(term)) ==> x in records
  {
  }

  /** `find((r) => r.id === id)`: the first record with the id. */
  function FindDmtById(records: seq<DmtRecord>, id: int): (r: Option<DmtRecord>)
    ensures r.Some? <==> exists x :: x in records && x.id == id
    ensures r.Some? ==> r.value in records && r.value.id == id
    ensures r.Some? ==> exists i :: 0 <= i < |records| && records[i] == r.value
                          && forall j :: 0 <= j < i ==> records[j].id != id
  {
    Find(records, (x: DmtRecord) => x.id == id)
  }

  function OfStatus(records: seq<DmtRecord>, status: string): seq<DmtRecord> {
    Filter(records, (x: DmtRecord) => x.status == status)
  }

  /** The last five records as dashboard rows, oldest first. */
  function RecentReports(records: seq<DmtRecord>): (r: seq<(int, string, string, string, int)>)
    ensures |r| == Min(5, |records|)
    ensures forall i :: 0 <= i < |r| ==>
              var x := records[|records| - |r| + i];
              r[i] == (x.id, x.dmtNumber, x.title, x.status, x.createdAt)
  {
    var k := Min(5, |records|);
    seq(k, i requires 0 <= i < k => var x := records[|records| - k + i]; (x.id, x.dmtNumber, x.title, x.status, x.createdAt))
  }

  /** The last five users as (username, role), oldest first. */
  function RecentUsers(users: seq<User>): (r: seq<(string, string)>)
    ensures |r| == Min(5, |users|)
    ensures forall i :: 0 <= i < |r| ==> var u := users[|users| - |r| + i]; r[i] == (u.username, u.role)
  {
    var k := Min(5, |users|);
    seq(k, i requires 0 <= i < k => var u := users[|users| - k + i]; (u.username, u.role))
  }

  function CreatedBy(username: string): DmtRecord -> bool {
    (x: DmtRecord) => x.createdBy == username
  }

  /** The per-user counts: records created by the user, and those of them
      that are open and closed. */
  function MyCounts(records: seq<DmtRecord>, username: string): (c: (nat, nat, nat))
    ensures c.0 == |Filter(records, CreatedBy(username))|
    ensures c.1 == |OfStatus(Filter(records, CreatedBy(username)), "Open")|
    ensures c.2 == |OfStatus(Filter(records, CreatedBy(username)), "Closed")|
    ensures c.1 + c.2 <= c.0 <= |records|
  {
    var mine := Filter(records, CreatedBy(username));
    CountDisjoint(mine, (x: DmtRecord) => x.status == "Open", (x: DmtRecord) => x.status == "Closed");
    (|mine|, |OfStatus(mine, "Open")|, |OfStatus(mine, "Closed")|)
  }

  /** `dashboard.getStats(username)`. */
  function GetStats(users: seq<User>, records: seq<DmtRecord>, audits: seq<AuditLog>, username: Option<string>): (s: Stats)
    ensures s.totalUsers == |users| && s.totalReports == |records| && s.recentAudits == |audits|
    ensures s.openReports == |OfStatus(records, "Open")| <= s.totalReports
    ensures s.recentReports == RecentReports(records) && s.recentUsers == RecentUsers(users)
    ensures s.myReports.Some? <==> username.Some? && username.value != []
    ensures s.myOpenReports.Some? <==> s.myReports.Some?
    ensures s.myClosedReports.Some? <==> s.myReports.Some?
    ensures s.myReports.Some? ==>
              (s.myReports.value, s.myOpenReports.value, s.myClosedReports.value) == MyCounts(records, username.value)
    ensures s.myReports.Some? ==>
              s.myOpenReports.value + s.myClosedReports.value <= s.myReports.value <= s.totalReports
  {
    var base := Stats(|users|, |records|, |OfStatus(records, "Open")|, |audits|,
                      RecentReports(records), RecentUsers(users), None, None, None);
    if username.None? || username.value == [] then base
    else
      var c := MyCounts(records, username.value);
      base.(myReports := Some(c.0), myOpenReports := Some(c.1), myClosedReports := Some(c.2))
  }

  // ---------------------------------------------------------------------------
  // The store.

  function ApplyUserPatch(u: User, p: UserPatch): User {
    User(p.id.GetOr(u.id), p.username.GetOr(u.username), p.role.GetOr(u.role), p.isActive.GetOr(u.isActive))
  }

  /** `{ ...record, ...data, updated_at: now }`: the patch is merged and the
      update time is always the clock, whatever the patch says. */
  function ApplyDmtPatch(x: DmtRecord, p: DmtPatch, now: int): (y: DmtRecord)
    ensures y.updatedAt == now
    ensures p == DmtPatch(None, None, None, None, None, None, None, None, None) ==> y == x.(updatedAt := now)
  {
    DmtRecord(p.id.GetOr(x.id), p.dmtNumber.GetOr(x.dmtNumber), p.title.GetOr(x.title),
              p.description.GetOr(x.description), p.status.GetOr(x.status),
              p.workflowStage.GetOr(x.workflowStage), p.createdBy.GetOr(x.createdBy),
              p.createdAt.GetOr(x.createdAt), now)
  }

  class Store {
    var users: seq<User>
    var passwords: map<string, string>
    var dmtRecords: seq<DmtRecord>
    var auditLogs: seq<AuditLog>

    /** The seeded preview data: three active users, two records and two audit
        entries stamped at `now`. The password map holds the Base64 texts of
        "admin123", "engineer123" and "supervisor123", written out. */
    constructor (now: int)
      ensures |users| == 3 && |dmtRecords| == 2 && |auditLogs| == 2
      ensures passwords.Keys == {"admin", "john_engineer", "sarah_supervisor"}
      ensures forall i :: 0 <= i < |users| ==> users[i].id == i + 1 && users[i].isActive
      ensures forall i :: 0 <= i < |dmtRecords| ==> dmtRecords[i].id == i + 1
    {
      users := [User(1, "admin", "Admin", true), User(2, "john_engineer", "Engineer", true),
                User(3, "sarah_supervisor", "Supervisor", true)];
      passwords := map["admin" := "YWRtaW4xMjM=", "john_engineer" := "ZW5naW5lZXIxMjM=",
                       "sarah_supervisor" := "c3VwZXJ2aXNvcjEyMw=="];
      dmtRecords := [
        DmtRecord(1, "DMT-2024-001", "Quality Issue - Product A", "Defect found in batch 12345",
                  "Open", "Investigation", "john_engineer", now, now),
        DmtRecord(2, "DMT-2024-002", "Process Improvement", "Optimize assembly line workflow",
                  "Closed", "Completed", "sarah_supervisor", now - 86_400_000, now)];
      auditLogs := [
        AuditLog(1, "CREATE", "DMT", 1, "john_engineer", now, "Created DMT record DMT-2024-001"),
        AuditLog(2, "UPDATE", "DMT", 2, "sarah_supervisor", now, "Closed DMT record DMT-2024-002")];
    }

    /** `users.create`: appends one active user numbered length+1 and stores
        the hash of the password under the username. */
    method CreateUser(username: string, password: string, role: string) returns (u: User)
      modifies this
      ensures u == User(|old(users)| + 1, username, role, true)
      ensures users == old(users) + [u]
      ensures passwords == old(passwords)[username := HashPassword(password)]
      ensures dmtRecords == old(dmtRecords) && auditLogs == old(auditLogs)
    {
      u := User(|users| + 1, username, role, true);
      users := users + [u];
      passwords := passwords[username := HashPassword(password)];
    }

    /** `users.update`: null for an unknown id; otherwise the first user with
        the id is merged with the patch and every other user is untouched. */
    method UpdateUser(id: int, patch: UserPatch) returns (r: Option<User>)
      modifies this
      ensures var k := FindIndex(old(users), (u: User) => u.id == id);
              if k == -1 then r.None? && users == old(users)
              else r == Some(ApplyUserPatch(old(users)[k], patch)) && users == old(users)[k := r.value]
      ensures passwords == old(passwords) && dmtRecords == old(dmtRecords) && auditLogs == old(auditLogs)
    {
      var k := FindIndex(users, (u: User) => u.id == id);
      if k == -1 {
        return None;
      }
      var u := ApplyUserPatch(users[k], patch);
      users := users[k := u];
      r := Some(u);
    }

    /** `users.delete`: false and no change for an unknown id, otherwise the
        first user with the id is removed. */
    method DeleteUser(id: int) returns (ok: bool)
      modifies this
      ensures var k := FindIndex(old(users), (u: User) => u.id == id);
              ok == (k != -1) && users == if k == -1 then old(users) else RemoveAt(old(users), k)
      ensures passwords == old(passwords) && dmtRecords == old(dmtRecords) && auditLogs == old(auditLogs)
    {
      var k := FindIndex(users, (u: User) => u.id == id);
      if k == -1 {
        return false;
      }
      users := RemoveAt(users, k);
      ok := true;
    }

    /** `dmt.create`: appends one record numbered length+1, created and
        updated at `now`. */
    method CreateDmt(data: DmtInput, now: int) returns (x: DmtRecord)
      modifies this
      ensures x == DmtRecord(|old(dmtRecords)| + 1, data.dmtNumber, data.title, data.description,
                             data.status, data.workflowStage, data.createdBy, now, now)
      ensures dmtRecords == old(dmtRecords) + [x]
      ensures users == old(users) && passwords == old(passwords) && auditLogs == old(auditLogs)
    {
      x := DmtRecord(|dmtRecords| + 1, data.dmtNumber, data.title, data.description,
                     data.status, data.workflowStage, data.createdBy, now, now);
      dmtRecords := dmtRecords + [x];
    }

    /** `dmt.update`: null and no change for an unknown id; otherwise the
        first matching record is merged and re-stamped, and only it changes. */
    method UpdateDmt(id: int, patch: DmtPatch, now: int) returns (r: Option<DmtRecord>)
      modifies this
      ensures var k := FindIndex(old(dmtRecords), (x: DmtRecord) => x.id == id);
              if k == -1 then r.None? && dmtRecords == old(dmtRecords)
              else r == Some(ApplyDmtPatch(old(dmtRecords)[k], patch, now))
                   && dmtRecords == old(dmtRecords)[k := r.value]
      ensures r.Some? ==> r.value.updatedAt == now
      ensures |dmtRecords| == |old(dmtRecords)|
      ensures users == old(users) && passwords == old(passwords) && auditLogs == old(auditLogs)
    {
      var k := FindIndex(dmtRecords, (x: DmtRecord) => x.id == id);
      if k == -1 {
        return None;
      }
      var y := ApplyDmtPatch(dmtRecords[k], patch, now);
      dmtRecords := dmtRecords[k := y];
      r := Some(y);
    }

    /** `dmt.delete`: false and no change for an unknown id, otherwise the
        first record with the id is removed. */
    method DeleteDmt(id: int) returns (ok: bool)
      modifies this
      ensures var k := FindIndex(old(dmtRecords), (x: DmtRecord) => x.id == id);
              ok == (k != -1) && dmtRecords == if k == -1 then old(dmtRecords) else RemoveAt(old(dmtRecords), k)
      ensures ok ==> |dmtRecords| == |old(dmtRecords)| - 1
      ensures users == old(users) && passwords == old(passwords) && auditLogs == old(auditLogs)
    {
      var k := FindIndex(dmtRecords, (x: DmtRecord) => x.id == id);
      if k == -1 {
        return false;
      }
      dmtRecords := RemoveAt(dmtRecords, k);
      ok := true;
    }

    /** `audit.create`: appends one entry numbered length+1, stamped `now`. */
    method CreateAudit(log: AuditInput, now: int) returns (a: AuditLog)
      modifies this
      ensures a == AuditLog(|old(auditLogs)| + 1, log.action, log.entityType, log.entityId, log.user, now, log.details)
      ensures auditLogs == old(auditLogs) + [a]
      ensures users == old(users) && passwords == old(passwords) && dmtRecords == old(dmtRecords)
    {
      a := AuditLog(|auditLogs| + 1, log.action, log.entityType, log.entityId, log.user, now, log.details);
      auditLogs := auditLogs + [a];
    }
  }

  /** Records numbered 1, 2, … in array order, as the seed data and `dmt.create` leave them
      while nothing is deleted. */
  predicate NumberedInOrder(records: seq<DmtRecord>) {
    forall i :: 0 <= i < |records| ==> records[i].id == i + 1
  }

  /** Numbering by length+1 repeats an id once a record has been deleted:
      after any record but the last is spliced out of a consecutively
      numbered array, the id the next `dmt.create` hands out, length+1, is
      still carried by the last record. */
  lemma LengthIdsRepeatAfterDelete(records: seq<DmtRecord>, k: nat)
    requires NumberedInOrder(records)
    requires k < |records| - 1
    ensures var after := RemoveAt(records, k);
            after[|after| - 1].id == |after| + 1
  {
    var after := RemoveAt(records, k);
    assert after[|after| - 1] == records[|records| - 1];
  }

  /** `dmt.create` keeps the numbering consecutive while nothing is deleted,
      so ids repeat only after a delete. */
  lemma CreateKeepsNumbering(records: seq<DmtRecord>, x: DmtRecord)
    requires NumberedInOrder(records) && x.id == |records| + 1
    ensures NumberedInOrder(records + [x])
  {
  }

  /** A user created with the empty password can never log in, whatever is
      typed: the hash of `""` is `""`, which the falsy-hash check rejects. */
  lemma EmptyPasswordNeverVerifies(passwords: map<string, string>, username: string)
    requires username in passwords && passwords[username] == HashPassword([])
    ensures forall p :: !CheckUserPassword(passwords, username, p)
  {
    assert HashPassword([]) == [];
  }
}
