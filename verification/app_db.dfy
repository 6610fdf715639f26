/** The database behind the service layer (`UserService`, `DMTService`,
    `AuditService`): a users table with integer row ids, e-mail and full name;
    DMT records with integer ids and report numbers; and the `audit_logs`
    table. The three services share one connection. */
module AppDb {
  import opened Common
  import opened Seqs

  datatype UserRecord = UserRecord(
    id: int, username: string, passwordHash: string, email: Option<string>,
    fullName: Option<string>, role: string, isActive: bool, createdAt: int)

  /** A DMT record: its row id and creation instant, and its columns by name
      (`report_number`, `created_by_user_id`, `assigned_to_user_id` and the
      report fields). */
  datatype DmtRecord = DmtRecord(id: int, createdAt: int, cols: map<string, Value>)

  datatype AuditLog = AuditLog(
    id: int, userId: Option<int>, action: string, entityType: string,
    entityId: Option<int>, details: Option<string>, timestamp: int)

  /** The user with the given id, as `LEFT JOIN users` finds it. */
  function UserById(users: seq<UserRecord>, id: int): (r: Option<UserRecord>)
    ensures r.Some? ==> r.value in users && r.value.id == id
    ensures r.None? <==> forall u :: u in users ==> u.id != id
  {
    if users == [] then None
    else if users[0].id == id then Some(users[0])
    else UserById(users[1..], id)
  }

  function UserKey(u: UserRecord): int {
    u.id
  }

  function RecordKey(r: DmtRecord): int {
    r.id
  }

  /** Under unique ids, the lookup of a row's id finds that row. */
  lemma {:induction false} UserByIdAt(users: seq<UserRecord>, k: int)
    requires UniqueBy(users, UserKey) && 0 <= k < |users|
    ensures UserById(users, users[k].id) == Some(users[k])
    decreases |users|
  {
    if k > 0 {
      var tail := users[1..];
      assert UniqueBy(tail, UserKey) by {
        forall i, j | 0 <= i < j < |tail| ensures UserKey(tail[i]) != UserKey(tail[j]) {
          assert tail[i] == users[i + 1] && tail[j] == users[j + 1];
        }
      }
      assert UserKey(users[0]) != UserKey(users[k]);
      UserByIdAt(tail, k - 1);
    }
  }

  /** The DMT record with the given id (`WHERE d.id = ?`). */
  function RecordById(records: seq<DmtRecord>, id: int): (r: Option<DmtRecord>)
    ensures r.Some? ==> r.value in records && r.value.id == id
    ensures r.None? <==> forall x :: x in records ==> x.id != id
  {
    if records == [] then None
    else if records[0].id == id then Some(records[0])
    else RecordById(records[1..], id)
  }

  /** Under unique ids, the lookup of a record's id finds that record. */
  lemma {:induction false} RecordByIdAt(records: seq<DmtRecord>, k: int)
    requires UniqueBy(records, RecordKey) && 0 <= k < |records|
    ensures RecordById(records, records[k].id) == Some(records[k])
    decreases |records|
  {
    if k > 0 {
      var tail := records[1..];
      assert UniqueBy(tail, RecordKey) by {
        forall i, j | 0 <= i < j < |tail| ensures RecordKey(tail[i]) != RecordKey(tail[j]) {
          assert tail[i] == records[i + 1] && tail[j] == records[j + 1];
        }
      }
      assert RecordKey(records[0]) != RecordKey(records[k]);
      RecordByIdAt(tail, k - 1);
    }
  }

  /** The username a `LEFT JOIN users u ON x = u.id` yields for the column
      value `x`: `NULL` for a `NULL` key or one no user has. */
  function JoinedUsername(users: seq<UserRecord>, key: Value): (r: Option<string>)
    ensures key.Int? && UserById(users, key.i).Some? ==> r == Some(UserById(users, key.i).value.username)
    ensures !key.Int? ==> r.None?
  {
    if !key.Int? then None
    else match UserById(users, key.i)
      case None => None
      case Some(u) => Some(u.username)
  }

  class Connection {
    var users: seq<UserRecord>
    var records: seq<DmtRecord>
    var logs: seq<AuditLog>

    /** Row ids are the primary keys of their tables. */
    ghost predicate Valid()
      reads this
    {
      UniqueBy(users, UserKey) && UniqueBy(records, RecordKey)
    }

    constructor ()
      ensures Valid() && users == [] && records == [] && logs == []
    {
      users := [];
      records := [];
      logs := [];
    }
  }
}
