/** `UserService`: user rows of the service database, read by id, by
    username and page by page; created after a duplicate check; updated field
    by field; deleted outright; and authenticated in three ordered checks.
    Passwords are stored with `hash_password` of the auth module. */
module UserService {
  import opened Common
  import opened Seqs
  import opened Encoding
  import opened AppDb
  import Auth

  /** The roles of the request schema. */
  datatype Role = Admin | Inspector | Engineer | Supervisor | Manager | Operator | Viewer

  function RoleValue(r: Role): string {
    match r
    case Admin => "Admin"
    case Inspector => "Inspector"
    case Engineer => "Engineer"
    case Supervisor => "Supervisor"
    case Manager => "Manager"
    case Operator => "Operator"
    case Viewer => "Viewer"
  }

  /** The columns the getters return: everything but the password hash. */
  datatype UserView = UserView(
    id: int, username: string, email: Option<string>, fullName: Option<string>,
    role: string, isActive: bool, createdAt: int)

  function View(u: UserRecord): UserView {
    UserView(u.id, u.username, u.email, u.fullName, u.role, u.isActive, u.createdAt)
  }

  /** `get_user_by_id`: the row with the id, without its hash. */
  function GetUserById(users: seq<UserRecord>, id: int): (r: Option<UserView>)
    ensures r.None? <==> forall u :: u in users ==> u.id != id
    ensures r.Some? ==> exists u :: u in users && u.id == id && r.value == View(u)
  {
    match UserById(users, id)
    case None => None
    case Some(u) => Some(View(u))
  }

  /** `get_user_by_username`: the first row with the name, hash included. */
  function GetUserByUsername(users: seq<UserRecord>, username: string): (r: Option<UserRecord>)
    ensures r.None? <==> forall u :: u in users ==> u.username != username
    ensures r.Some? ==> r.value in users && r.value.username == username
  {
    Find(users, (u: UserRecord) => u.username == username)
  }

  /** `ORDER BY created_at DESC`. */
  function NewestFirst(): (UserRecord, UserRecord) -> bool {
    (a: UserRecord, b: UserRecord) => a.createdAt >= b.createdAt
  }

  /** Every user row, newest first. */
  function UsersNewestFirst(users: seq<UserRecord>): (r: seq<UserRecord>)
    ensures multiset(r) == multiset(users)
    ensures forall i, j :: 0 <= i < j < |r| ==> r[i].createdAt >= r[j].createdAt
  {
    assert TotalPreorder(NewestFirst());
    var r := Sort(users, NewestFirst());
    assert SortedBy(r, NewestFirst());
    r
  }

  /** `get_all_users(skip, limit)`: newest first, `skip` rows skipped, at most
      `limit` rows. */
  function GetAllUsers(users: seq<UserRecord>, skip: int, limit: int): (r: seq<UserView>)
    ensures limit >= 0 ==> |r| <= limit
    ensures |r| <= |users|
    ensures IsPage(r, UsersNewestFirst(users), View, skip, limit)
    ensures forall i, j :: 0 <= i < j < |r| ==> r[i].createdAt >= r[j].createdAt
    ensures forall v :: v in r ==> exists u :: u in users && v == View(u)
  {
    var ordered := UsersNewestFirst(users);
    assert |ordered| == |users| by { assert |multiset(ordered)| == |multiset(users)|; }
    var page := Window(ordered, skip, limit);
    MapWindowIsPage(ordered, View, skip, limit);
    WindowMembers(ordered, skip, limit);
    MapMembers(page, View);
    forall v | v in page ensures v in users {
      assert v in multiset(ordered);
    }
    Map(page, View)
  }

  /** Pages asked for one after the other, from offset 0, join into the
      longer page: no row is served twice and none is passed over. */
  lemma AllUsersPagesTile(users: seq<UserRecord>, start: nat, size: nat)
    ensures GetAllUsers(users, 0, start) + GetAllUsers(users, start, size) == GetAllUsers(users, 0, start + size)
  {
    MapWindowsTile(UsersNewestFirst(users), View, start, size);
  }

  /** One page large enough is every user row, newest first, each as often
      as it occurs in the table. */
  lemma AllUsersComplete(users: seq<UserRecord>, limit: int)
    requires limit < 0 || limit >= |users|
    ensures GetAllUsers(users, 0, limit) == Map(UsersNewestFirst(users), View)
    ensures forall u :: u in users ==> View(u) in GetAllUsers(users, 0, limit)
  {
    var ordered := UsersNewestFirst(users);
    assert |ordered| == |users| by { assert |multiset(ordered)| == |multiset(users)|; }
    WholePage(GetAllUsers(users, 0, limit), ordered, View, limit);
    MapHasImages(ordered, View);
    assert forall u :: u in users ==> u in multiset(ordered);
  }

  /** The fields of a `UserCreate` request. */
  datatype UserCreate = UserCreate(
    username: string, password: string, email: Option<string>, fullName: Option<string>,
    role: Role, isActive: bool)

  function DuplicateMessage(username: string): string {
    "Username '" + username + "' already exists"
  }

  /** `create_user`: a taken username raises before anything is written;
      otherwise one row is inserted under the next row id with the hashed
      password, and that row is read back. */
  method CreateUser(db: Connection, data: UserCreate, salt: seq<byte>, sha: seq<byte> -> seq<byte>, now: int)
    returns (r: Result<UserView>)
    requires db.Valid() && |salt| == 16
    modifies db
    ensures db.Valid()
    ensures db.records == old(db.records) && db.logs == old(db.logs)
    ensures (exists u :: u in old(db.users) && u.username == data.username)
            <==> r == Err(DuplicateMessage(data.username))
    ensures r.Err? ==> db.users == old(db.users)
    ensures r.Ok? ==> |db.users| == |old(db.users)| + 1 && db.users[..|old(db.users)|] == old(db.users)
    ensures r.Ok? ==> var row := db.users[|old(db.users)|];
                      row == UserRecord(row.id, data.username, Auth.HashPassword(data.password, salt, sha),
                                        data.email, data.fullName, RoleValue(data.role), data.isActive, now)
                      && Some(r.value) == GetUserById(db.users, row.id)
  {
    var existing := GetUserByUsername(db.users, data.username);
    if existing.Some? {
      return Err(DuplicateMessage(data.username));
    }
    var passwordHash := Auth.HashPassword(data.password, salt, sha);
    var id := NextRowId(Map(db.users, (u: UserRecord) => u.id));
    var row := UserRecord(id, data.username, passwordHash, data.email, data.fullName,
                          RoleValue(data.role), data.isActive, now);
    AppendUniqueBy(db.users, row, UserKey);
    db.users := db.users + [row];
    UserByIdAt(db.users, |db.users| - 1);
    r := Ok(View(row));
  }

  /** The fields of a `UserUpdate` request; `None` leaves a column alone. */
  datatype UserUpdate = UserUpdate(
    email: Option<string>, fullName: Option<string>, role: Option<Role>,
    isActive: Option<bool>, password: Option<string>)

  predicate NoneSupplied(data: UserUpdate) {
    data.email.None? && data.fullName.None? && data.role.None? && data.isActive.None? && data.password.None?
  }

  /** One `SET` item of the `UPDATE users` statement. */
  datatype UserField =
    | SetEmail(email: string) | SetFullName(fullName: string) | SetRole(role: string)
    | SetActive(active: bool) | SetPasswordHash(hash: string)

  function ApplyField(u: UserRecord, f: UserField): UserRecord {
    match f
    case SetEmail(e) => u.(email := Some(e))
    case SetFullName(n) => u.(fullName := Some(n))
    case SetRole(r) => u.(role := r)
    case SetActive(a) => u.(isActive := a)
    case SetPasswordHash(h) => u.(passwordHash := h)
  }

  /** The row after all `SET` items, applied left to right. */
  function ApplyFields(u: UserRecord, fs: seq<UserField>): (v: UserRecord)
    ensures v.id == u.id && v.username == u.username && v.createdAt == u.createdAt
    decreases |fs|
  {
    if fs == [] then u else ApplyFields(ApplyField(u, fs[0]), fs[1..])
  }

  function WithEmail(u: UserRecord, email: Option<string>): UserRecord {
    if email.Some? then u.(email := email) else u
  }

  function WithFullName(u: UserRecord, fullName: Option<string>): UserRecord {
    if fullName.Some? then u.(fullName := fullName) else u
  }

  function WithRole(u: UserRecord, role: Option<Role>): UserRecord {
    if role.Some? then u.(role := RoleValue(role.value)) else u
  }

  function WithActive(u: UserRecord, active: Option<bool>): UserRecord {
    if active.Some? then u.(isActive := active.value) else u
  }

  function WithPassword(u: UserRecord, password: Option<string>, salt: seq<byte>, sha: seq<byte> -> seq<byte>): UserRecord
    requires |salt| == 16
  {
    if password.Some? then u.(passwordHash := Auth.HashPassword(password.value, salt, sha)) else u
  }

  /** The row `update_user` writes: every supplied field replaces the stored
      one, a supplied password is stored as its hash, nothing else changes. */
  function Patched(u: UserRecord, data: UserUpdate, salt: seq<byte>, sha: seq<byte> -> seq<byte>): UserRecord
    requires |salt| == 16
  {
    WithPassword(WithActive(WithRole(WithFullName(WithEmail(u, data.email), data.fullName), data.role),
                            data.isActive), data.password, salt, sha)
  }

  /** What `update_user` writes, column by column. */
  lemma PatchedColumns(u: UserRecord, data: UserUpdate, salt: seq<byte>, sha: seq<byte> -> seq<byte>)
    requires |salt| == 16
    ensures var v := Patched(u, data, salt, sha);
            && v.id == u.id && v.username == u.username && v.createdAt == u.createdAt
            && v.email == (if data.email.Some? then data.email else u.email)
            && v.fullName == (if data.fullName.Some? then data.fullName else u.fullName)
            && v.role == (if data.role.Some? then RoleValue(data.role.value) else u.role)
            && v.isActive == (if data.isActive.Some? then data.isActive.value else u.isActive)
            && v.passwordHash == (if data.password.Some? then Auth.HashPassword(data.password.value, salt, sha) else u.passwordHash)
  {
  }

  lemma ApplyOne(u: UserRecord, f: UserField)
    ensures ApplyFields(u, [f]) == ApplyField(u, f)
  {
    assert [f][1..] == [];
  }

  lemma {:induction false} ApplyFieldsSplit(u: UserRecord, a: seq<UserField>, b: seq<UserField>)
    ensures ApplyFields(u, a + b) == ApplyFields(ApplyFields(u, a), b)
    decreases |a|
  {
    if a == [] {
      assert a + b == b;
    } else {
      assert (a + b)[0] == a[0];
      assert (a + b)[1..] == a[1..] + b;
      ApplyFieldsSplit(ApplyField(u, a[0]), a[1..], b);
    }
  }

  /** Appending one item applies it after the others. */
  lemma ApplyAppend(u: UserRecord, fs: seq<UserField>, f: UserField)
    ensures ApplyFields(u, fs + [f]) == ApplyField(ApplyFields(u, fs), f)
  {
    ApplyFieldsSplit(u, fs, [f]);
    ApplyOne(ApplyFields(u, fs), f);
  }

  /** `update_fields.append(...)` for each supplied field, in order; applied
      to any row `u`, the items write exactly the patch. */
  method BuildFields(data: UserUpdate, salt: seq<byte>, sha: seq<byte> -> seq<byte>, ghost u: UserRecord)
    returns (fields: seq<UserField>)
    requires |salt| == 16
    ensures fields == [] <==> NoneSupplied(data)
    ensures ApplyFields(u, fields) == Patched(u, data, salt, sha)
  {
    fields := [];
    ghost var cur := u;
    if data.email.Some? {
      ApplyAppend(u, fields, SetEmail(data.email.value));
      fields := fields + [SetEmail(data.email.value)];
    }
    cur := WithEmail(cur, data.email);
    assert ApplyFields(u, fields) == cur && (fields == [] <==> data.email.None?);
    if data.fullName.Some? {
      ApplyAppend(u, fields, SetFullName(data.fullName.value));
      fields := fields + [SetFullName(data.fullName.value)];
    }
    cur := WithFullName(cur, data.fullName);
    assert ApplyFields(u, fields) == cur && (fields == [] <==> data.email.None? && data.fullName.None?);
    if data.role.Some? {
      ApplyAppend(u, fields, SetRole(RoleValue(data.role.value)));
      fields := fields + [SetRole(RoleValue(data.role.value))];
    }
    cur := WithRole(cur, data.role);
    assert ApplyFields(u, fields) == cur
      && (fields == [] <==> data.email.None? && data.fullName.None? && data.role.None?);
    if data.isActive.Some? {
      ApplyAppend(u, fields, SetActive(data.isActive.value));
      fields := fields + [SetActive(data.isActive.value)];
    }
    cur := WithActive(cur, data.isActive);
    assert ApplyFields(u, fields) == cur
      && (fields == [] <==> data.email.None? && data.fullName.None? && data.role.None? && data.isActive.None?);
    ghost var before := fields;
    if data.password.Some? {
      var passwordHash := Auth.HashPassword(data.password.value, salt, sha);
      fields := fields + [SetPasswordHash(passwordHash)];
    }
    PasswordStep(u, before, cur, data.password, salt, sha);
  }

  /** The items of a supplied password: its hash. */
  function PasswordItems(password: Option<string>, salt: seq<byte>, sha: seq<byte> -> seq<byte>): seq<UserField>
    requires |salt| == 16
  {
    if password.Some? then [SetPasswordHash(Auth.HashPassword(password.value, salt, sha))] else []
  }

  /** Appending the password's item stores its hash, and only when it is supplied. */
  lemma PasswordStep(u: UserRecord, fields: seq<UserField>, cur: UserRecord, password: Option<string>,
                     salt: seq<byte>, sha: seq<byte> -> seq<byte>)
    requires |salt| == 16 && ApplyFields(u, fields) == cur
    ensures ApplyFields(u, fields + PasswordItems(password, salt, sha)) == WithPassword(cur, password, salt, sha)
    ensures fields + PasswordItems(password, salt, sha) == [] <==> fields == [] && password.None?
  {
    if password.Some? {
      ApplyAppend(u, fields, SetPasswordHash(Auth.HashPassword(password.value, salt, sha)));
    } else {
      assert fields + [] == fields;
    }
  }

  /** `update_user`: `None` for an unknown id; with no supplied field the
      stored user is returned and nothing is written; otherwise the row gets
      the patch and is read back. */
  method UpdateUser(db: Connection, id: int, data: UserUpdate, salt: seq<byte>, sha: seq<byte> -> seq<byte>)
    returns (r: Option<UserView>)
    requires db.Valid() && |salt| == 16
    modifies db
    ensures db.Valid()
    ensures db.records == old(db.records) && db.logs == old(db.logs)
    ensures (forall u :: u in old(db.users) ==> u.id != id) ==> r.None? && db.users == old(db.users)
    ensures NoneSupplied(data) ==>
              db.users == old(db.users) && r == GetUserById(old(db.users), id)
    ensures r.Some? <==> exists u :: u in old(db.users) && u.id == id
    ensures |db.users| == |old(db.users)|
    ensures forall i :: 0 <= i < |db.users| ==> db.users[i] == PatchRow(old(db.users)[i], id, data, salt, sha)
    ensures r.Some? ==> r == GetUserById(db.users, id)
  {
    var user := GetUserById(db.users, id);
    if user.None? {
      PatchMissing(db.users, id, data, salt, sha);
      return None;
    }
    var k := FindIndex(db.users, (u: UserRecord) => u.id == id);
    var fields := BuildFields(data, salt, sha, db.users[k]);
    if fields == [] {
      PatchNone(db.users, id, data, salt, sha);
      return user;
    }
    var v := ApplyFields(db.users[k], fields);
    PatchAt(db.users, k, id, data, salt, sha);
    UpdateUniqueBy(db.users, k, v, UserKey);
    db.users := db.users[k := v];
    UserByIdAt(db.users, k);
    r := GetUserById(db.users, id);
  }

  /** The row `update_user` leaves in place of `u` when the update targets `id`. */
  function PatchRow(u: UserRecord, id: int, data: UserUpdate, salt: seq<byte>, sha: seq<byte> -> seq<byte>): UserRecord
    requires |salt| == 16
  {
    if u.id == id then Patched(u, data, salt, sha) else u
  }

  /** An update of an id no row has leaves every row as it is. */
  lemma PatchMissing(users: seq<UserRecord>, id: int, data: UserUpdate, salt: seq<byte>, sha: seq<byte> -> seq<byte>)
    requires |salt| == 16 && forall u :: u in users ==> u.id != id
    ensures forall i :: 0 <= i < |users| ==> users[i] == PatchRow(users[i], id, data, salt, sha)
  {
    forall i | 0 <= i < |users| ensures users[i] == PatchRow(users[i], id, data, salt, sha) {
      assert users[i] in users;
    }
  }

  /** An update that supplies no field leaves every row as it is. */
  lemma PatchNone(users: seq<UserRecord>, id: int, data: UserUpdate, salt: seq<byte>, sha: seq<byte> -> seq<byte>)
    requires |salt| == 16 && NoneSupplied(data)
    ensures forall i :: 0 <= i < |users| ==> users[i] == PatchRow(users[i], id, data, salt, sha)
  {
    forall i | 0 <= i < |users| ensures users[i] == PatchRow(users[i], id, data, salt, sha) {
      PatchNothing(users[i], data, salt, sha);
    }
  }

  /** An update that supplies no field leaves any row as it is. */
  lemma PatchNothing(u: UserRecord, data: UserUpdate, salt: seq<byte>, sha: seq<byte> -> seq<byte>)
    requires |salt| == 16 && NoneSupplied(data)
    ensures Patched(u, data, salt, sha) == u
  {
  }

  /** Under unique ids, patching the row found by id patches every row with that id. */
  lemma PatchAt(users: seq<UserRecord>, k: int, id: int, data: UserUpdate, salt: seq<byte>, sha: seq<byte> -> seq<byte>)
    requires UniqueBy(users, UserKey) && 0 <= k < |users| && users[k].id == id && |salt| == 16
    ensures forall i :: 0 <= i < |users| ==>
              users[k := Patched(users[k], data, salt, sha)][i] == PatchRow(users[i], id, data, salt, sha)
  {
    forall i | 0 <= i < |users| && i != k
      ensures users[i].id != id
    {
      assert UserKey(users[i]) != UserKey(users[k]);
    }
  }

  /** `delete_user`: a hard delete; the answer is whether a row was removed. */
  method DeleteUser(db: Connection, id: int) returns (deleted: bool)
    requires db.Valid()
    modifies db
    ensures db.Valid()
    ensures db.records == old(db.records) && db.logs == old(db.logs)
    ensures db.users == Filter(old(db.users), (u: UserRecord) => u.id != id)
    ensures deleted <==> exists u :: u in old(db.users) && u.id == id
    ensures forall u :: u in db.users ==> u.id != id
  {
    var before := db.users;
    db.users := Filter(db.users, (u: UserRecord) => u.id != id);
    deleted := |db.users| < |before|;
    FilterUniqueBy(before, (u: UserRecord) => u.id != id, UserKey);
    FilterKeepsAll(before, (u: UserRecord) => u.id != id);
    if !deleted {
      FilterAll(before, (u: UserRecord) => u.id != id);
    }
  }

  /** `authenticate_user`: an unknown name, then an inactive user, then a
      wrong password each give `None`; success gives the user without its hash. */
  function AuthenticateUser(users: seq<UserRecord>, username: string, password: string, sha: seq<byte> -> seq<byte>)
    : (r: Option<UserView>)
    ensures GetUserByUsername(users, username).None? ==> r.None?
    ensures GetUserByUsername(users, username).Some? && !GetUserByUsername(users, username).value.isActive ==> r.None?
    ensures r.Some? <==> GetUserByUsername(users, username).Some? && GetUserByUsername(users, username).value.isActive
                         && Auth.VerifyPassword(password, GetUserByUsername(users, username).value.passwordHash, sha)
    ensures r.Some? ==> r.value == View(GetUserByUsername(users, username).value)
  {
    match GetUserByUsername(users, username)
    case None => None
    case Some(u) =>
      if !u.isActive then None
      else if !Auth.VerifyPassword(password, u.passwordHash, sha) then None
      else Some(View(u))
  }

  /** A user created active logs in with the password it was created with. */
  lemma AuthenticateAfterCreate(users: seq<UserRecord>, row: UserRecord, password: string,
                                salt: seq<byte>, sha: seq<byte> -> seq<byte>)
    requires |salt| == 16
    requires GetUserByUsername(users, row.username).None?
    requires row.isActive && row.passwordHash == Auth.HashPassword(password, salt, sha)
    ensures AuthenticateUser(users + [row], row.username, password, sha) == Some(View(row))
  {
    var p := (u: UserRecord) => u.username == row.username;
    var found := Find(users + [row], p);
    assert p((users + [row])[|users|]);
    assert found.Some?;
    assert found.value == row;
    Auth.VerifyHashed(password, salt, sha);
  }
}
