/** User accounts of the server: roles and their hierarchy, salted SHA-256
    password hashes in `salt$digest` form, and the users table with create,
    authenticate, update, soft delete and re-activation. SHA-256 is the
    parameter `sha`; the random salt and the new user's UUID are parameters;
    `CURRENT_TIMESTAMP` is the clock `now`. */
module Auth {
  import opened Common
  import opened Seqs
  import opened Strings
  import opened Encoding

  datatype UserRole = Admin | Supervisor | Inspector | Engineer | Manager | Operator

  /** The text stored for a role (`role.value`). */
  function RoleValue(r: UserRole): (s: string)
    ensures s != []
  {
    match r
    case Admin => "Admin"
    case Supervisor => "Supervisor"
    case Inspector => "Inspector"
    case Engineer => "Engineer"
    case Manager => "Manager"
    case Operator => "Operator"
  }

  /** `ROLE_HIERARCHY.get(role, 0)`. */
  function Level(role: string): (n: nat)
    ensures n <= 5
  {
    if role == "Admin" || role == "Inspector" then 5
    else if role == "Manager" then 4
    else if role == "Engineer" then 3
    else if role == "Supervisor" then 2
    else if role == "Operator" then 1
    else 0
  }

  /** Every role of the enumeration has a positive level; any other text has level 0. */
  lemma LevelsOfRoles(r: UserRole, other: string)
    requires forall q: UserRole :: other != RoleValue(q)
    ensures Level(RoleValue(r)) >= 1 && Level(other) == 0
    ensures Level(RoleValue(r)) == 5 <==> r == Admin || r == Inspector
  {
    assert other != RoleValue(Admin) && other != RoleValue(Inspector) && other != RoleValue(Manager);
    assert other != RoleValue(Engineer) && other != RoleValue(Supervisor) && other != RoleValue(Operator);
  }

  datatype UserRow = UserRow(
    id: string, username: string, passwordHash: string, role: string, isActive: bool, updatedAt: int)

  /** The columns handed back by create and authenticate: no password hash. */
  datatype UserInfo = UserInfo(id: string, username: string, role: string)

  /** The columns of `get_assignable_users` rows. */
  datatype PublicUser = PublicUser(id: string, username: string, role: string, isActive: bool)

  function Public(u: UserRow): PublicUser {
    PublicUser(u.id, u.username, u.role, u.isActive)
  }

  /** `ORDER BY username` under the binary collation. */
  function ByUsername(): (UserRow, UserRow) -> bool {
    (a: UserRow, b: UserRow) => LexLe(a.username, b.username)
  }

  lemma ByUsernameIsTotal()
    ensures TotalPreorder(ByUsername())
  {
    forall a: UserRow, b: UserRow ensures LexLe(a.username, b.username) || LexLe(b.username, a.username) {
      LexLeTotal(a.username, b.username);
    }
    forall a: UserRow, b: UserRow, c: UserRow | LexLe(a.username, b.username) && LexLe(b.username, c.username)
      ensures LexLe(a.username, c.username)
    {
      LexLeTransitive(a.username, b.username, c.username);
    }
  }

  function IsActive(): UserRow -> bool {
    (u: UserRow) => u.isActive
  }

  function RanksAtLeast(callerRole: string): UserRow -> bool {
    (u: UserRow) => Level(u.role) >= Level(callerRole)
  }

  /** The rows `get_assignable_users` selects: active, of a level at least
      the caller's, ordered by username, each stored row exactly once. */
  function AssignableRows(users: seq<UserRow>, callerRole: string): (r: seq<UserRow>)
    ensures forall u :: u in r <==> u in users && u.isActive && Level(u.role) >= Level(callerRole)
    ensures forall u :: multiset(r)[u] == if u.isActive && Level(u.role) >= Level(callerRole) then multiset(users)[u] else 0
    ensures forall i, j :: 0 <= i < j < |r| ==> LexLe(r[i].username, r[j].username)
  {
    ByUsernameIsTotal();
    var active := Filter(users, IsActive());
    var ordered := Sort(active, ByUsername());
    SortMembers(active, ByUsername());
    var kept := Filter(ordered, RanksAtLeast(callerRole));
    FilterSorted(ordered, RanksAtLeast(callerRole), ByUsername());
    AssignableCounts(users, callerRole, ordered);
    kept
  }

  /** Filtering by level after a permutation of the active rows keeps each
      stored row as often as the WHERE clause does. */
  lemma AssignableCounts(users: seq<UserRow>, callerRole: string, ordered: seq<UserRow>)
    requires multiset(ordered) == multiset(Filter(users, IsActive()))
    ensures forall u :: multiset(Filter(ordered, RanksAtLeast(callerRole)))[u] ==
              if u.isActive && Level(u.role) >= Level(callerRole) then multiset(users)[u] else 0
  {
    forall u: UserRow
      ensures multiset(Filter(ordered, RanksAtLeast(callerRole)))[u] ==
                if u.isActive && Level(u.role) >= Level(callerRole) then multiset(users)[u] else 0
    {
      FilterCount(ordered, RanksAtLeast(callerRole), u);
      FilterCount(users, IsActive(), u);
    }
  }

  /** `get_assignable_users(role)`: the active users whose level is at least
      the caller's, by username, without password hashes; `[]` when the query fails. */
  function AssignableUsers(users: seq<UserRow>, callerRole: string, queryFails: bool): (r: seq<PublicUser>)
    ensures queryFails ==> r == []
    ensures !queryFails ==> r == Map(AssignableRows(users, callerRole), Public)
    ensures forall p :: p in r <==>
              !queryFails && exists u :: u in users && u.isActive && Level(u.role) >= Level(callerRole) && p == Public(u)
    ensures forall i, j :: 0 <= i < j < |r| ==> LexLe(r[i].username, r[j].username)
  {
    if queryFails then []
    else
      var kept := AssignableRows(users, callerRole);
      MapMembers(kept, Public);
      Map(kept, Public)
  }

  /** The levels of at least 5 are exactly those of Admin and Inspector. */
  lemma TopLevel(role: string)
    ensures Level(role) >= 5 <==> role == "Admin" || role == "Inspector"
  {
  }

  /** Everyone offered to a caller ranks at least as high as the caller; an
      Admin caller is offered exactly Admins and Inspectors. */
  lemma AssignableRankAtLeastCaller(users: seq<UserRow>, callerRole: string, p: PublicUser)
    requires p in AssignableUsers(users, callerRole, false)
    ensures Level(p.role) >= Level(callerRole)
    ensures callerRole == "Admin" ==> p.role == "Admin" || p.role == "Inspector"
  {
    var u :| u in users && u.isActive && Level(u.role) >= Level(callerRole) && p == Public(u);
    TopLevel(p.role);
  }

  // ---------------------------------------------------------------------------
  // Password hashes.

  /** `hash_password`: 16 random bytes as 32 hex characters, `$`, and the hex
      SHA-256 digest of the UTF-8 bytes of the password followed by that salt. */
  function HashPassword(password: string, salt: seq<byte>, sha: seq<byte> -> seq<byte>): (h: string)
    requires |salt| == 16
    ensures Split(h, '$') == [Hex(salt), Hex(sha(Utf8(password + Hex(salt))))]
    ensures |Split(h, '$')[0]| == 32
  {
    var saltHex := Hex(salt);
    var digest := Hex(sha(Utf8(password + saltHex)));
    SplitPair(saltHex, digest, '$');
    saltHex + "$" + digest
  }

  /** `verify_password`: false unless the stored text splits on `$` into
      exactly two parts; then whether the password salted with the first part
      hashes to the second. */
  function VerifyPassword(password: string, stored: string, sha: seq<byte> -> seq<byte>): (ok: bool)
    ensures ok ==> |Split(stored, '$')| == 2
    ensures ok ==> Hex(sha(Utf8(password + Split(stored, '$')[0]))) == Split(stored, '$')[1]
  {
    var parts := Split(stored, '$');
    if |parts| != 2 then false
    else Hex(sha(Utf8(password + parts[0]))) == parts[1]
  }

  /** A password verifies against its own hash, whatever the salt. */
  lemma VerifyHashed(password: string, salt: seq<byte>, sha: seq<byte> -> seq<byte>)
    requires |salt| == 16
    ensures VerifyPassword(password, HashPassword(password, salt, sha), sha)
  {
  }

  /** Another password verifies against a hash only through a SHA-256
      collision: two different byte strings with the same digest. */
  lemma WrongPasswordNeedsCollision(p: string, q: string, salt: seq<byte>, sha: seq<byte> -> seq<byte>)
    requires |salt| == 16
    requires q != p && VerifyPassword(q, HashPassword(p, salt, sha), sha)
    ensures var s := Hex(salt);
            Utf8(q + s) != Utf8(p + s) && sha(Utf8(q + s)) == sha(Utf8(p + s))
  {
    var s := Hex(salt);
    HexInjective(sha(Utf8(q + s)), sha(Utf8(p + s)));
    assert q + s != p + s by {
      assert (q + s)[..|q|] == q;
      assert (p + s)[..|p|] == p;
    }
    Utf8RoundTrip(q + s);
    Utf8RoundTrip(p + s);
  }

  /** Stored text without a `$` never verifies (the unpacking fails). */
  lemma NoSeparatorNeverVerifies(password: string, stored: string, sha: seq<byte> -> seq<byte>)
    requires '$' !in stored
    ensures !VerifyPassword(password, stored, sha)
  {
  }

  // ---------------------------------------------------------------------------
  // The users table.

  const ERR_REQUIRED := "Username and password are required"
  const ERR_SHORT := "Password must be at least 6 characters long"
  const ERR_TAKEN := "Username already exists"

  /** `not s` for an optional text: absent or empty. */
  predicate Blank(s: Option<string>) {
    s.None? || s.value == []
  }

  /** The row `update_user` writes: each supplied field replaces the stored
      one, a supplied password is stored hashed, and the row is re-stamped. */
  function Patched(u: UserRow, username: Option<string>, password: Option<string>, role: Option<UserRole>,
                   salt: seq<byte>, sha: seq<byte> -> seq<byte>, now: int): (v: UserRow)
    requires |salt| == 16
    ensures v.id == u.id && v.isActive == u.isActive && v.updatedAt == now
    ensures v.username == (if Blank(username) then u.username else username.value)
    ensures v.passwordHash == (if Blank(password) then u.passwordHash else HashPassword(password.value, salt, sha))
  {
    UserRow(u.id, if Blank(username) then u.username else username.value,
            if Blank(password) then u.passwordHash else HashPassword(password.value, salt, sha),
            if role.None? then u.role else RoleValue(role.value), u.isActive, now)
  }

  /** No row but those with `userId` holds `name`: the `UNIQUE` constraint
      on `username` lets an update of that row to `name` through. */
  predicate NameFreeFor(rows: seq<UserRow>, userId: string, name: string) {
    forall u :: u in rows && u.id != userId ==> u.username != name
  }

  /** One `SET` item of the `UPDATE users` statement. */
  datatype Assignment = SetUsername(username: string) | SetPasswordHash(hash: string) | SetRole(role: string) | StampUpdatedAt

  function Assign(u: UserRow, a: Assignment, now: int): UserRow {
    match a
    case SetUsername(n) => u.(username := n)
    case SetPasswordHash(h) => u.(passwordHash := h)
    case SetRole(r) => u.(role := r)
    case StampUpdatedAt => u.(updatedAt := now)
  }

  /** The row after all `SET` items, applied left to right. */
  function AssignAll(u: UserRow, updates: seq<Assignment>, now: int): (v: UserRow)
    ensures v.id == u.id && v.isActive == u.isActive
    decreases |updates|
  {
    if updates == [] then u else AssignAll(Assign(u, updates[0], now), updates[1..], now)
  }

  lemma AssignOne(u: UserRow, a: Assignment, now: int)
    ensures AssignAll(u, [a], now) == Assign(u, a, now)
  {
    assert [a][1..] == [];
  }

  /** The `SET` items for the supplied fields, in the order `update_user` adds them. */
  function SetList(username: Option<string>, password: Option<string>, role: Option<UserRole>,
                   salt: seq<byte>, sha: seq<byte> -> seq<byte>): (r: seq<Assignment>)
    requires |salt| == 16
    ensures r == [] <==> Blank(username) && Blank(password) && role.None?
  {
    (if Blank(username) then [] else [SetUsername(username.value)])
    + (if Blank(password) then [] else [SetPasswordHash(HashPassword(password.value, salt, sha))])
    + (if role.None? then [] else [SetRole(RoleValue(role.value))])
  }

  /** `updates.append(...)` field by field. */
  method BuildUpdates(username: Option<string>, password: Option<string>, role: Option<UserRole>,
                      salt: seq<byte>, sha: seq<byte> -> seq<byte>)
    returns (updates: seq<Assignment>)
    requires |salt| == 16
    ensures updates == SetList(username, password, role, salt, sha)
  {
    updates := [];
    if !Blank(username) {
      updates := updates + [SetUsername(username.value)];
    }
    if !Blank(password) {
      updates := updates + [SetPasswordHash(HashPassword(password.value, salt, sha))];
    }
    if role.Some? {
      updates := updates + [SetRole(RoleValue(role.value))];
    }
  }

  lemma {:induction false} AssignAllSplit(u: UserRow, a: seq<Assignment>, b: seq<Assignment>, now: int)
    ensures AssignAll(u, a + b, now) == AssignAll(AssignAll(u, a, now), b, now)
    decreases |a|
  {
    if a == [] {
      assert a + b == b;
    } else {
      assert (a + b)[0] == a[0];
      assert (a + b)[1..] == a[1..] + b;
      AssignAllSplit(Assign(u, a[0], now), a[1..], b, now);
    }
  }

  /** The `SET` list with the time stamp writes exactly the declared patch. */
  lemma SetListPatches(u: UserRow, username: Option<string>, password: Option<string>, role: Option<UserRole>,
                       salt: seq<byte>, sha: seq<byte> -> seq<byte>, now: int)
    requires |salt| == 16
    ensures AssignAll(u, SetList(username, password, role, salt, sha) + [StampUpdatedAt], now)
            == Patched(u, username, password, role, salt, sha, now)
  {
    var a := if Blank(username) then [] else [SetUsername(username.value)];
    var b := if Blank(password) then [] else [SetPasswordHash(HashPassword(password.value, salt, sha))];
    var c := if role.None? then [] else [SetRole(RoleValue(role.value))];
    var ua := AssignAll(u, a, now);
    var ub := AssignAll(ua, b, now);
    var uc := AssignAll(ub, c, now);
    if !Blank(username) { AssignOne(u, a[0], now); }
    if !Blank(password) { AssignOne(ua, b[0], now); }
    if role.Some? { AssignOne(ub, c[0], now); }
    AssignOne(uc, StampUpdatedAt, now);
    AssignAllSplit(u, a, b, now);
    AssignAllSplit(u, a + b, c, now);
    AssignAllSplit(u, a + b + c, [StampUpdatedAt], now);
  }

  class UserTable {
    var rows: seq<UserRow>

    /** The primary key and the `UNIQUE` username. */
    ghost predicate Valid()
      reads this
    {
      forall i, j :: 0 <= i < j < |rows| ==> rows[i].id != rows[j].id && rows[i].username != rows[j].username
    }

    constructor ()
      ensures Valid() && rows == []
    {
      rows := [];
    }

    /** `create_user`: validates, then inserts one active row under the UUID
        with the hashed password; a taken username or id is an integrity error. */
    method CreateUser(username: string, password: string, role: UserRole, uuid: string,
                      salt: seq<byte>, sha: seq<byte> -> seq<byte>, now: int)
      returns (r: Result<UserInfo>)
      requires Valid() && |salt| == 16
      modifies this
      ensures Valid()
      ensures username == [] || password == [] ==> r == Err(ERR_REQUIRED)
      ensures username != [] && password != [] && |password| < 6 ==> r == Err(ERR_SHORT)
      ensures username != [] && |password| >= 6 && (exists u :: u in old(rows) && (u.username == username || u.id == uuid))
              ==> r == Err(ERR_TAKEN)
      ensures r.Err? ==> rows == old(rows)
      ensures r.Ok? ==> r.value == UserInfo(uuid, username, RoleValue(role))
                        && rows == old(rows) + [UserRow(uuid, username, HashPassword(password, salt, sha), RoleValue(role), true, now)]
      ensures username != [] && |password| >= 6 && (forall u :: u in old(rows) ==> u.username != username && u.id != uuid)
              ==> r.Ok?
    {
      if username == [] || password == [] {
        return Err(ERR_REQUIRED);
      }
      if |password| < 6 {
        return Err(ERR_SHORT);
      }
      var hash := HashPassword(password, salt, sha);
      if exists u :: u in rows && (u.username == username || u.id == uuid) {
        return Err(ERR_TAKEN);
      }
      rows := rows + [UserRow(uuid, username, hash, RoleValue(role), true, now)];
      r := Ok(UserInfo(uuid, username, RoleValue(role)));
    }

    /** `authenticate_user`: the active row with the name, if its hash accepts
        the password; nothing for blank credentials or a failed query. */
    function Authenticate(username: string, password: string, sha: seq<byte> -> seq<byte>, queryFails: bool)
      : (r: Option<UserInfo>)
      reads this
      ensures username == [] || password == [] || queryFails ==> r.None?
      ensures r.Some? ==> exists u :: u in rows && u.username == username && u.isActive && VerifyPassword(password, u.passwordHash, sha) && r.value == UserInfo(u.id, u.username, u.role)
      ensures (forall u :: u in rows && u.username == username ==> !u.isActive) ==> r.None?
      ensures Valid() && username != [] && password != [] && !queryFails ==>
                forall u :: u in rows && u.username == username && u.isActive && VerifyPassword(password, u.passwordHash, sha)
                  ==> r == Some(UserInfo(u.id, u.username, u.role))
    {
      if username == [] || password == [] || queryFails then None
      else match Find(rows, (u: UserRow) => u.username == username && u.isActive)
        case None => None
        case Some(u) => if VerifyPassword(password, u.passwordHash, sha) then Some(UserInfo(u.id, u.username, u.role)) else None
    }

    /** `update_user`: blank id and no fields are `False`; a short password
        raises; otherwise the `SET` list is built field by field, the row is
        re-stamped, and the answer is whether a row matched. A username taken
        by another row is an integrity error: `False`, nothing written. */
    method UpdateUser(userId: string, username: Option<string>, password: Option<string>, role: Option<UserRole>,
                      salt: seq<byte>, sha: seq<byte> -> seq<byte>, now: int)
      returns (r: Result<bool>)
      requires Valid() && |salt| == 16
      modifies this
      ensures Valid()
      ensures userId == [] ==> r == Ok(false) && rows == old(rows)
      ensures userId != [] && !Blank(password) && |password.value| < 6 ==> r == Err(ERR_SHORT) && rows == old(rows)
      ensures userId != [] && Blank(username) && Blank(password) && role.None? ==> r == Ok(false) && rows == old(rows)
      ensures r.Err? ==> rows == old(rows)
      ensures r == Ok(true) ==> exists u :: u in old(rows) && u.id == userId
      ensures r == Ok(true) ==> |rows| == |old(rows)|
      ensures r == Ok(true) ==> forall i :: 0 <= i < |rows| ==>
                rows[i] == if old(rows)[i].id == userId then Patched(old(rows)[i], username, password, role, salt, sha, now) else old(rows)[i]
      ensures r == Ok(false) ==> rows == old(rows)
      ensures r == Ok(true) <==>
                && userId != []
                && !(Blank(username) && Blank(password) && role.None?)
                && (Blank(password) || |password.value| >= 6)
                && exists u :: u in old(rows) && u.id == userId
                                && NameFreeFor(old(rows), userId, Patched(u, username, password, role, salt, sha, now).username)
    {
      if userId == [] {
        return Ok(false);
      }
      if !Blank(password) && |password.value| < 6 {
        return Err(ERR_SHORT);
      }
      var updates := BuildUpdates(username, password, role, salt, sha);
      if updates == [] {
        return Ok(false);
      }
      updates := updates + [StampUpdatedAt];
      ghost var before := rows;
      var found := ApplyUpdates(userId, updates, now);
      forall i | 0 <= i < |before|
        ensures AssignAll(before[i], updates, now) == Patched(before[i], username, password, role, salt, sha, now)
      {
        SetListPatches(before[i], username, password, role, salt, sha, now);
      }
      assert forall u :: u in before ==> AssignAll(u, updates, now) == Patched(u, username, password, role, salt, sha, now);
      r := Ok(found);
    }

    /** Runs `UPDATE users SET ... WHERE id = ?`: the row with the id gets the
        items; an id nobody has, or a username taken by another row (an
        integrity error), writes nothing. */
    method ApplyUpdates(userId: string, updates: seq<Assignment>, now: int) returns (ok: bool)
      requires Valid()
      modifies this
      ensures Valid()
      ensures ok ==> exists u :: u in old(rows) && u.id == userId
      ensures ok ==> |rows| == |old(rows)|
      ensures ok ==> forall i :: 0 <= i < |rows| ==>
                rows[i] == if old(rows)[i].id == userId then AssignAll(old(rows)[i], updates, now) else old(rows)[i]
      ensures !ok ==> rows == old(rows)
      ensures ok <==> exists u :: u in old(rows) && u.id == userId
                                  && NameFreeFor(old(rows), userId, AssignAll(u, updates, now).username)
    {
      var k := FindIndex(rows, (u: UserRow) => u.id == userId);
      if k == -1 {
        return false;
      }
      var v := AssignAll(rows[k], updates, now);
      assert forall u :: u in rows && u.id == userId ==> u == rows[k];
      if exists j :: 0 <= j < |rows| && j != k && rows[j].username == v.username {
        var j :| 0 <= j < |rows| && j != k && rows[j].username == v.username;
        assert rows[j] in rows && rows[j].id != userId;
        return false;
      }
      UpdateAt(k, v);
      ok := true;
    }

    /** Writes row `k`, the only row with its id, keeping the keys unique. */
    method UpdateAt(k: nat, v: UserRow)
      requires Valid() && k < |rows| && v.id == rows[k].id
      requires forall j :: 0 <= j < |rows| && j != k ==> rows[j].username != v.username
      modifies this
      ensures Valid()
      ensures rows == old(rows)[k := v]
      ensures forall j :: 0 <= j < |rows| && old(rows)[j].id == v.id ==> j == k
    {
      rows := rows[k := v];
    }

    /** `delete_user` (`active == false`) and `activate_user` (`active == true`):
        flip `is_active` and re-stamp the rows with the id; nothing is removed;
        the answer is whether a row matched. */
    method SetActive(userId: string, active: bool, now: int) returns (ok: bool)
      requires Valid()
      modifies this
      ensures Valid()
      ensures userId == [] ==> !ok && rows == old(rows)
      ensures userId != [] ==>
                rows == Map(old(rows), (u: UserRow) => if u.id == userId then u.(isActive := active, updatedAt := now) else u)
      ensures ok <==> userId != [] && exists u :: u in old(rows) && u.id == userId
      ensures |rows| == |old(rows)|
    {
      if userId == [] {
        return false;
      }
      var before := rows;
      rows := Map(rows, (u: UserRow) => if u.id == userId then u.(isActive := active, updatedAt := now) else u);
      ok := exists u :: u in before && u.id == userId;
    }
  }

  /** `require_admin`: 401 with nobody logged in, 403 for any other role. */
  function RequireAdmin(user: Option<UserInfo>): (r: Outcome<UserInfo>)
    ensures r.Pass? <==> user.Some? && user.value.role == "Admin"
    ensures user.None? ==> r == Fail(401, "Not authenticated")
    ensures user.Some? && user.value.role != "Admin" ==> r == Fail(403, "Admin access required")
    ensures r.Pass? ==> r.value == user.value
  {
    if user.None? then Fail(401, "Not authenticated")
    else if user.value.role != "Admin" then Fail(403, "Admin access required")
    else Pass(user.value)
  }

  /** Creating a user and logging in with the same password succeeds, and
      returns the created user. */
  lemma LoginAfterCreate(before: seq<UserRow>, username: string, password: string, role: UserRole, uuid: string,
                         salt: seq<byte>, sha: seq<byte> -> seq<byte>, now: int, t: UserTable)
    requires |salt| == 16 && username != []
    requires forall u :: u in before ==> u.username != username
    requires t.rows == before + [UserRow(uuid, username, HashPassword(password, salt, sha), RoleValue(role), true, now)]
    requires password != []
    ensures t.Authenticate(username, password, sha, false) == Some(UserInfo(uuid, username, RoleValue(role)))
  {
    var p := (u: UserRow) => u.username == username && u.isActive;
    var found := Find(t.rows, p);
    assert found.Some? by {
      assert p(t.rows[|before|]);
    }
    assert found.value == t.rows[|before|];
    VerifyHashed(password, salt, sha);
  }
}
