# QMS record-keeping layer in Dafny

This project models the record-keeping layer of a quality-management system (QMS).
The system keeps users, DMT (defective material tag) records, generic entity tables
(work centres, customers, inspection items, …) and an audit log. It has two halves:

- a TypeScript front end with its own stores: a preview store over arrays
  (`mock-db.ts`), an ORM-backed store (`db-helpers.ts`), a browser database with
  draft records and audit rules (`client-db.ts`), and the authentication predicates
  of the API routes (`auth-middleware.ts`);
- a Python back end over SQLite: password hashing and user administration
  (`auth.py`, `user_service.py`), the role gates of the REST API
  (`dependencies.py`), the permission table (`config.py`), the DMT service with its
  `RPT-NNNN` report numbers (`dmt_service.py`), the audit service, the generic entity
  repository with soft delete and paging (`base_repository.py`), CSV import and
  CSV/JSON export, and the three sets of handlers over them: the DMT REST API
  (`api/dmt.py`), the DMT HTML routes (`routes/dmt.py`), and the entity REST API and
  HTML routes (`api/entities.py`, `entities/routes.py`).

Each source file is one module. Shared SQLite tables live in the class
`Tables.Database`. That class holds `dmt_records`, `audit_log` and one sequence per
entity table, so the REST API, the HTML routes and the repository all write the same
audit log, as in the source. Stores whose fields the source updates in place are
classes with `modifies` clauses and `old(...)` postconditions: `MockDb.Store`,
`Sessions.SessionStore`, `DbHelpers.Store`, `ClientDb.Store`, `Auth.UserTable`,
`AppDb.Connection`, `Tables.Database` and `BaseRepository.Repository`. Queries are
functions over the table contents. Step-by-step code is written as methods with
loops and invariants: the `update_fields` builders, the CSV parse and import loops,
the export cleaning loop and the export paging loops.

Helper modules hold what several files share:

- `Common`: `Option`, `Result`, `Outcome` (a value or an HTTP status with its detail), `Min`.
- `Seqs`: filter, map, find, window and sort, with their lemmas.
- `Strings`: ASCII case, substring and SQL `LIKE`, strip, split and join.
- `Decimal`: decimal digits, Python `int()` and `{:04d}`.
- `Encoding`: UTF-8, Base64 as in section 4 of RFC 4648, and hex.
- `Csv`: the minimal-quoting dialect of Python's `csv` writer.

The clock, random tokens and UUIDs, SHA-256 and the failure of a database call are
parameters of the operations that use them.

## Model

| member | source | states |
|---|---|---|
| MockDb.HashPassword | src/lib/mock-db.ts:5-8 | the stored "hash" is Base64 text, so its length is a multiple of 4, and it is empty exactly for the empty password |
| MockDb.VerifyPasswordExact | src/lib/mock-db.ts:10-12 | `verifyPassword(q, hashPassword(p))` holds if and only if `q == p`, because UTF-8 and Base64 are injective |
| MockDb.CheckUserPassword | src/lib/mock-db.ts:133-137 | `users.verifyPassword` is false for a username with no stored hash; when true, the stored hash is the hash of the given password |
| MockDb.CheckAfterCreate | src/lib/mock-db.ts:133-137 | after `users.create` stores the hash of `p`, a login with `q` succeeds if and only if `q == p` and `p` is non-empty (the empty hash is falsy) |
| MockDb.EmptyPasswordNeverVerifies | src/lib/mock-db.ts:135 | a user stored with the empty password can never log in, whatever password is typed, because its hash is the empty, falsy string |
| MockDb.FindUserById | src/lib/mock-db.ts:99-101 | a user is found if and only if one has the id, and the one found is the first user in the array with it |
| MockDb.FindUserByUsername | src/lib/mock-db.ts:95-97 | a user is found if and only if one has the username; since `users.create` accepts a taken name, the one found is the first with it, as `find` answers |
| MockDb.ListDmt | src/lib/mock-db.ts:142-151 | no or empty search returns every record; otherwise exactly the records whose number, title or description contains the term without case, in array order |
| MockDb.ListDmtSubset | src/lib/mock-db.ts:145-150 | a search never returns more records than stored, nor one that is not stored |
| MockDb.FindDmtById | src/lib/mock-db.ts:153-155 | a record is found if and only if one has the id, and the one found is the first record in the array with it |
| MockDb.RecentReports | src/lib/mock-db.ts:212-214 | at most five rows, the last five records in array order, each as (id, number, title, status, created_at) |
| MockDb.RecentUsers | src/lib/mock-db.ts:216 | at most five rows, the last five users in order, each as (username, role) |
| MockDb.MyCounts | src/lib/mock-db.ts:229-232 | the number of records the user created, and the numbers of those whose status is `Open` and `Closed`; so open + closed ≤ mine ≤ the number of records |
| MockDb.GetStats | src/lib/mock-db.ts:206-236 | totals are the array lengths; open is the number of `Open` records, at most the total; the `my_*` counts are present exactly when a non-empty username is given, and then they are that user's MyCounts, with open + closed ≤ mine ≤ total |
| MockDb.ApplyDmtPatch | src/lib/mock-db.ts:171-175 | the merged record always carries `updated_at = now`, even when the patch supplies its own; an empty patch changes nothing else |
| MockDb.Store.constructor | src/lib/mock-db.ts:15-87 | the seeded store: three active users numbered 1..3 with stored passwords, two records numbered 1..2 and two audit entries |
| MockDb.Store.CreateUser | src/lib/mock-db.ts:107-117 | appends exactly one active user with id = old length + 1 and stores the hash of the password under the username; nothing else changes |
| MockDb.Store.UpdateUser | src/lib/mock-db.ts:119-124 | null and no change for an unknown id; otherwise the first user with the id is replaced by the merge and returned |
| MockDb.Store.DeleteUser | src/lib/mock-db.ts:126-131 | false and no change for an unknown id; otherwise exactly that user is removed and the result is true |
| MockDb.Store.CreateDmt | src/lib/mock-db.ts:157-166 | appends exactly one record with id = old length + 1 and both timestamps `now` |
| MockDb.Store.UpdateDmt | src/lib/mock-db.ts:168-177 | null and no change for an unknown id; otherwise only the first record with the id is replaced by the merge, stamped `now` |
| MockDb.Store.DeleteDmt | src/lib/mock-db.ts:179-184 | false and no change for an unknown id; otherwise exactly that record is removed (one fewer) and the result is true |
| MockDb.Store.CreateAudit | src/lib/mock-db.ts:193-201 | appends exactly one entry with id = old length + 1, stamped `now` |
| MockDb.LengthIdsRepeatAfterDelete | src/lib/mock-db.ts:160 | after a deletion, numbering by length + 1 hands out the id of a record still stored |
| MockDb.CreateKeepsNumbering | src/lib/mock-db.ts:157-166 | while no record has been deleted, numbering by length + 1 keeps the ids 1, 2, 3, ... in array order |
| Sessions.Lookup | src/lib/mock-db.ts:248-256 | a session is returned if and only if the token is stored and has not expired (`expiresAt ≥ now`), with its user id and username |
| Sessions.FreshSessionLifetime | src/lib/mock-db.ts:243 | a session created at `t0` is live exactly until `t0 + 86 400 000` ms |
| Sessions.SessionStore.constructor | src/lib/db-helpers.ts:6 | the session map starts empty |
| Sessions.SessionStore.Create | src/lib/db-helpers.ts:178-183 | stores exactly one entry under the returned token, expiring 24 hours after `now`, and it reads back as live |
| Sessions.SessionStore.Get | src/lib/db-helpers.ts:185-193 | unknown token: null, map unchanged; expired session: null and the entry removed; live session: its user, map unchanged |
| Sessions.SessionStore.Delete | src/lib/db-helpers.ts:195-197 | removes the token, whether or not it was stored, and keeps every other entry |
| Sessions.EvictionIsPermanent | src/lib/mock-db.ts:248-256 | once a `get` finds a session expired, it and every later `get` of that token return null |
| Sessions.ExpiryIsMonotone | src/lib/mock-db.ts:251 | a session that is not live at `now` is not live at any later time |
| DbHelpers.ListDmt | src/lib/db-helpers.ts:65-81 | exactly the rows matching the term on number, title or description (every row without a term), newest `createdAt` first, each as often as the table holds it: a permutation of the matching rows, of the whole table without a term |
| DbHelpers.SearchNarrows | src/lib/db-helpers.ts:70-80 | a search returns only rows that the unfiltered list returns |
| DbHelpers.FindDmtById | src/lib/db-helpers.ts:83-87 | a row is found if and only if one has the id, and the one found has it |
| DbHelpers.FindUserById | src/lib/db-helpers.ts:17-21 | a user is found if and only if one has the id, and the one found has it |
| DbHelpers.ApplyPatch | src/lib/db-helpers.ts:96-100 | `{ ...data, updatedAt: now }`: for each column of the patch (number, title, description, status, `createdAt`) a supplied value replaces the stored one and an absent one is kept; the id is kept and the update time is the clock's even when the patch supplies one |
| DbHelpers.EmptyPatchStamps | src/lib/db-helpers.ts:100 | a patch that supplies nothing but perhaps an update time only re-stamps the row |
| DbHelpers.GetStats | src/lib/db-helpers.ts:114-130 | total counts every row, with no draft filter; open, in progress and closed are the numbers of rows with those statuses; open + in progress + closed ≤ total |
| DbHelpers.StatusCountsBound | src/lib/db-helpers.ts:116-122 | the three status counts never add up to more than the row count |
| DbHelpers.Store.constructor | src/lib/db-helpers.ts:8 | the user and DMT tables start empty |
| DbHelpers.Store.DeleteUser | src/lib/db-helpers.ts:49-54 | removes every user with the id and returns true whether or not one existed |
| DbHelpers.Store.UpdateDmt | src/lib/db-helpers.ts:96-105 | every row with the id gets the patch and `updatedAt = now`, other rows are unchanged, and the returned row exists exactly when a row had the id |
| DbHelpers.Store.DeleteDmt | src/lib/db-helpers.ts:107-112 | removes every row with the id and returns true whether or not one existed |
| DbHelpers.DeleteTwice | src/lib/db-helpers.ts:107-112 | deleting the same id twice leaves the table as deleting it once |
| ClientDb.KindName | src/lib/client-db.ts:209-213 | the entity kinds are exactly `products`, `suppliers`, `customers` and `equipment` |
| ClientDb.ListDmt | src/lib/client-db.ts:117-135 | a row is listed if and only if it is stored, is not a draft (`isSession`) unless drafts are asked for, and matches the term on number, title or description when a term is given; newest first, and a permutation of exactly those rows of the table |
| ClientDb.ListHidesDrafts | src/lib/client-db.ts:121 | without `includeSession` no draft record is listed, with or without a search term |
| ClientDb.FindDmtById | src/lib/client-db.ts:137-141 | a row is found if and only if one has the id, and the one found has it |
| ClientDb.ApplyDmtPatch | src/lib/client-db.ts:153-157 | `{ ...data, updatedAt: now }`: for each column of the patch (number, title, description, status, `isSession`, `createdAt`) a supplied value replaces the stored one and an absent one is kept; the id is kept and the update time is the clock's even when the patch supplies one |
| ClientDb.EmptyPatchStamps | src/lib/client-db.ts:157 | a patch that supplies nothing but perhaps an update time only re-stamps the row |
| ClientDb.GetStats | src/lib/client-db.ts:178-189 | total counts only non-draft rows; open, in progress and closed are the numbers of non-draft rows with those statuses; open + in progress + closed ≤ total |
| ClientDb.DraftsDoNotCount | src/lib/client-db.ts:181 | adding a draft record changes no statistic |
| ClientDb.ListAudit | src/lib/client-db.ts:194-197 | the newest `limit` entries (50 when no limit is passed): exactly `min(limit, count)` of them, the leading part of the log sorted by timestamp descending, none more often than the log holds it, and none older than an entry left out |
| ClientDb.AuditEntry | src/lib/client-db.ts:261-270 | the entry stores the entity id as text, `details` as `""` when absent, and the timestamp `now` |
| ClientDb.AuditIf | src/lib/client-db.ts:261-274 | at most one entry is written, and one is written exactly when the caller asked for it and the insert did not fail |
| ClientDb.AuditAtMostOne | src/lib/client-db.ts:271-273 | a mutation writes at most one audit entry, and none when the caller did not ask for one |
| ClientDb.Store.constructor | src/lib/client-db.ts:67 | every table starts empty |
| ClientDb.Store.LogAudit | src/lib/client-db.ts:261-274 | appends the entry when the insert succeeds and changes nothing otherwise; no table other than the log changes |
| ClientDb.Store.CreateDmt | src/lib/client-db.ts:143-151 | appends exactly one row, and one CREATE audit entry if and only if a username is passed |
| ClientDb.Store.UpdateDmt | src/lib/client-db.ts:153-165 | every row with the id gets the patch and `updatedAt = now`; one UPDATE entry is written if and only if a username is passed and the row existed |
| ClientDb.Store.DeleteDmt | src/lib/client-db.ts:167-176 | the row is read before it is deleted; one DELETE entry is written if and only if it existed and a username is passed; always true |
| ClientDb.Store.CreateEntity | src/lib/client-db.ts:216-226 | appends exactly one row to that kind's table, and one CREATE entry if and only if a username is passed |
| ClientDb.Store.UpdateEntity | src/lib/client-db.ts:228-243 | renames every row with the id when a name is given; one UPDATE entry, naming the new name or else the stored one, if and only if a username is passed and the row existed |
| ClientDb.Store.DeleteEntity | src/lib/client-db.ts:245-256 | the row is read first; one DELETE entry if and only if it existed and a username is passed; always true |
| AuthMiddleware.CurrentUser | src/lib/auth-middleware.ts:4-18 | a user is returned if and only if there is a non-empty `session_id` cookie, its session is live, and a user with the session's id still exists |
| AuthMiddleware.GetCurrentUser | src/lib/auth-middleware.ts:4-18 | returns `CurrentUser` of the sessions before the call; an expired session named by the cookie is removed from the map, and otherwise the map is unchanged |
| AuthMiddleware.ExpiredSessionIsAnonymous | src/lib/auth-middleware.ts:11-14 | an expired session gives no user, and `requireAuth` fails for it |
| AuthMiddleware.DeletedUserIsAnonymous | src/lib/auth-middleware.ts:16-17 | a session whose user no longer exists gives no user |
| AuthMiddleware.AdminIsAuthenticated | src/lib/auth-middleware.ts:20-26 | `requireAdmin` implies `requireAuth`, holds if and only if the user is active with role `Admin`, and an inactive user passes neither |
| Auth.RoleValue | backend/auth/auth.py:14-21 | every role has a non-empty stored name (`Admin`, `Supervisor`, `Inspector`, `Engineer`, `Manager`, `Operator`) |
| Auth.Level | backend/auth/auth.py:24-31 | the hierarchy level of a role name is at most 5 |
| Auth.LevelsOfRoles | backend/auth/auth.py:24-31 | every defined role has a level of at least 1, an unknown role has level 0, and only Admin and Inspector are at level 5 |
| Auth.TopLevel | backend/auth/auth.py:25-26 | a role name is at level 5 if and only if it is `Admin` or `Inspector` |
| Auth.AssignableRows | backend/auth/auth.py:46-60 | exactly the active users whose level is at least the caller's level, each stored row as often as it is stored (the same multiset as the WHERE filter), ordered by username |
| Auth.AssignableUsers | backend/auth/auth.py:34-65 | a failing query gives the empty list; otherwise the public view (id, username, role, is_active) of each AssignableRows row in its order, one per assignable stored row, and a view is listed iff an assignable user has it |
| Auth.AssignableRankAtLeastCaller | backend/auth/auth.py:57-60 | no one listed ranks below the caller; an Admin caller is offered only Admins and Inspectors |
| Auth.HashPassword | backend/auth/auth.py:68-72 | the stored value splits on `$` into exactly the 32-hex-digit salt and the hex SHA-256 digest of the password followed by that salt |
| Auth.VerifyPassword | backend/auth/auth.py:75-82 | true only when the stored value splits into exactly two parts and the digest of password + salt equals the second; a wrong shape gives false, never an error |
| Auth.VerifyHashed | backend/auth/auth.py:68-79 | `verify_password(p, hash_password(p))` holds for every password and salt |
| Auth.WrongPasswordNeedsCollision | backend/auth/auth.py:75-79 | another password verifies against a stored hash only through a SHA-256 collision on two different inputs |
| Auth.NoSeparatorNeverVerifies | backend/auth/auth.py:78-82 | a stored value without `$` never verifies |
| Auth.Patched | backend/auth/auth.py:252-268 | the row `update_user` writes: username and password hash replaced only when supplied (non-blank), role when given, `updated_at` stamped, id and active flag kept |
| Auth.AssignAll | backend/auth/auth.py:272-276 | the `SET` items never change the id or the active flag |
| Auth.SetList | backend/auth/auth.py:249-266 | the list of `SET` items is empty if and only if no username, password or role is supplied |
| Auth.BuildUpdates | backend/auth/auth.py:249-262 | the successive appends build exactly the specified item list |
| Auth.SetListPatches | backend/auth/auth.py:249-276 | the items plus the `updated_at` stamp, applied to any row, write exactly the patch |
| Auth.UserTable.constructor | backend/auth/auth.py:93-95 | the users table starts empty |
| Auth.UserTable.CreateUser | backend/auth/auth.py:85-118 | empty username or password: "required" error; password shorter than 6: "too short"; a taken username (or id): "already exists"; no row is written on any error; otherwise exactly one active row with the hashed password is appended and (id, username, role) returned |
| Auth.UserTable.Authenticate | backend/auth/auth.py:121-149 | None for empty credentials or a failing query; a result is an active user with that username whose password verifies, returned without its hash; inactive or unknown users give None; and, usernames being unique, an active user whose password verifies is returned |
| Auth.UserTable.UpdateUser | backend/auth/auth.py:237-288 | empty id or nothing supplied: false and no write; a password shorter than 6: error and no write; true exactly when the id is not empty, some field is supplied, the password is long enough, a row has the id and the new username is free, and then exactly that row is patched and stamped |
| Auth.UserTable.ApplyUpdates | backend/auth/auth.py:271-288 | the `UPDATE`: true exactly when a row has the id and no other row holds the username it would get (otherwise the integrity error), and then that row gets the items; false writes nothing |
| Auth.UserTable.SetActive | backend/auth/auth.py:291-340 | `delete_user` and `activate_user` only set `is_active` to 0 or 1 and stamp the row; no row is removed; true if and only if the id is non-empty and a row matched |
| Auth.RequireAdmin | backend/auth/auth.py:157-170 | 401 "Not authenticated" with nobody logged in, 403 "Admin access required" for any other role, otherwise the user |
| Auth.LoginAfterCreate | backend/auth/auth.py:85-149 | a user just created with a non-empty password logs in with that password and gets its (id, username, role) |
| Dependencies.GetCurrentUser | backend/app/core/dependencies.py:31-39 | 401 "Not authenticated" if and only if the session has no (truthy) user; otherwise that user |
| Dependencies.GetCurrentActiveUser | backend/app/core/dependencies.py:42-49 | 401 first, then 403 "Inactive user" when `is_active` is falsy; passes if and only if a user is present and active |
| Dependencies.RequireRole | backend/app/core/dependencies.py:52-62 | checks in order: 401 without a user, 403 "Inactive user", then 403 "Insufficient permissions" listing the roles; passes if and only if an active user's role is one of the allowed roles |
| Dependencies.GetCurrentUserOptional | backend/app/core/dependencies.py:65-67 | never fails: the session user or None |
| Dependencies.OptionalAgreesWithRequired | backend/app/core/dependencies.py:31-67 | the optional reader returns the user exactly when the required one passes |
| Dependencies.RoleCheckIsStricter | backend/app/core/dependencies.py:52-62 | passing the role check implies passing the active check, an active-check failure is returned unchanged, and an empty role list admits nobody |
| Dependencies.MoreRolesAdmitMore | backend/app/core/dependencies.py:56 | allowing more roles never turns away a user who was admitted |
| Config.TableName | config.py:50-64 | every entity type has a non-empty table name |
| Config.ParseEntityType | config.py:50-64 | `EntityType(value)`: a parsed entity type has exactly the given name |
| Config.ParseTableName | config.py:50-64 | every entity type parses back from its name |
| Config.TableNameInjective | config.py:50-64 | no two entity types share a name |
| Config.GetPermissions | config.py:77-121 | a role that may manage users has every permission, and every role has all, none, or all but user management |
| Config.PermissionsOfRoles | config.py:79-120 | Admin has all six permissions, Supervisor all but `can_manage_users`, and Engineer, Operator and Viewer none |
| Config.UnknownRoleIsViewer | config.py:121 | an unlisted role gets the Viewer permissions |
| Config.OnlyAdminManagesUsers | config.py:79-120 | a role may manage users if and only if it is `Admin` |
| AppDb.UserById | backend/app/services/user_service.py:24-27 | `SELECT … WHERE id = ?` over the users: a row is found if and only if one has the id, and the one found has it |
| AppDb.UserByIdAt | backend/app/services/user_service.py:24-27 | with unique ids, looking up the id of a stored row finds that row |
| UserService.GetUserById | backend/app/services/user_service.py:20-43 | None if and only if no user has the id; otherwise that user's public columns, without the password hash |
| UserService.GetUserByUsername | backend/app/services/user_service.py:45-69 | None if and only if no user has the username; otherwise a stored row with that username |
| UserService.UsersNewestFirst | backend/app/services/user_service.py:78 | every user row, each as often as stored, newest `created_at` first |
| UserService.GetAllUsers | backend/app/services/user_service.py:71-96 | exactly the page `LIMIT limit OFFSET skip` of the users newest first, each as its public view (no password hash); hence at most `limit` users, in order |
| UserService.AllUsersPagesTile | backend/app/services/user_service.py:79 | the page from 0 of size `start` followed by the page at `start` of size `size` is the page from 0 of size `start + size`: paging serves no user twice and skips none |
| UserService.AllUsersComplete | backend/app/services/user_service.py:71-96 | from offset 0 with a limit no smaller than the table, the listing is every user's view, newest first, and every stored user appears in it |
| UserService.CreateUser | backend/app/services/user_service.py:98-129 | a taken username gives the "already exists" error before any insert; otherwise exactly one row is appended, holding the hashed password and the given fields, and it is read back by its new id |
| UserService.PatchedColumns | backend/app/services/user_service.py:142-160 | the patched row: each supplied field replaces the stored one, a supplied password is stored only as its hash, and id, username and `created_at` never change |
| UserService.ApplyFieldsSplit | backend/app/services/user_service.py:165-168 | the `SET` items apply left to right, so a list applies as its two halves in turn |
| UserService.BuildFields | backend/app/services/user_service.py:139-163 | the item list is empty if and only if no field is supplied, and applied to any row it writes exactly the patch |
| UserService.UpdateUser | backend/app/services/user_service.py:131-176 | None and no write for a missing id; with no field supplied the stored user is returned and nothing is written; otherwise exactly the row with the id is patched and read back |
| UserService.PatchMissing | backend/app/services/user_service.py:134-136 | an update of an id no row has leaves every row as it is |
| UserService.PatchNone | backend/app/services/user_service.py:162-163 | an update that supplies no field leaves every row as it is |
| UserService.PatchNothing | backend/app/services/user_service.py:162-163 | with no field supplied the patch is the identity |
| UserService.PatchAt | backend/app/services/user_service.py:165-168 | with unique ids, writing the row found by id is the same as patching every row with that id |
| UserService.DeleteUser | backend/app/services/user_service.py:178-192 | a hard delete: every row with the id is removed, and the result is true if and only if one existed |
| UserService.AuthenticateUser | backend/app/services/user_service.py:194-217 | checked in order: unknown user, then inactive user, then wrong password each give None; on success the user's view, without the password hash |
| UserService.AuthenticateAfterCreate | backend/app/services/user_service.py:98-214 | a new active user stored with the hash of a password authenticates with that password |
| DmtService.LatestReport | backend/app/services/dmt_service.py:23-28 | the row `ORDER BY id DESC LIMIT 1` finds among those whose number matches `RPT-%`: none if and only if no number matches, otherwise a matching record with the largest id |
| DmtService.GenerateReportNumber | backend/app/services/dmt_service.py:19-43 | always `RPT-` followed by at least four digits, whatever is stored and whether or not the query fails |
| DmtService.FirstNumber | backend/app/services/dmt_service.py:37-38 | with no `RPT-` record the number is `RPT-1000` |
| DmtService.ReportNumberFallbacks | backend/app/services/dmt_service.py:30-43 | `RPT-1000` when the query fails, when no `RPT-` row is found, and when the newest one's number is empty |
| DmtService.ReportNumberParsed | backend/app/services/dmt_service.py:32-40 | for the newest `RPT-` number: `RPT-1000` when nothing follows its first `-` or that text is not an integer; otherwise that integer (never negative) plus one, zero-filled to four digits |
| DmtService.NumberAfterFormatted | backend/app/services/dmt_service.py:32-34 | the number after `RPT-{k:04d}` parses back to `k + 1` |
| DmtService.GeneratedIsReportNumber | backend/app/services/dmt_service.py:25 | every generated number matches `LIKE 'RPT-%'`, so the next generation sees it |
| DmtService.PrefixMatches | backend/app/services/dmt_service.py:25 | `RPT-` matches the pattern prefix `rpt-` without case, as SQLite's `LIKE` compares |
| DmtService.LatestAfterAppend | backend/app/services/dmt_service.py:26 | a record stored with a larger id and a matching number becomes the latest one |
| DmtService.GenerateAfter | backend/app/services/dmt_service.py:32-40 | after a latest number `RPT-{k:04d}` the next is `RPT-{k+1:04d}` |
| DmtService.ConsecutiveNumbers | backend/app/services/dmt_service.py:107-134 | storing the generated number under a new, larger id makes the following number one more: numbers are consecutive |
| AppDb.RecordById | backend/app/services/dmt_service.py:49-58 | `WHERE d.id = ?`: a record is found if and only if one has the id, and the one found has it |
| AppDb.RecordByIdAt | backend/app/services/dmt_service.py:49-58 | with unique ids, looking up the id of a stored record finds that record |
| AppDb.JoinedUsername | backend/app/services/dmt_service.py:54-55 | the `LEFT JOIN`: the username of the user whose id the column holds, and None when the column holds no id |
| DmtService.Joined | backend/app/services/dmt_service.py:50-55 | a read record carries its creator's and its assignee's usernames from the join |
| DmtService.GetRecordById | backend/app/services/dmt_service.py:45-65 | None if and only if no record has the id; otherwise that record with the joined usernames |
| DmtService.DeleteImpliesAccess | backend/app/services/dmt_service.py:154-155 | whoever may delete a record may also edit it |
| DmtService.AccessibleNewestFirst | backend/app/services/dmt_service.py:72-96 | Admins and Supervisors get every record; anyone else exactly the records they created or are assigned, each as often as stored; newest `created_at` first |
| DmtService.GetRecordsForUser | backend/app/services/dmt_service.py:67-105 | exactly the page `LIMIT limit OFFSET skip` of the records the user may access, newest first, each joined with its usernames; hence at most `limit` of them, in order |
| DmtService.RecordsPagesTile | backend/app/services/dmt_service.py:82-95 | the page from 0 of size `start` followed by the page at `start` of size `size` is the page from 0 of size `start + size`: paging serves no record twice and skips none |
| DmtService.RecordsForUserComplete | backend/app/services/dmt_service.py:72-96 | without skip and with a large enough limit, a record is listed if and only if the user may see it |
| DmtService.PrivilegedSeesAll | backend/app/services/dmt_service.py:73-83 | Admins and Supervisors see every record |
| DmtService.InsertedColumns | backend/app/services/dmt_service.py:113-134 | the inserted row holds the generated report number, the creator's id, and the supplied value of every editable column, and nothing else |
| DmtService.CreateRecord | backend/app/services/dmt_service.py:107-144 | appends exactly one record with a larger id than every stored one, the generated number and the creator, stamped `now`, and returns it read back with the join |
| DmtService.CreatorSeesNewRecord | backend/app/services/dmt_service.py:154-196 | the creator may read, edit and delete the record just created, whatever the role |
| DmtService.SuppliedFields | backend/app/services/dmt_service.py:162-168 | the `SET` items name only listed columns, in order, with their supplied non-None values |
| DmtService.UpdatedColumn | backend/app/services/dmt_service.py:162-176 | after the update a column holds the supplied value when it is listed and supplied, and its old value otherwise |
| DmtService.EditKeepsIdentity | backend/app/services/dmt_service.py:162-164 | an update never changes the id, `created_at`, `report_number` or `created_by_user_id` |
| DmtService.CollectSets | backend/app/services/dmt_service.py:159-168 | the loop over the field list builds exactly the supplied items |
| DmtService.EditAt | backend/app/services/dmt_service.py:170-177 | with unique ids, writing the record found by id is the same as editing every record with that id, and no item leaves every record as it is |
| DmtService.UpdateRecord | backend/app/services/dmt_service.py:146-184 | None for a missing id; the edit-permission error, with no write, for a user who is not privileged, the creator or the assignee; otherwise the record is always edited (nothing written with no field) and read back |
| DmtService.ApplyEdit | backend/app/services/dmt_service.py:170-180 | the supplied fields are written to the record with the id only, and the record is read back |
| DmtService.DeleteRecord | backend/app/services/dmt_service.py:186-209 | false for a missing id; the delete-permission error, with no write, unless privileged or the creator (being the assignee is not enough); otherwise a hard delete and true |
| DmtService.DeletedIsGone | backend/app/services/dmt_service.py:199 | after the hard delete the id reads as missing |
| AuditService.LogAction | backend/app/services/audit_service.py:18-31 | a successful insert appends exactly one entry with a larger id than every stored one, the given fields and the current instant; a failing insert is swallowed and changes nothing; users and records never change |
| AuditService.JoinedLog | backend/app/services/audit_service.py:41-43 | an entry is listed with the username of its user from the `LEFT JOIN`, None for no user |
| AuditService.MatchingNewestFirst | backend/app/services/audit_service.py:44-56 | exactly the entries passing the filters, each as often as stored, newest timestamp first |
| AuditService.GetLogs | backend/app/services/audit_service.py:33-74 | exactly the page `LIMIT limit OFFSET skip` of the entries passing the filters, newest first, each joined with its username; hence at most `limit` entries, in descending timestamp order |
| AuditService.LogPagesTile | backend/app/services/audit_service.py:56 | the page from 0 of size `start` followed by the page at `start` of size `size` is the page from 0 of size `start + size`: paging serves no entry twice and skips none |
| AuditService.GetLogsComplete | backend/app/services/audit_service.py:44-56 | on a large enough page an entry is listed if and only if it passes the filters |
| AuditService.FalsyFiltersAreAbsent | backend/app/services/audit_service.py:48-54 | an empty entity type and user id 0 filter nothing, since the code tests their truth |
| AuditService.LoggedEntryIsListed | backend/app/services/audit_service.py:18-56 | an entry just logged is listed under its own entity type and user |
| Tables.Database.constructor | backend/database/connection.py:39-125 | an empty database: no entity rows, no report rows, no audit entries |
| Tables.NextEntry | backend/database/connection.py:114-121 | the next `audit_log` entry carries a larger `AUTOINCREMENT` id than every earlier one and the given fields, stamped now |
| Tables.Database.Log | backend/repositories/base_repository.py:90-93 | `INSERT INTO audit_log` appends exactly that next entry and changes no other table |
| Tables.DmtKeys | backend/database/connection.py:55-110 | every `dmt_records` row turns into a dictionary with the same keys in the table's column order |
| BaseRepository.Matching | backend/repositories/base_repository.py:30-48 | exactly the active rows created within the last `days` days whose name contains `search` (case-insensitively), newest `created_at` first, and as many as the `COUNT(*)` query counts |
| BaseRepository.Listing | backend/repositories/base_repository.py:20-55 | `total` counts every matching row; the page holds at most `PAGE_SIZE` of them, all matching, newest first |
| BaseRepository.MatchingOfSorted | backend/repositories/base_repository.py:48 | filtering rows that already match and are already ordered leaves them as they are |
| BaseRepository.PagesArePrefix | backend/repositories/base_repository.py:48-49 | pages 1 to k, concatenated, are the first `k * PAGE_SIZE` matching rows: paging neither skips nor repeats a row |
| BaseRepository.PagesComplete | backend/repositories/base_repository.py:42-49 | once `k * PAGE_SIZE` reaches `total`, pages 1 to k hold every matching row |
| BaseRepository.ItemById | backend/repositories/base_repository.py:57-67 | found if and only if an active row has the id; the row found is active and has it |
| BaseRepository.ShortId | backend/repositories/base_repository.py:74 | the first eight characters of the UUID text |
| BaseRepository.NewItem | backend/repositories/base_repository.py:76-87 | the new row is active, named, stamped now, and holds the employee number only on `employees` when one is given |
| BaseRepository.Renamed | backend/repositories/base_repository.py:116-130 | an update keeps the id, the active flag and `created_at`, sets the name and `updated_at`, and writes the employee number only on `employees` when one is given |
| BaseRepository.Repository.constructor | backend/repositories/base_repository.py:15-18 | a repository over one entity type's table |
| BaseRepository.Repository.Create | backend/repositories/base_repository.py:69-100 | a taken short id fails the primary key and changes nothing; otherwise the new row is appended to the entity's table, a `CREATE` entry with its changes is logged, and the row is returned |
| BaseRepository.Repository.Update | backend/repositories/base_repository.py:102-148 | None and no write when no row has the id (active or not); otherwise the row is renamed, an `UPDATE` entry with the old and new values is logged, and the renamed row is returned |
| BaseRepository.Repository.Delete | backend/repositories/base_repository.py:150-169 | true if and only if a row has the id; then that row is deactivated and a `DELETE` entry logged, otherwise nothing changes |
| BaseRepository.CreatedIsRead | backend/repositories/base_repository.py:96-97 | a created row is read back by its id |
| BaseRepository.DeletedIsHidden | backend/repositories/base_repository.py:30-67 | after a soft delete the id is neither found nor listed on any page |
| BaseRepository.DeleteKeepsOthers | backend/repositories/base_repository.py:155-158 | a soft delete leaves every other id's lookup as it was |
| BaseRepository.UpdatedIsRead | backend/repositories/base_repository.py:144-145 | after an update the id reads as the renamed row, or as missing when the row was soft-deleted |
| Csv.ReadEscaped | backend/services/export_service.py:42-44 | a field whose quotes the writer doubled reads back, up to the closing quote, as the field itself |
| Csv.ReadQuotedField | backend/services/export_service.py:42-44 | a field the writer quoted reads back as itself, leaving the separator that follows it |
| Csv.PlainSplit | backend/services/export_service.py:42-44 | a field the writer leaves unquoted reads back as itself up to the next comma |
| Csv.FieldsRoundTrip | backend/services/export_service.py:42-44 | a header or data line written by the CSV writer parses back to exactly its fields |
| CsvImport.ValidateHeaders | backend/services/csv_import_service.py:15-27 | valid if and only if every required column is a header; otherwise the message names the first required column that is missing |
| CsvImport.RequiredColumns | backend/services/csv_import_service.py:17-20 | `employees` requires `name` and `employee_number`, every other entity only `name`, and `name` is reported first |
| CsvImport.RowDict | backend/services/csv_import_service.py:42 | each row becomes a dictionary over the header names, a missing trailing cell read as None |
| CsvImport.ParseRow | backend/services/csv_import_service.py:53-73 | a row with no non-empty value is skipped, and only such a row; an accepted item has a stripped, non-empty name, and a stripped, non-empty employee number exactly for `employees` |
| CsvImport.AcceptedItem | backend/services/csv_import_service.py:59-73 | an accepted item has a non-empty, stripped name, and an employee number exactly for `employees` |
| CsvImport.RowMessages | backend/services/csv_import_service.py:58-73 | a row with some value: a blank name is `Row idx: Name is required`; for `employees`, a blank number is `Row idx: Employee number is required`; a missing cell (`None`) raises; otherwise the item carries the stripped name and, for employees, the stripped number |
| CsvImport.ParsedItems | backend/services/csv_import_service.py:53-73 | no more items and errors together than records, and every gathered item is accepted as `AcceptedItem` states |
| CsvImport.RowNumbering | backend/services/csv_import_service.py:53 | records are numbered from 2: unless an exception stopped the loop before it, the record at index `i` adds its item, or its message for row `i + 2`, to the result |
| CsvImport.ParseRowsSnoc | backend/services/csv_import_service.py:53 | one more record is one more loop step, on that record numbered after all the earlier ones |
| CsvImport.ParseOne | backend/services/csv_import_service.py:54-73 | one pass of the record loop: a skipped record changes nothing, an accepted one appends its item, a rejected one its message, and an exception its message and stops the loop |
| CsvImport.CrashSticks | backend/services/csv_import_service.py:79-80 | once the loop has stopped on an exception, later rows change nothing |
| CsvImport.BlankRecordSkipped | backend/services/csv_import_service.py:55-56 | a row of empty cells adds neither an item nor an error |
| CsvImport.ParseCsv | backend/services/csv_import_service.py:30-82 | no header gives the empty-file error; a missing required column gives its message alone; otherwise exactly the items and errors of the record loop, record by record |
| CsvImport.FoundIsTaken | backend/services/csv_import_service.py:98-99 | a name found on the first search page is an active name |
| CsvImport.FirstPageSuffices | backend/services/csv_import_service.py:98-99 | while the search matches at most one page of rows, the duplicate test as written finds a name if and only if it is taken |
| CsvImport.ImportItems | backend/services/csv_import_service.py:85-114 | the entity's table and the three results are those of the import loop `ImportRun` over the items, in order; the audit log gains exactly the CREATE entries of the created rows, in order (`CreateLog`); no other table changes |
| CsvImport.ImportOne | backend/services/csv_import_service.py:96-112 | one item: a name already active (ignoring case) is a skip; otherwise the row is created and counted, or the failure is reported as `Error importing 'name': ...`, exactly as one step of `ImportRun` |
| CsvImport.ImportRunCounts | backend/services/csv_import_service.py:95-114 | every item is counted once, as created, skipped or failed; exactly `success` rows are appended, after the rows already stored |
| CsvImport.ImportRunNoDuplicates | backend/services/csv_import_service.py:97-101 | no created row repeats, ignoring case, the name of an active row before it, old or created earlier in the same upload |
| CsvImport.ImportSkipsTaken | backend/services/csv_import_service.py:99-101 | an item whose name is already active adds one skip and changes nothing else |
| CsvImport.ImportFresh | backend/services/csv_import_service.py:103-109 | items with new, distinct names (and numbers on `employees`) are all created, in order, with no skip and no error |
| ExportService.Clean | backend/services/export_service.py:20 | the dictionary keeps every pair but `is_active`, in order |
| ExportService.CleanAll | backend/services/export_service.py:18-21 | one cleaned dictionary per item, none holding `is_active` |
| ExportService.CleanItems | backend/services/export_service.py:35-38 | the loop cleans every item in order |
| ExportService.CleanKeepsUnflagged | backend/services/export_service.py:20 | cleaning a dictionary without `is_active` leaves it unchanged |
| ExportService.CleanedKeys | backend/services/export_service.py:20 | the keys of a cleaned dictionary are its keys without `is_active` |
| ExportService.CleanAround | backend/services/export_service.py:20 | removing the one `is_active` pair joins what came before and after it |
| ExportService.CleanEntityRow | backend/services/export_service.py:20 | an exported entity row holds id, name and both timestamps, and the employee number on `employees` |
| ExportService.ExportJson | backend/services/export_service.py:16-30 | the JSON body is the cleaned items, one per item, in order |
| ExportService.Lookup | backend/services/export_service.py:44 | the writer finds a field's value when the dictionary has the key, and none only when it lacks it |
| ExportService.Cells | backend/services/export_service.py:44 | each cell is the value under its field name, or empty text when the dictionary lacks it |
| ExportService.Records | backend/services/export_service.py:44 | `writerows` fails if and only if some dictionary has a key outside the field names, with the `ValueError` text naming the extra keys of the first such dictionary; otherwise the text is one line per dictionary, in order, each the cells under the field names |
| ExportService.CsvBody | backend/services/export_service.py:40-44 | no items give an empty body; otherwise the body is the header line of the first item's keys followed by one line per item, and it exists exactly when every item's keys are among those; a failure names the extra keys of an item |
| ExportService.ExportCsv | backend/services/export_service.py:33-52 | the CSV body is that of the cleaned items |
| ExportService.SameKeysExport | backend/services/export_service.py:42-44 | rows that all share the first row's keys never make the writer fail |
| ExportService.CellsOfOwnKeys | backend/services/export_service.py:44 | written under its own keys, a row gives its own values in order |
| ExportService.HeaderReadsBack | backend/services/export_service.py:42-43 | the header line parses back to the exported keys |
| CsvImport.FullPageHidesName | backend/services/csv_import_service.py:98-99 | as written: when a full page of newer rows merely contains the name, an older row with exactly that name is taken yet not found |
| CsvImport.FirstPageMissesDuplicate | backend/services/csv_import_service.py:98-99 | as written: twenty newer rows named `ab` hide the active row `a`, so importing `a` again would create a duplicate |
| DmtStore.ActiveRecord | backend/app/api/dmt.py:110 | `WHERE id = ? AND is_active = 1`: found if and only if an active row has the id, and the row found is that one |
| DmtStore.Newest | backend/app/api/dmt.py:82-90 | exactly the rows the condition picks, as many as match, newest `created_at` first |
| DmtStore.Select | backend/app/api/dmt.py:92-93 | the picked rows as dictionaries, one per matching row |
| DmtStore.FormColumnsAreColumns | backend/routes/dmt.py:197-215 | every column the HTML form writes exists in `dmt_records` |
| DmtStore.UnknownColumn | backend/app/api/dmt.py:151-154 | SQLite refuses a statement naming a column the table lacks: None if and only if every named column exists, otherwise the first unknown one |
| DmtStore.FirstUnknown | backend/app/api/dmt.py:151-154 | after known columns, the first unknown column is the one reported |
| DmtStore.Assign | backend/app/api/dmt.py:204-207 | assigning columns keeps every unassigned column, and each assigned column takes the last value given to it |
| DmtStore.LastAssignment | backend/app/api/dmt.py:204-207 | the last assignment splits off from those before it, for keys and for pairs |
| DmtStore.NewRecord | backend/app/api/dmt.py:151-154 | an inserted row has the id and status, is active, is stamped now, and holds each inserted value |
| DmtStore.InsertRecord | backend/app/api/dmt.py:151-154 | an unknown column fails with SQLite's message and a taken id with the unique-constraint message, neither writing; otherwise exactly the new row is appended |
| DmtStore.UpdateWhere | backend/app/api/dmt.py:204-209 | the row count is the number of rows the condition picks, and exactly those rows are rewritten, in place |
| DmtStore.NoneUpdated | backend/app/api/dmt.py:209 | a row count of zero means no row matched |
| DmtStore.ReadAfterUpdate | backend/app/api/dmt.py:221-222 | with unique ids, the updated active row reads back as its rewrite and every other id as before |
| DmtStore.GoneAfterDelete | backend/app/api/dmt.py:242-245 | after a soft delete the id no longer reads as active and every other id reads as before |
| DmtApi.Authenticated | backend/app/api/dmt.py:74-76 | a request passes if and only if a user is signed in, and otherwise fails with 401 |
| DmtApi.InRole | backend/app/api/dmt.py:232-236 | passes if and only if a user is signed in and holds one of the roles; 401 without a user, 403 with a user of another role |
| DmtApi.OnlyAdminsManage | backend/app/api/dmt.py:235 | no role of the `UserRole` enumeration is spelled `Quality Manager`, so among those roles only `Admin` passes the managers' check |
| DmtApi.ListRecords | backend/app/api/dmt.py:71-96 | 401 without a user; otherwise every active row whose description or part number contains the search text, each as often as stored, newest `created_at` first, as dictionaries, with `total` equal to their number |
| DmtApi.GetRecord | backend/app/api/dmt.py:99-117 | 401 without a user; found if and only if an active row has the id, otherwise 404; the dictionary returned is that row's |
| DmtApi.Values | backend/app/api/dmt.py:143 | the values inserted are, column by column in the given order, the submitted value or None |
| DmtApi.TitleNotAColumn | backend/database/connection.py:55-102 | `dmt_records` has no `title` column |
| DmtApi.TitleIsNoColumn | backend/app/api/dmt.py:137-143 | the first model field that is not a column is `title` |
| DmtApi.CreateAsWritten | backend/app/api/dmt.py:120-180 | as written: 401 without a user, and for every signed-in user a 500 naming the missing `title` column, with nothing written |
| DmtApi.CreateRecord | backend/app/api/dmt.py:120-180 | with only the form fields that are columns: 401 without a user; a taken id gives a 500 and writes nothing; otherwise the new open row is appended, a `CREATE` entry for the user is logged, and the row is returned |
| DmtApi.CreatedIsRead | backend/app/api/dmt.py:166-167 | a created row is read back by its id |
| DmtApi.CreatedCarriesData | backend/app/api/dmt.py:140-143 | the created row is open, active, and holds each submitted form value in its column |
| DmtApi.UpdateRecord | backend/app/api/dmt.py:183-225 | for a body of `DMTRecordUpdate` fields: 401 without a user; 400 with no field; a 500 for a field that is not a column; 404 when no active row has the id; otherwise the row is patched, an `UPDATE` entry is logged and the patched row returned; no failure writes |
| DmtApi.UpdatedIsRead | backend/app/api/dmt.py:221-222 | the patched row reads back by its id, and every other id reads as before |
| DmtApi.Transition | backend/app/api/dmt.py:305-336 | the shape shared by delete, close and reopen: the role check's failure; otherwise success if and only if a row matches, a 404 with the given message if none does; on success the matching rows are rewritten and one entry logged |
| DmtApi.DeleteRecord | backend/app/api/dmt.py:228-259 | managers only, otherwise the role check's 401 or 403 exactly; succeeds if and only if an active row has the id, then soft-deletes it and logs `DELETE`; otherwise 404 and no write |
| DmtApi.DeletedIsGone | backend/app/api/dmt.py:242-245 | after the delete the id reads as 404 and every other id as before |
| DmtApi.CloseAsWritten | backend/app/api/dmt.py:305-336 | as written: managers only, otherwise the role check's 401 or 403 exactly; succeeds for any active row, whatever its status, setting it `closed` and logging `CLOSE` |
| DmtApi.ReopenAsWritten | backend/app/api/dmt.py:339-370 | as written: Admins and Inspectors only, otherwise the role check's 401 or 403 exactly; succeeds for any active row, whatever its status, setting it `open` and logging `REOPEN` |
| DmtApi.SameStatusAgain | backend/app/api/dmt.py:319-326 | an active row already in the target status still matches the update as written, while the intended status test matches nothing |
| DmtApi.CloseRecord | backend/app/api/dmt.py:305-336 | corrected: succeeds if and only if the active row is `open`, so the "already closed" 404 means what it says |
| DmtApi.ReopenRecord | backend/app/api/dmt.py:339-370 | corrected: succeeds if and only if the active row is `closed` |
| DmtApi.CloseReopenRoundTrip | backend/app/api/dmt.py:305-370 | closing an open record leaves nothing open under its id, and reopening it restores every row, only `updated_at` moving |
| DmtApi.ExportRows | backend/app/api/dmt.py:277-285 | exactly the active rows created since the start of the day `days` days ago, when `days` is positive |
| DmtApi.ExportAsWritten | backend/app/api/dmt.py:262-302 | as written: the role check's 401 or 403 exactly; 404 when nothing is exported; the JSON export for `json`; 400 for other formats; and a 500 for every `csv` request, since the response object has no `encode` |
| DmtApi.ExportRecords | backend/app/api/dmt.py:262-302 | corrected: the same, except that `csv` returns the CSV text of the cleaned rows, and that text always exists |
| DmtApi.ExportableRecords | backend/app/api/dmt.py:292 | the CSV writer never fails on `dmt_records` rows, since they all share the same keys |
| DmtRoutes.DashboardStats | backend/routes/dmt.py:31-55 | one count per dashboard entity, in the listed order, of its active rows; the active record count; the active `open` and `closed` counts, which together never exceed it |
| DmtRoutes.Recent | backend/routes/dmt.py:57-59 | the first ten of the active records newest first, or all of them when fewer: each one stored and active, no record more often than stored, and none older than an active record left out |
| DmtRoutes.RecordsPage | backend/routes/dmt.py:66-96 | `total` counts the active records whose id, part number, shop order or status contains the search text; the page holds at most twenty of them, all matching, newest first, and the first page is full when that many exist |
| DmtRoutes.RecordPagesArePrefix | backend/routes/dmt.py:87-91 | pages 1 to k, concatenated, are the first `20 k` matching records: paging neither skips nor repeats one |
| DmtRoutes.FormFields | backend/routes/dmt.py:197-215 | the form writes every report column in order, each with its submitted text, empty when not submitted |
| DmtRoutes.RecordId | backend/routes/dmt.py:195 | the new id is the first eight characters of the UUID text, upper-cased |
| DmtRoutes.CreateFromForm | backend/routes/dmt.py:159-229 | a taken id fails the primary key and writes nothing; otherwise the open row is appended, a `CREATE` entry with no user is logged and the success toast names the id |
| DmtRoutes.EditForm | backend/routes/dmt.py:232-269 | the edit form opens if and only if an active row has the id, on that row; otherwise the not-found toast |
| DmtRoutes.CreatedFormIsRead | backend/routes/dmt.py:240-247 | a record created from the form opens for editing, is open, and shows each submitted value in its column |
| DmtRoutes.NewRecordWrites | backend/routes/dmt.py:197-215 | each form column of the created row holds the submitted text |
| DmtRoutes.UpdateFromForm | backend/routes/dmt.py:272-342 | every active row with the id gets the submitted columns and status; an `UPDATE` entry is logged and the success toast shown whether or not a row matched |
| DmtRoutes.FormUpdateIsRead | backend/routes/dmt.py:310-329 | after the update the record opens with the submitted status and column values, and every other id reads as before |
| DmtRoutes.FormEditWrites | backend/routes/dmt.py:310-320 | the rewrite keeps the id and active flag, and sets the status and every form column |
| DmtRoutes.MissingUpdateChangesNothing | backend/routes/dmt.py:320 | an update naming no active record leaves every row as it was, though the audit entry is still written |
| DmtRoutes.DeleteFromForm | backend/routes/dmt.py:345-381 | every row with the id, active or not, is deactivated; a `DELETE` entry is logged; the answer is the first page of the remaining list with the success toast |
| DmtRoutes.DeletedNotListed | backend/routes/dmt.py:352-375 | after the delete the id appears on no page and no longer opens for editing |
| DmtRoutes.ExportedRecords | backend/routes/dmt.py:391-399 | exactly the active records, created within the last `days` days when `days` is truthy, each as often as stored, newest first |
| DmtRoutes.ExportWindow | backend/routes/dmt.py:394-395 | `days` of 0 filters nothing; a negative `days` makes the date modifier invalid and exports nothing |
| DmtRoutes.ExportFromRoute | backend/routes/dmt.py:384-406 | `csv` gives the CSV text of the cleaned records, and that text always exists; any other format the JSON export |
| EntitiesApi.Resolve | backend/app/api/entities.py:23-30 | 401 without a user, 400 for a name that is no entity type; passes if and only if both hold, with the entity type whose table has that name |
| EntitiesApi.ListEntities | backend/app/api/entities.py:20-36 | the resolution failure, or the first page of the active rows whose name contains the search text, newest first: `total` counts them all and the page is the first `min(20, total)` of them |
| EntitiesApi.ExportAll | backend/app/api/entities.py:53-64 | the page-by-page loop collects exactly every listed row, newest first |
| EntitiesApi.ItemDicts | backend/app/api/entities.py:57 | each row becomes its table's dictionary, in order |
| EntitiesApi.ExportableItems | backend/app/api/entities.py:67 | the CSV writer never fails on rows of one entity table |
| EntitiesApi.CleanedItemKeys | backend/app/api/entities.py:66-69 | every exported row has its table's columns without `is_active` |
| EntitiesApi.ExportEntities | backend/app/api/entities.py:39-69 | the resolution failure, or the CSV text (always produced) for `csv` and the JSON export for any other format, of every listed row |
| EntitiesApi.CreateStoresNumber | backend/app/api/entities.py:86-89 | a created row holds an employee number exactly on `employees` with a submitted number that is not blank, and then the stripped number |
| EntitiesApi.UpdateWritesNumber | backend/app/api/entities.py:108-111 | an update on `employees` with a number given writes the stripped number; any other update keeps the old one |
| EntitiesApi.CreateEntity | backend/app/api/entities.py:72-91 | the resolution failure with no write; a taken short id gives a 500 with no write; otherwise the row with the stripped name is created and a `CREATE` entry logged |
| EntitiesApi.UpdateEntity | backend/app/api/entities.py:94-116 | the resolution failure; 404 when no row has the id; otherwise the row is renamed to the stripped name, an `UPDATE` entry logged and the row returned; no failure writes |
| EntitiesApi.DeleteEntity | backend/app/api/entities.py:119-138 | the resolution failure; success if and only if a row has the id, then soft-deleted with a `DELETE` entry; otherwise 404 and no write |
| EntityRoutes.TotalPages | backend/app/entities/routes.py:28 | the ceiling of `total / PAGE_SIZE`: enough pages for every row, no empty last page, and none for no rows |
| EntityRoutes.ItemsList | backend/app/entities/routes.py:41-58 | the list view: `total` counts the active rows whose name contains the search text; a page within the page count is never empty and one beyond it always is; every row shown is active |
| EntityRoutes.PagerShowsAll | backend/app/entities/routes.py:28 | walking pages 1 to `total_pages` shows every matching row once, in order |
| EntityRoutes.Entity | backend/app/entities/routes.py:24 | `EntityType(entity)` succeeds if and only if the name is an entity type's table name; otherwise the `ValueError` surfaces as a 500 |
| EntityRoutes.GetItems | backend/app/entities/routes.py:41-58 | an unknown entity is a 500; otherwise the requested page number, the count of matching rows, and exactly the window of 20 matching rows, newest first, at that page's offset |
| EntityRoutes.CreateItem | backend/app/entities/routes.py:61-91 | an unknown entity or a taken short id is a 500 and writes nothing; otherwise the row with the stripped name is appended, its CREATE entry logged, and the first page shown with the created toast |
| EntityRoutes.EditForm | backend/app/entities/routes.py:155-172 | an unknown entity is a 500; the edit form opens if and only if an active row has the id, on that row; otherwise the not-found toast |
| EntityRoutes.UpdateItem | backend/app/entities/routes.py:175-210 | an unknown entity is a 500; no row with the id gives the not-found toast and no write; otherwise the row is renamed, its UPDATE entry with the old and new values logged, and the first page shown with the updated toast |
| EntityRoutes.DeleteItem | backend/app/entities/routes.py:213-237 | an unknown entity is a 500; no row with the id gives the not-found toast and no write; otherwise it is soft-deleted, its DELETE entry logged, and the first page shown with the deleted toast |
| EntityRoutes.ErrorSummary | backend/app/entities/routes.py:113-115 | the first five errors joined by `<br>`, followed by the count of the others only when there are more |
| EntityRoutes.ImportMessage | backend/app/entities/routes.py:142-146 | the message starts with the imported count |
| EntityRoutes.ImportMessageReadsBack | backend/app/entities/routes.py:142-146 | the skipped clause appears if and only if something was skipped, and the errors clause if and only if an error occurred |
| EntityRoutes.ImportKind | backend/app/entities/routes.py:148 | the toast is `info` exactly when an import error occurred, `success` otherwise |
| EntityRoutes.UploadCsv | backend/app/entities/routes.py:94-152 | a file not named `.csv` is refused; parse errors give the `CSV parsing errors:` toast with their summary, no items the no-items toast, and an unknown entity the upload-failed toast, each writing nothing; otherwise the items are imported (the entity's table is that of `ImportRun`, the audit log gains exactly the CREATE entries of the created rows in order, other tables untouched, no new duplicate name) and the first page is shown with the import message of the exact counts, `info` exactly when errors occurred |
| EntityRoutes.ZeroDaysListAll | backend/app/entities/routes.py:246 | `days` of 0 lists the same rows as no `days` at all |
| EntityRoutes.ExportData | backend/app/entities/routes.py:240-277 | an unknown entity is a 500; otherwise every listed row, exported as CSV text (always produced) for `csv` and as JSON for any other format |
| Encoding.Utf8RoundTrip | backend/auth/auth.py:71 | the UTF-8 bytes of a text, as `.encode()` makes them, decode back to the text |
| Encoding.Utf8Injective | backend/auth/auth.py:71 | two texts with the same UTF-8 bytes are equal |
| Encoding.Base64RoundTrip | src/lib/mock-db.ts:7 | the Base64 text of a byte string (section 4 of RFC 4648) decodes back to the bytes |
| Encoding.Base64Injective | src/lib/mock-db.ts:7 | two byte strings with the same Base64 text are equal |
| Encoding.Hex | backend/auth/auth.py:70-71 | lower-case hexadecimal, two characters per byte, never containing `$` |
| Encoding.HexRoundTrip | backend/auth/auth.py:71 | the hexadecimal text of a byte string reads back as the bytes |
| Encoding.HexInjective | backend/auth/auth.py:79 | two digests with the same hexadecimal text are equal |
| Decimal.Format04 | backend/app/services/dmt_service.py:40 | `{:04d}`: at least four digits, and exactly the plain decimal digits from 1000 on |
| Decimal.Format04Value | backend/app/services/dmt_service.py:40 | the padded digits denote the number |
| Decimal.ParseFormat04 | backend/app/services/dmt_service.py:33 | `int()` reads the padded digits back as the number |
| Decimal.ParseIntToString | backend/app/services/dmt_service.py:33 | `int()` reads back the decimal text of any integer, sign included |
| Decimal.ParseInt | backend/app/services/dmt_service.py:33 | `int()` succeeds only on text that is not blank once stripped, and a negative result comes only from a leading `-` |
| Decimal.ParsePlain | backend/app/services/dmt_service.py:33 | a numeral of ASCII digits, with white space around it, reads as its value |
| Decimal.ParseNegative | backend/app/services/dmt_service.py:33 | `-` followed by a numeral reads as the negated value |
| Decimal.ParseGrouped | backend/app/services/dmt_service.py:33 | an underscore between digits is accepted: text that strips to `1_000` reads as 1000 |
| Decimal.ParseMisgrouped | backend/app/services/dmt_service.py:33-35 | a doubled, leading or trailing underscore is a `ValueError` |
| Strings.LikeIsCaseBlind | backend/repositories/base_repository.py:39-40 | SQLite's `LIKE` ignores the case of ASCII letters, in the column and in the pattern alike |
| Strings.StripEmptyIffBlank | backend/services/csv_import_service.py:59 | a value strips to nothing if and only if every character of it is white space as `str.isspace` defines it (the ASCII blanks, the separators `\x1c`-`\x1f`, and the Unicode spaces) |

## Left out

- Case folding is ASCII only: JavaScript `toLowerCase`, Python `lower` and SQLite `LIKE` fold only the letters A to Z in the model. Python `strip` removes exactly the characters `str.isspace` accepts.
- SQL `LIKE '%t%'` is a substring test: `%` and `_` inside a search term are taken literally, and numeric columns are compared as their text.
- The clock is one integer of seconds (milliseconds in the TypeScript stores). Timestamps compared as text in SQLite, time zones and the ISO format of `toISOString` are not modelled.
- UUIDs, `secrets.token_hex`, `Math.random` session tokens and SHA-256 are parameters. Their uniqueness and collision resistance are not assumed; a taken id is handled as the database would handle it.
- A failing database call is modelled only where the source catches it: the audit service, `get_assignable_users`, `authenticate_user` in `auth.py`, and the report-number fallback. Everywhere else a database failure is outside the model.
- Auth.UserTable.CreateUser, Auth.UserTable.UpdateUser and Auth.UserTable.SetActive: the catch-all `except Exception` branches of `create_user`, `update_user`, `delete_user` and `activate_user` (a failing connection or statement answers `False`) have no failure input; only the integrity errors (a taken username or id) are modelled.
- The `PAGE_SIZE` environment override is not modelled; the page size is the default of 20.
- `rework_hours`, `material_scrap_cost` and `others_cost` are floats in the REST model. They are stored as values that are copied, never computed with.
- Pydantic validation of request bodies is modelled only as the field names an update body may carry (`DMTRecordUpdate`); value types and required fields are not checked, and a body is otherwise a map from field names to values.
- The second `create_dmt_record` in `backend/app/api/dmt.py:376-449` is not modelled. FastAPI keeps the first route registered for that path, and the second one uses `datetime`, which the file never imports.
- HTML templates, toasts and `get_entity_info` are not modelled as markup. A reply is its data plus the toast's text and kind, and the entity's display label is a parameter.
- CSV import takes the file as already decoded and split into a header and records. UTF-8 decoding errors, `csv.Error` and the reader's quoting rules are not modelled; the CSV reader is modelled only far enough to read back what the writer produces.
- `file.read` failures in the upload route are not modelled.
- Rows with equal sort keys come out in one fixed order (a stable insertion sort). SQLite leaves that order unspecified.
- The REST export has no `ORDER BY`, so its rows come in table order.
- JSON text (`json.dumps` with its indentation) is not produced; a JSON export is the list of cleaned dictionaries.
- `db-helpers.ts`: `users.findByUsername`, `users.list`, `users.create`, `users.update`, `users.verifyPassword`, `dmt.create`, `audit.*` and `entity.*` are single ORM calls with no rule of their own beyond what `client-db.ts` and `mock-db.ts` already state. They are not modelled.
- `client-db.ts`: `users.*` are the same single ORM calls as in `db-helpers.ts` and are not modelled. `entity.list` is a plain newest-first select. The WASM loading and the `localStorage` persistence (lines 12-56 and 276-290) are storage plumbing.
- `mock-db.ts`: `users.list` and `audit.list` return their arrays unchanged and need no model.
- `Auth.UserTable.UpdateAt` is an internal step of `update_user`, with no source counterpart of its own.
- React pages and components, the HTTP client, `connection.py` (schema only, used for the column names), the app wiring and the thin HTTP wrappers over the functions above are not modelled.
- EntityRoutes.UploadCsv: imports with the corrected duplicate test of `CsvImport.ImportItems` (see Findings).
- CsvImport.ImportItems: uses the intended duplicate test over all active rows, not the first search page (see Findings).
- Decimal.ParseInt: accepts the ASCII digits 0 to 9 only. Python's `int()` also accepts every other Unicode decimal digit (Arabic-Indic, full-width and so on); such text is a parse error in the model.
- MockDb.VerifyPasswordExact: holds for strings of Unicode scalar values. JavaScript's `TextEncoder` turns a lone surrogate into U+FFFD, so two different strings with lone surrogates can share a hash there; the model's strings carry no lone surrogates.
- DbHelpers.ApplyPatch: the patch has no `id` column. `Partial<$inferInsert>` would accept one, but rewriting a primary key through `dmt.update` (and the UNIQUE failure it can raise) is not modelled, so the updated row keeps its id.
- ClientDb.ApplyDmtPatch: the patch has no `id` column, for the same reason as `DbHelpers.ApplyPatch`; `createdAt`, `updatedAt` and the other columns may be supplied.
- ExportService.Records: the `ValueError` text lists the extra keys in the dictionary's order, each between single quotes. Python lists them in the order of a `set`, which differs for more than one extra key, and `repr` escapes quotes and backslashes inside a key.

## Findings

| source | as written | input that shows it | evidently intended | confidence | as-written member | corrected member |
|---|---|---|---|---|---|---|
| backend/app/api/dmt.py:137-143 | the insert names every field of the request model, including `title`, `category`, `severity` and the other form-only fields, none of which is a column of `dmt_records` | any signed-in `POST /api/dmt`: SQLite refuses the unknown column `title` (shown by `DmtApi.TitleIsNoColumn`), so every create ends in a 500 | insert only the fields that are columns of the table | not executed | DmtApi.CreateAsWritten | DmtApi.CreateRecord |
| backend/app/api/dmt.py:292-294 | `ExportService.export_csv` already returns a `StreamingResponse`, and the handler calls `.encode('utf-8')` on it | an Admin exporting `csv` while at least one record is active: the attribute error gives a 500 | return the CSV text of the cleaned records | not executed | DmtApi.ExportAsWritten | DmtApi.ExportRecords |
| backend/app/api/dmt.py:319-326 | the close `UPDATE` matches any active row, whatever its status, so the "already closed" 404 never happens for an active record | closing an active record whose status is already `closed` succeeds and logs a second `CLOSE` (shown by `DmtApi.SameStatusAgain`) | close only an `open` record, and answer 404 otherwise | not executed | DmtApi.CloseAsWritten | DmtApi.CloseRecord |
| backend/app/api/dmt.py:353-360 | the reopen `UPDATE` matches any active row, whatever its status, so the "already open" 404 never happens for an active record | reopening an active record whose status is `open` succeeds and logs a `REOPEN` | reopen only a `closed` record, and answer 404 otherwise | not executed | DmtApi.ReopenAsWritten | DmtApi.ReopenRecord |
| backend/services/csv_import_service.py:98-99 | the duplicate test looks only at the first page of `get_all(search=name)`, which holds the 20 newest rows whose name merely contains the item's name | an active row `a` created before twenty rows named `ab`: importing `a` finds no match on that page and creates a duplicate | skip an item whose name equals any active name, ignoring case | not executed | CsvImport.FirstPageMissesDuplicate | CsvImport.ImportItems |
