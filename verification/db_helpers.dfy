/** The database-backed helpers: a users table and a DMT table behind an ORM.
    Each helper is one query; the tables are sequences of rows, `WHERE id = ?`
    is a filter on the id column and `ORDER BY created_at DESC` is a sort.
    The session map of this file is the one of module `Sessions`. */
module DbHelpers {
  import opened Common
  import opened Seqs
  import opened Strings

  datatype UserRow = UserRow(id: int, username: string, role: string, isActive: bool)

  datatype DmtRow = DmtRow(
    id: int, dmtNumber: string, title: string, description: string, status: string,
    createdAt: int, updatedAt: int)

  /** The columns an update may set (`Partial<...>` without the key). */
  datatype DmtPatch = DmtPatch(
    dmtNumber: Option<string>, title: Option<string>, description: Option<string>,
    status: Option<string>, createdAt: Option<int>, updatedAt: Option<int>)

  datatype DmtStats = DmtStats(total: nat, open: nat, inProgress: nat, closed: nat)

  /** `ORDER BY created_at DESC`. */
  function NewestFirst(): (DmtRow, DmtRow) -> bool {
    (a: DmtRow, b: DmtRow) => a.createdAt >= b.createdAt
  }

  lemma NewestFirstIsTotal()
    ensures TotalPreorder(NewestFirst())
  {
  }

  /** The `or(like(...))` of `dmt.list`: the term occurs, ignoring ASCII case,
      in the number, the title or the description. */
  predicate Matches(r: DmtRow, term: string) {
    Like(r.dmtNumber, term) || Like(r.title, term) || Like(r.description, term)
  }

  function MatchesTerm(term: string): DmtRow -> bool {
    (x: DmtRow) => Matches(x, term)
  }

  /** `dmt.list(search)`: all rows when the search is absent or empty, otherwise
      the matching rows; newest first either way. */
  function ListDmt(rows: seq<DmtRow>, search: Option<string>): (r: seq<DmtRow>)
    ensures forall x :: x in r <==> x in rows && (search.None? || search.value == [] || Matches(x, search.value))
    ensures SortedBy(r, NewestFirst())
    ensures search.None? || search.value == [] ==> multiset(r) == multiset(rows)
    ensures search.Some? && search.value != [] ==> multiset(r) == multiset(Filter(rows, MatchesTerm(search.value)))
    ensures |r| <= |rows|
  {
    NewestFirstIsTotal();
    var selected := if search.None? || search.value == [] then rows
                    else Filter(rows, MatchesTerm(search.value));
    SortMembers(selected, NewestFirst());
    Sort(selected, NewestFirst())
  }

  /** `limit(1)` on `WHERE id = ?`: the first row with the id. */
  function FindDmtById(rows: seq<DmtRow>, id: int): (r: Option<DmtRow>)
    ensures r.Some? <==> exists x :: x in rows && x.id == id
    ensures r.Some? ==> r.value in rows && r.value.id == id
  {
    Find(rows, (x: DmtRow) => x.id == id)
  }

  function FindUserById(rows: seq<UserRow>, id: int): (r: Option<UserRow>)
    ensures r.Some? <==> exists u :: u in rows && u.id == id
    ensures r.Some? ==> r.value in rows && r.value.id == id
  {
    Find(rows, (u: UserRow) => u.id == id)
  }

  /** `.set({ ...data, updatedAt: now })`: the patch is merged and the update
      time is the clock's, whatever the patch says. */
  function ApplyPatch(x: DmtRow, p: DmtPatch, now: int): (y: DmtRow)
    ensures y.id == x.id && y.updatedAt == now
    ensures p.dmtNumber.Some? ==> y.dmtNumber == p.dmtNumber.value
    ensures p.dmtNumber.None? ==> y.dmtNumber == x.dmtNumber
    ensures p.title.Some? ==> y.title == p.title.value
    ensures p.title.None? ==> y.title == x.title
    ensures p.description.Some? ==> y.description == p.description.value
    ensures p.description.None? ==> y.description == x.description
    ensures p.status.Some? ==> y.status == p.status.value
    ensures p.status.None? ==> y.status == x.status
    ensures p.createdAt.Some? ==> y.createdAt == p.createdAt.value
    ensures p.createdAt.None? ==> y.createdAt == x.createdAt
  {
    DmtRow(x.id, p.dmtNumber.GetOr(x.dmtNumber), p.title.GetOr(x.title), p.description.GetOr(x.description),
           p.status.GetOr(x.status), p.createdAt.GetOr(x.createdAt), now)
  }

  /** A patch that supplies nothing, or only an update time, only re-stamps the row. */
  lemma EmptyPatchStamps(x: DmtRow, updatedAt: Option<int>, now: int)
    ensures ApplyPatch(x, DmtPatch(None, None, None, None, None, updatedAt), now) == x.(updatedAt := now)
  {
  }

  function HasStatus(status: string): DmtRow -> bool {
    (x: DmtRow) => x.status == status
  }

  function CountStatus(rows: seq<DmtRow>, status: string): nat {
    |Filter(rows, HasStatus(status))|
  }

  /** `dmt.getStats`: counts over every row, with no draft filter. */
  function GetStats(rows: seq<DmtRow>): (s: DmtStats)
    ensures s.total == |rows|
    ensures s.open == CountStatus(rows, "Open")
    ensures s.inProgress == CountStatus(rows, "In Progress")
    ensures s.closed == CountStatus(rows, "Closed")
    ensures s.open + s.inProgress + s.closed <= s.total
  {
    StatusCountsBound(rows);
    DmtStats(|rows|, CountStatus(rows, "Open"), CountStatus(rows, "In Progress"), CountStatus(rows, "Closed"))
  }

  /** The three status counts never exceed the row count, since a row has one status. */
  lemma StatusCountsBound(rows: seq<DmtRow>)
    ensures CountStatus(rows, "Open") + CountStatus(rows, "In Progress") + CountStatus(rows, "Closed") <= |rows|
  {
    CountUnion(rows, HasStatus("In Progress"), HasStatus("Closed"));
    CountDisjoint(rows, HasStatus("Open"), Either(HasStatus("In Progress"), HasStatus("Closed")));
  }

  class Store {
    var users: seq<UserRow>
    var dmtRecords: seq<DmtRow>

    constructor ()
      ensures users == [] && dmtRecords == []
    {
      users := [];
      dmtRecords := [];
    }

    /** `users.delete`: removes every row with the id and answers true, whether
        or not a row existed. */
    method DeleteUser(id: int) returns (ok: bool)
      modifies this
      ensures ok
      ensures users == Filter(old(users), (u: UserRow) => u.id != id)
      ensures forall u :: u in users ==> u.id != id
      ensures dmtRecords == old(dmtRecords)
    {
      users := Filter(users, (u: UserRow) => u.id != id);
      ok := true;
    }

    /** `dmt.update`: every row with the id gets the patch and the clock's
        update time; the first updated row is returned, or nothing when no
        row has the id. */
    method UpdateDmt(id: int, patch: DmtPatch, now: int) returns (r: Option<DmtRow>)
      modifies this
      ensures dmtRecords == Map(old(dmtRecords), (x: DmtRow) => if x.id == id then ApplyPatch(x, patch, now) else x)
      ensures forall i :: 0 <= i < |dmtRecords| && old(dmtRecords)[i].id == id ==> dmtRecords[i].updatedAt == now
      ensures forall i :: 0 <= i < |dmtRecords| && old(dmtRecords)[i].id != id ==> dmtRecords[i] == old(dmtRecords)[i]
      ensures r.Some? <==> exists x :: x in old(dmtRecords) && x.id == id
      ensures r.Some? ==> r.value.id == id && r.value.updatedAt == now && r.value in dmtRecords
      ensures users == old(users)
    {
      var before := dmtRecords;
      dmtRecords := Map(dmtRecords, (x: DmtRow) => if x.id == id then ApplyPatch(x, patch, now) else x);
      r := FindDmtById(dmtRecords, id);
      FindAfterMap(before, (x: DmtRow) => if x.id == id then ApplyPatch(x, patch, now) else x, (x: DmtRow) => x.id == id);
    }

    /** `dmt.delete`: removes every row with the id and answers true, whether
        or not a row existed. */
    method DeleteDmt(id: int) returns (ok: bool)
      modifies this
      ensures ok
      ensures dmtRecords == Filter(old(dmtRecords), (x: DmtRow) => x.id != id)
      ensures forall x :: x in dmtRecords ==> x.id != id
      ensures users == old(users)
    {
      dmtRecords := Filter(dmtRecords, (x: DmtRow) => x.id != id);
      ok := true;
    }
  }

  /** Deleting is idempotent: a second delete of the same id removes nothing more. */
  lemma DeleteTwice(rows: seq<DmtRow>, id: int)
    ensures var once := Filter(rows, (x: DmtRow) => x.id != id);
            Filter(once, (x: DmtRow) => x.id != id) == once
  {
    var once := Filter(rows, (x: DmtRow) => x.id != id);
    FilterAll(once, (x: DmtRow) => x.id != id);
  }

  /** A search term selects a subset of what the empty search lists. */
  lemma SearchNarrows(rows: seq<DmtRow>, term: string)
    ensures forall x :: x in ListDmt(rows, Some(term)) ==> x in ListDmt(rows, None)
  {
  }
}
