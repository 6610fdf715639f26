/** Request authentication for the API routes: the `session_id` cookie names a
    session in the session map, whose user id is looked up in the users table. */
module AuthMiddleware {
  import opened Common
  import opened Sessions
  import opened DbHelpers

  /** What `getCurrentUser` answers for a cookie, a session map, a users table
      and an instant: the user of a live session whose user still exists. */
  function CurrentUser(cookie: Option<string>, sessions: map<string, Session>, users: seq<UserRow>, now: int)
    : (r: Option<UserRow>)
    ensures r.Some? <==>
              cookie.Some? && cookie.value != [] && Lookup(sessions, cookie.value, now).Some?
              && exists u :: u in users && u.id == sessions[cookie.value].userId
    ensures r.Some? ==> r.value in users && r.value.id == sessions[cookie.value].userId
  {
    if cookie.None? || cookie.value == [] then None
    else match Lookup(sessions, cookie.value, now)
      case None => None
      case Some(s) => FindUserById(users, s.userId)
  }

  /** The request carries a non-empty cookie whose session has expired. */
  predicate CookieExpired(cookie: Option<string>, sessions: map<string, Session>, now: int) {
    cookie.Some? && cookie.value != [] && cookie.value in sessions && sessions[cookie.value].expiresAt < now
  }

  /** `getCurrentUser(request)`: the only change to the session map is the
      eviction of the cookie's own session when it has expired. */
  method GetCurrentUser(cookie: Option<string>, store: SessionStore, users: seq<UserRow>, now: int)
    returns (u: Option<UserRow>)
    modifies store
    ensures u == CurrentUser(cookie, old(store.sessions), users, now)
    ensures CookieExpired(cookie, old(store.sessions), now) ==> store.sessions == old(store.sessions) - {cookie.value}
    ensures !CookieExpired(cookie, old(store.sessions), now) ==> store.sessions == old(store.sessions)
  {
    if cookie.None? || cookie.value == [] {
      return None;
    }
    var session := store.Get(cookie.value, now);
    if session.None? {
      return None;
    }
    u := FindUserById(users, session.value.userId);
  }

  /** `requireAuth(user)`: a user is present and active. */
  predicate RequireAuth(user: Option<UserRow>) {
    user.Some? && user.value.isActive
  }

  /** `requireAdmin(user)`: an authenticated user whose role is "Admin". */
  predicate RequireAdmin(user: Option<UserRow>) {
    RequireAuth(user) && user.value.role == "Admin"
  }

  /** Nobody is authorised through an expired session, however the tables look. */
  lemma ExpiredSessionIsAnonymous(cookie: string, sessions: map<string, Session>, users: seq<UserRow>, now: int)
    requires cookie in sessions && sessions[cookie].expiresAt < now
    ensures CurrentUser(Some(cookie), sessions, users, now).None?
    ensures !RequireAuth(CurrentUser(Some(cookie), sessions, users, now))
  {
  }

  /** A session whose user was deleted authorises nobody. */
  lemma DeletedUserIsAnonymous(cookie: string, sessions: map<string, Session>, users: seq<UserRow>, now: int)
    requires cookie in sessions && forall u :: u in users ==> u.id != sessions[cookie].userId
    ensures CurrentUser(Some(cookie), sessions, users, now).None?
  {
  }

  /** Administrators are a subset of authenticated users: exactly the active ones with role "Admin". */
  lemma AdminIsAuthenticated(user: Option<UserRow>)
    ensures RequireAdmin(user) ==> RequireAuth(user)
    ensures RequireAdmin(user) <==> user.Some? && user.value.isActive && user.value.role == "Admin"
    ensures user.Some? && !user.value.isActive ==> !RequireAuth(user) && !RequireAdmin(user)
  {
  }
}
