/** The in-memory session map shared in shape by the mock store and the
    database helpers: a `Map` from session id to the logged-in user and an
    expiry instant in milliseconds. Reading an expired session evicts it. */
module Sessions {
  import opened Common

  /** Sessions last 24 hours, in milliseconds. */
  const SESSION_TTL_MS: int := 24 * 60 * 60 * 1000

  datatype Session = Session(userId: int, username: string, expiresAt: int)

  /** What `get` hands back: the user of a live session. */
  datatype SessionUser = SessionUser(userId: int, username: string)

  /** What `get` returns for a given map and instant, without its eviction side effect. */
  function Lookup(m: map<string, Session>, token: string, now: int): (r: Option<SessionUser>)
    ensures r.Some? <==> token in m && m[token].expiresAt >= now
    ensures r.Some? ==> r.value.userId == m[token].userId && r.value.username == m[token].username
  {
    if token !in m then None
    else if m[token].expiresAt < now then None
    else Some(SessionUser(m[token].userId, m[token].username))
  }

  /** A session created at `t0` is live exactly through `t0 + 24h`. */
  lemma FreshSessionLifetime(m: map<string, Session>, token: string, userId: int, username: string, t0: int, now: int)
    ensures Lookup(m[token := Session(userId, username, t0 + SESSION_TTL_MS)], token, now).Some?
            <==> now <= t0 + 86_400_000
  {
  }

  class SessionStore {
    var sessions: map<string, Session>

    constructor ()
      ensures sessions == map[]
    {
      sessions := map[];
    }

    /** `sessions.create`: stores one entry under `token` (the caller's random id)
        expiring 24 hours after `now`, and returns the id. */
    method Create(token: string, userId: int, username: string, now: int) returns (id: string)
      modifies this
      ensures id == token
      ensures sessions == old(sessions)[token := Session(userId, username, now + SESSION_TTL_MS)]
      ensures Lookup(sessions, id, now) == Some(SessionUser(userId, username))
    {
      sessions := sessions[token := Session(userId, username, now + SESSION_TTL_MS)];
      id := token;
    }

    /** `sessions.get`: the user of a live session; an expired session is
        removed and reads as absent; an unknown id changes nothing. */
    method Get(token: string, now: int) returns (r: Option<SessionUser>)
      modifies this
      ensures r == Lookup(old(sessions), token, now)
      ensures token !in old(sessions) ==> sessions == old(sessions)
      ensures token in old(sessions) && old(sessions)[token].expiresAt < now
              ==> sessions == old(sessions) - {token}
      ensures token in old(sessions) && old(sessions)[token].expiresAt >= now
              ==> sessions == old(sessions)
      ensures sessions.Keys <= old(sessions.Keys)
    {
      if token !in sessions {
        return None;
      }
      var s := sessions[token];
      if s.expiresAt < now {
        sessions := sessions - {token};
        return None;
      }
      r := Some(SessionUser(s.userId, s.username));
    }

    /** `sessions.delete`: removes only the given id; deleting twice is deleting once. */
    method Delete(token: string)
      modifies this
      ensures sessions == old(sessions) - {token}
      ensures token !in sessions
      ensures forall t :: t in old(sessions) && t != token ==> t in sessions && sessions[t] == old(sessions)[t]
    {
      sessions := sessions - {token};
    }
  }

  /** Eviction is permanent: once `get` has found a session expired, later
      reads of that id return null at any instant, until the id is created anew. */
  method EvictionIsPermanent(store: SessionStore, token: string, now: int, later: int)
    returns (first: Option<SessionUser>, second: Option<SessionUser>)
    requires token in store.sessions && store.sessions[token].expiresAt < now
    modifies store
    ensures first.None? && second.None?
    ensures token !in store.sessions
  {
    first := store.Get(token, now);
    second := store.Get(token, later);
  }

  /** Once expired, a session stays expired at every later instant. */
  lemma ExpiryIsMonotone(m: map<string, Session>, token: string, now: int, later: int)
    requires later >= now
    requires Lookup(m, token, now).None?
    ensures Lookup(m, token, later).None?
  {
  }
}
