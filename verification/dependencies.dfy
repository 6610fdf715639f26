/** The request dependencies of the service API: the session's `user`
    dictionary, or the `HTTPException` raised for a missing, inactive or
    unauthorised user. The session value is `None` when the session holds no
    `user` key. */
module Dependencies {
  import opened Common
  import opened Strings

  /** A session user dictionary. */
  type UserDict = map<string, Value>

  /** `not user` for the session value: absent, or an empty dictionary. */
  predicate Missing(user: Option<UserDict>) {
    user.None? || user.value == map[]
  }

  /** `get_current_user`: 401 exactly when the session has no user. */
  function GetCurrentUser(user: Option<UserDict>): (r: Outcome<UserDict>)
    ensures r.Fail? <==> Missing(user)
    ensures r.Fail? ==> r == Fail(401, "Not authenticated")
    ensures r.Pass? ==> Some(r.value) == user
  {
    if Missing(user) then Fail(401, "Not authenticated") else Pass(user.value)
  }

  /** `get_current_active_user`: after the 401 check, 403 when `is_active` is
      absent or falsy. */
  function GetCurrentActiveUser(user: Option<UserDict>): (r: Outcome<UserDict>)
    ensures Missing(user) ==> r == Fail(401, "Not authenticated")
    ensures !Missing(user) && !Truthy(Get(user.value, "is_active")) ==> r == Fail(403, "Inactive user")
    ensures r.Pass? <==> !Missing(user) && Truthy(Get(user.value, "is_active"))
    ensures r.Pass? ==> Some(r.value) == user
  {
    match GetCurrentUser(user)
    case Fail(code, detail) => Fail(code, detail)
    case Pass(u) => if !Truthy(Get(u, "is_active")) then Fail(403, "Inactive user") else Pass(u)
  }

  /** `user_role in allowed_roles`: only a text role can equal an allowed name. */
  predicate RoleAllowed(u: UserDict, allowedRoles: seq<string>) {
    Get(u, "role").Text? && Get(u, "role").s in allowedRoles
  }

  /** The 403 detail of `require_role`. */
  function InsufficientDetail(allowedRoles: seq<string>): string {
    "Insufficient permissions. Required roles: " + Join(allowedRoles, ", ")
  }

  /** `require_role(*allowed_roles)` applied to the session user: the 401
      check, then the inactive check, then the role check. */
  function RequireRole(allowedRoles: seq<string>, user: Option<UserDict>): (r: Outcome<UserDict>)
    ensures Missing(user) ==> r == Fail(401, "Not authenticated")
    ensures !Missing(user) && !Truthy(Get(user.value, "is_active")) ==> r == Fail(403, "Inactive user")
    ensures !Missing(user) && Truthy(Get(user.value, "is_active")) && !RoleAllowed(user.value, allowedRoles)
            ==> r == Fail(403, InsufficientDetail(allowedRoles))
    ensures r.Pass? <==> !Missing(user) && Truthy(Get(user.value, "is_active")) && RoleAllowed(user.value, allowedRoles)
    ensures r.Pass? ==> Some(r.value) == user
  {
    match GetCurrentActiveUser(user)
    case Fail(code, detail) => Fail(code, detail)
    case Pass(u) => if !RoleAllowed(u, allowedRoles) then Fail(403, InsufficientDetail(allowedRoles)) else Pass(u)
  }

  /** `get_current_user_optional`: the session value itself; it never raises. */
  function GetCurrentUserOptional(user: Option<UserDict>): (r: Option<UserDict>)
    ensures r == user
  {
    user
  }

  /** Whoever passes `get_current_user` is what the optional variant returns;
      the optional variant differs only by yielding the missing value instead
      of raising. */
  lemma OptionalAgreesWithRequired(user: Option<UserDict>)
    ensures GetCurrentUser(user).Pass? ==> GetCurrentUserOptional(user) == Some(GetCurrentUser(user).value)
    ensures GetCurrentUser(user).Fail? ==> Missing(GetCurrentUserOptional(user))
  {
  }

  /** No role list admits anyone `get_current_active_user` rejects, and the
      empty list admits nobody. */
  lemma RoleCheckIsStricter(allowedRoles: seq<string>, user: Option<UserDict>)
    ensures RequireRole(allowedRoles, user).Pass? ==> GetCurrentActiveUser(user).Pass?
    ensures GetCurrentActiveUser(user).Fail? ==> RequireRole(allowedRoles, user) == GetCurrentActiveUser(user)
    ensures allowedRoles == [] ==> RequireRole(allowedRoles, user).Fail?
  {
  }

  /** Widening the allowed list never turns a pass into a failure. */
  lemma MoreRolesAdmitMore(fewer: seq<string>, more: seq<string>, user: Option<UserDict>)
    requires forall r :: r in fewer ==> r in more
    ensures RequireRole(fewer, user).Pass? ==> RequireRole(more, user).Pass?
  {
  }
}
