/**
 * The authorization gate of middleware/authorization.ts: `authorizeRoles(...roles)`
 * returns a check that lets a request through when the principal's role is
 * one of `roles`, and otherwise answers 403.
 */
module Authorization {
  import opened Wrappers
  import opened Authentication
  import Users

  const InsufficientPermissionsBody: string := "{\"error\":\"Forbidden: Insufficient permissions\"}"

  /**
   * `(req.user as User)?.role`: the role claim of an object payload; a text
   * payload or a missing user has none. A role claim that is not a string is
   * modelled as absent, since it can never equal one of the string roles.
   */
  function RoleOf(user: Option<Decoded>): Option<string>
  {
    match user
    case Some(ClaimsPayload(c)) => c.role
    case _ => None
  }

  /** The decision of the returned check: `userRole` is truthy (defined, non-empty) and listed. */
  predicate Allows(roles: seq<string>, user: Option<Decoded>)
  {
    var role := RoleOf(user);
    role.Some? && role.value != [] && role.value in roles
  }

  /**
   * The check `authorizeRoles(...roles)` returns, applied to `(req, res)`:
   * on denial the status is 403 and the body is written; on success the
   * response is untouched.
   */
  method AuthorizeRoles(roles: seq<string>, req: Request, res: Response) returns (ok: bool)
    modifies res
    ensures ok <==> Allows(roles, req.user)
    ensures ok ==> res.statusCode == old(res.statusCode) && res.body == old(res.body)
    ensures !ok ==> res.statusCode == 403 && res.body == Some(InsufficientPermissionsBody)
  {
    var userRole := RoleOf(req.user);
    if userRole.None? || userRole.value == [] || userRole.value !in roles {
      res.statusCode := 403;
      res.body := Some(InsufficientPermissionsBody);
      return false;
    }
    ok := true;
  }

  /** A request the authentication gate did not pass (no `user`) is always denied, as is a text payload. */
  lemma UnauthenticatedIsDenied(roles: seq<string>, text: string)
    ensures !Allows(roles, None)
    ensures !Allows(roles, Some(TextPayload(text)))
  {
  }

  /** An empty role list denies everyone. */
  lemma EmptyRolesDenyAll(user: Option<Decoded>)
    ensures !Allows([], user)
  {
  }

  /** Allowing more roles never turns an allow into a deny. */
  lemma MoreRolesKeepAllow(roles: seq<string>, more: seq<string>, user: Option<Decoded>)
    requires forall r :: r in roles ==> r in more
    requires Allows(roles, user)
    ensures Allows(more, user)
  {
  }

  /** For a claims payload the gate allows exactly the listed, non-empty role claims. */
  lemma ClaimsAllowedExactly(roles: seq<string>, c: Claims)
    ensures Allows(roles, Some(ClaimsPayload(c))) <==> exists r :: r in roles && r != [] && c.role == Some(r)
  {
  }

  /** The claims the login route signs into an access token: `{id, email, role}`. */
  function AccessClaims(u: Users.User): (c: Claims)
    ensures c.role == Some(Users.RoleValue(u.role))
  {
    Claims(Some(u.id), Some(u.email), Some(Users.RoleValue(u.role)))
  }

  /** `authorizeRoles(Role.ADMIN)` denies a USER's access token and allows an ADMIN's. */
  lemma AdminOnlyAction(u: Users.User)
    ensures Allows([Users.RoleValue(Users.ADMIN)], Some(ClaimsPayload(AccessClaims(u)))) <==> u.role == Users.ADMIN
  {
  }

  /**
   * The store never holds an administrator, so no access token signed for a
   * stored user passes an ADMIN-only check (the PATCH and DELETE character routes).
   */
  lemma NoStoredUserPassesAdminOnly(store: Users.UserStore, email: string)
    requires store.OnlyUsers()
    requires email in store.users
    ensures !Allows([Users.RoleValue(Users.ADMIN)], Some(ClaimsPayload(AccessClaims(store.users[email]))))
  {
    AdminOnlyAction(store.users[email]);
  }

  /** `authorizeRoles(Role.ADMIN, Role.USER)` allows the access token of every stored user. */
  lemma AnyRoleAction(u: Users.User)
    ensures Allows([Users.RoleValue(Users.ADMIN), Users.RoleValue(Users.USER)], Some(ClaimsPayload(AccessClaims(u))))
  {
  }
}
