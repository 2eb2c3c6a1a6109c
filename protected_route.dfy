/**
 * The client-side route guard: a page is shown only to a logged-in user whose
 * role is one the route admits; anyone else is redirected.
 */
module ProtectedRoute {
  import opened Wrappers
  import opened UserModel
  import RoleMiddleware

  /** The decoded token payload the client keeps for the logged-in user. */
  datatype SessionUser = SessionUser(id: int, role: string)

  /** What the guard does: redirect to the login page, redirect to the stores page, or show the page. */
  datatype Navigation = ToLogin | ToStores | Render

  /**
   * The guard for the current user (absent when nobody is logged in) and the
   * route's optional `roles` list: the login page exactly when nobody is
   * logged in, the stores page exactly when a logged-in user's role is not in
   * a non-empty list, and the page itself otherwise.
   */
  function Guard(user: Option<SessionUser>, roles: Option<seq<string>>): (nav: Navigation)
    ensures nav == ToLogin <==> user.None?
    ensures nav == ToStores <==>
      user.Some? && roles.Some? && |roles.value| > 0 && user.value.role !in roles.value
    ensures nav == Render <==>
      user.Some? && (roles.None? || |roles.value| == 0 || user.value.role in roles.value)
  {
    if user.None? then ToLogin
    else if roles.Some? && |roles.value| > 0 && user.value.role !in roles.value then ToStores
    else Render
  }

  /** Nobody logged in: always the login page, whatever the route admits. */
  lemma LoggedOutGoesToLogin(roles: Option<seq<string>>)
    ensures Guard(None, roles) == ToLogin
  {
  }

  /** The login check comes first: a visitor who is not logged in is never sent to the stores page. */
  lemma StoresOnlyForLoggedIn(user: Option<SessionUser>, roles: Option<seq<string>>)
    ensures Guard(user, roles) == ToStores ==> user.Some?
    ensures Guard(user, roles) == ToLogin <==> user.None?
  {
  }

  /** A route without roles, or with an empty list, shows the page to every logged-in user. */
  lemma NoRolesRendersForAnyone(u: SessionUser, roles: Option<seq<string>>)
    requires roles.None? || roles == Some([])
    ensures Guard(Some(u), roles) == Render
  {
  }

  /**
   * With a non-empty list, a logged-in user sees the page exactly when their
   * role is listed, and is sent to the stores page otherwise.
   */
  lemma ListedRoleDecides(u: SessionUser, rs: seq<string>)
    requires |rs| > 0
    ensures Guard(Some(u), Some(rs)) == Render <==> u.role in rs
    ensures Guard(Some(u), Some(rs)) == ToStores <==> u.role !in rs
  {
  }

  /** The roles argument of the server's role gate that corresponds to a route's `roles`. */
  function ServerRoles(roles: Option<seq<string>>): (arg: RoleMiddleware.RolesArg)
    ensures RoleMiddleware.RequiredRoles(arg) == if roles.None? then [] else roles.value
  {
    if roles.None? then RoleMiddleware.Absent else RoleMiddleware.Many(roles.value)
  }

  /**
   * The client guard and the server's role gate agree: for the user with the
   * same role, the login redirect is the 401, the stores redirect is the 403,
   * and showing the page is passing the gate.
   */
  lemma GuardAgreesWithRoleGate(user: Option<UserView>, roles: Option<seq<string>>)
    ensures var session := if user.None? then None else Some(SessionUser(user.value.id, RoleName(user.value.role)));
      var nav := Guard(session, roles);
      var d := RoleMiddleware.RoleGate(ServerRoles(roles), user);
      && (nav == ToLogin <==> d == RoleMiddleware.Unauthenticated)
      && (nav == ToStores <==> d == RoleMiddleware.Forbidden)
      && (nav == Render <==> d == RoleMiddleware.Allow)
  {
  }

  /** The routes of the application and the roles each admits. */
  const AdminRoles: seq<string> := ["admin"]
  const StoresRoles: seq<string> := ["user", "admin", "owner"]
  const OwnerRoles: seq<string> := ["owner"]

  /**
   * The route table: every role reaches the stores page; only admins reach the
   * admin page and only owners the owner page; the password page has no roles.
   */
  lemma RouteTable(id: int, role: Role)
    ensures var u := Some(SessionUser(id, RoleName(role)));
      && Guard(u, Some(StoresRoles)) == Render
      && (Guard(u, Some(AdminRoles)) == Render <==> role == Admin)
      && (Guard(u, Some(OwnerRoles)) == Render <==> role == Owner)
      && Guard(u, None) == Render
  {
  }
}
