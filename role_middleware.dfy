/**
 * The role gate placed after authentication: no user is a 401, a user whose
 * role is not among the required ones is a 403, anyone else passes.
 */
module RoleMiddleware {
  import opened Wrappers
  import opened UserModel

  /** The argument `roleMiddleware` is built with: nothing (the default), one role name, or a list. */
  datatype RolesArg = Absent | One(name: string) | Many(names: seq<string>)

  /** The list of required role names: a single name becomes a one-element list, the default is empty. */
  function RequiredRoles(arg: RolesArg): (r: seq<string>)
    ensures arg.Absent? ==> r == []
    ensures arg.One? ==> r == [arg.name]
    ensures arg.Many? ==> r == arg.names
  {
    match arg
    case Absent => []
    case One(name) => [name]
    case Many(names) => names
  }

  datatype Decision = Unauthenticated | Forbidden | Allow

  /** The status code of a refusal; passing on has none. */
  function DecisionStatus(d: Decision): (code: Option<int>)
    ensures code.None? <==> d == Allow
    ensures d == Unauthenticated ==> code == Some(401)
    ensures d == Forbidden ==> code == Some(403)
  {
    match d
    case Unauthenticated => Some(401)
    case Forbidden => Some(403)
    case Allow => None
  }

  /**
   * The middleware's decision for the user the authentication attached, if
   * any: 401 exactly when there is no user, 403 exactly when there is one,
   * roles are required and the user's role is not among them, and passing on
   * in every other case.
   */
  function RoleGate(arg: RolesArg, user: Option<UserView>): (d: Decision)
    ensures d == Unauthenticated <==> user.None?
    ensures d == Forbidden <==>
      user.Some? && |RequiredRoles(arg)| > 0 && RoleName(user.value.role) !in RequiredRoles(arg)
    ensures d == Allow <==>
      user.Some? && (|RequiredRoles(arg)| == 0 || RoleName(user.value.role) in RequiredRoles(arg))
  {
    var required := RequiredRoles(arg);
    if user.None? then Unauthenticated
    else if |required| == 0 then Allow
    else if RoleName(user.value.role) !in required then Forbidden
    else Allow
  }

  /** Without a user the answer is 401, whatever roles are required. */
  lemma NoUserIsUnauthenticated(arg: RolesArg)
    ensures RoleGate(arg, None) == Unauthenticated
    ensures DecisionStatus(RoleGate(arg, None)) == Some(401)
  {
  }

  /** With no required roles, every authenticated user passes. */
  lemma NoRolesAllowsAnyUser(arg: RolesArg, u: UserView)
    requires arg.Absent? || arg == Many([])
    ensures RoleGate(arg, Some(u)) == Allow
  {
  }

  /**
   * With required roles, an authenticated user passes exactly when the name
   * of their role is one of them, and is refused with 403 otherwise.
   */
  lemma MembershipDecides(arg: RolesArg, u: UserView)
    requires |RequiredRoles(arg)| > 0
    ensures RoleGate(arg, Some(u)) == Allow <==> RoleName(u.role) in RequiredRoles(arg)
    ensures RoleGate(arg, Some(u)) != Allow ==> RoleGate(arg, Some(u)) == Forbidden
  {
  }

  /** A single role name admits exactly the users whose role has that name. */
  lemma SingleRoleAdmitsOnlyIt(name: string, u: UserView)
    ensures RoleGate(One(name), Some(u)) == Allow <==> RoleName(u.role) == name
    ensures RoleGate(One(name), Some(u)) != Allow ==> DecisionStatus(RoleGate(One(name), Some(u))) == Some(403)
  {
  }

  /**
   * The reply of the gate: 401 exactly without a user, 403 exactly for a
   * user whose role is not required, no reply (the next handler runs)
   * otherwise.
   */
  lemma RefusalStatus(arg: RolesArg, user: Option<UserView>)
    ensures var code := DecisionStatus(RoleGate(arg, user));
      && (code == Some(401) <==> user.None?)
      && (code == Some(403) <==>
            user.Some? && |RequiredRoles(arg)| > 0 && RoleName(user.value.role) !in RequiredRoles(arg))
      && (code.None? <==>
            user.Some? && (|RequiredRoles(arg)| == 0 || RoleName(user.value.role) in RequiredRoles(arg)))
  {
  }

  /**
   * Membership is exact: there is no role hierarchy, so an admin is refused
   * where only owners are admitted, and a misspelt name admits nobody.
   */
  lemma NoRoleHierarchy(u: UserView)
    ensures u.role == Admin ==> RoleGate(One("owner"), Some(u)) == Forbidden
    ensures RoleGate(One("Admin"), Some(u)) == Forbidden
    ensures RoleGate(One(""), Some(u)) == Forbidden
  {
  }
}
