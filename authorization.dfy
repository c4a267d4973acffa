/**
 * The per-action access table of the two controllers and the decision the
 * authorization filter takes for a request.
 *
 * Both controllers carry `[Authorize(Roles = "Admin")]`
 * (HomeCinema.Web/Controllers/MoviesController.cs:20,
 * HomeCinema.Web/Controllers/AccountController.cs:14); actions marked
 * `[AllowAnonymous]` skip the check. A protected action is allowed when the
 * request's principal is authenticated and in one of the required roles.
 * The principal is the one the membership service builds from the request's
 * credentials.
 */
module Authorization {
  import opened Wrappers
  import Text
  import Membership

  datatype DenyReason = Unauthenticated | Unauthorized

  datatype Decision = Allow | Deny(reason: DenyReason)

  /** GenericPrincipal.IsInRole compares role names without regard to case. */
  predicate SameRole(held: string, required: string) {
    Text.ToLower(held) == Text.ToLower(required)
  }

  /** IsInRole: some role name of the principal is the required one. */
  predicate IsInRole(roleNames: seq<string>, role: string)
    ensures IsInRole(roleNames, role) <==> exists name :: name in roleNames && SameRole(name, role)
  {
    roleNames != [] && (SameRole(roleNames[0], role) || IsInRole(roleNames[1..], role))
  }

  /** `roles.Any(principal.IsInRole)`. */
  predicate IsInAnyRole(roleNames: seq<string>, required: seq<string>) {
    exists r :: r in required && IsInRole(roleNames, r)
  }

  /**
   * The decision for one request: a public action is allowed outright; a
   * protected one needs an authenticated principal, and, when roles are
   * required, one of them.
   */
  function Authorize(isPublic: bool, principal: Option<Membership.Principal>, requiredRoles: seq<string>)
    : (d: Decision)
    ensures isPublic ==> d == Allow
    ensures !isPublic ==> (d == Deny(Unauthenticated) <==> principal.None?)
    ensures !isPublic && principal.Some? ==>
              (d == Allow <==>
                 requiredRoles == [] ||
                 exists r, name :: r in requiredRoles && name in principal.value.roleNames && SameRole(name, r))
    ensures d.Deny? && d.reason == Unauthorized ==> !isPublic && principal.Some? && requiredRoles != []
  {
    if isPublic then Allow
    else if principal.None? then Deny(Unauthenticated)
    else if requiredRoles == [] || IsInAnyRole(principal.value.roleNames, requiredRoles) then Allow
    else Deny(Unauthorized)
  }

  /** The actions of MoviesController and AccountController. */
  datatype Action =
    | MoviesLatest | MoviesDetails | MoviesPage | MoviesAdd | MoviesUpdate | MoviesImageUpload
    | AccountLogin | AccountRegister

  /** The actions marked [AllowAnonymous]. */
  predicate AllowAnonymous(a: Action) {
    a == MoviesLatest || a == MoviesPage || a == AccountLogin || a == AccountRegister
  }

  /** The roles the class-level [Authorize(Roles = "Admin")] requires. */
  const AdminRoles: seq<string> := ["Admin"]

  datatype Credentials = Credentials(username: string, password: string)

  /** The principal a request carries: none without credentials, else what ValidateUser builds. */
  function PrincipalOf(svc: Membership.MembershipService, credentials: Option<Credentials>)
    : (p: Option<Membership.Principal>)
    reads svc
    ensures credentials.None? ==> p.None?
    ensures credentials.Some? ==>
              p == svc.ValidateUser(credentials.value.username, credentials.value.password).principal
  {
    match credentials
    case None => None
    case Some(c) => svc.ValidateUser(c.username, c.password).principal
  }

  /** The outcome of a request for action `a` with the given credentials. */
  function Gate(svc: Membership.MembershipService, a: Action, credentials: Option<Credentials>): (d: Decision)
    reads svc
    ensures AllowAnonymous(a) ==> d == Allow
    ensures !AllowAnonymous(a) && credentials.None? ==> d == Deny(Unauthenticated)
    ensures !AllowAnonymous(a) && credentials.Some? ==>
              (d == Deny(Unauthenticated) <==>
                 svc.ValidateUser(credentials.value.username, credentials.value.password).user.None?)
  {
    Authorize(AllowAnonymous(a), PrincipalOf(svc, credentials), AdminRoles)
  }

  /** Validated credentials of a user holding some role named Admin (in any case). */
  ghost predicate IsAdmin(svc: Membership.MembershipService, c: Credentials)
    reads svc
  {
    && svc.ValidateUser(c.username, c.password).user.Some?
    && exists role :: role in svc.UserRoles(c.username) && SameRole(role.name, "Admin")
  }

  /** The role names of a role list include Admin exactly when one of the roles is named Admin. */
  lemma AdminAmongNames(roles: seq<Membership.Role>)
    ensures (exists r, name :: r in AdminRoles && name in Membership.Names(roles) && SameRole(name, r)) <==>
            (exists role :: role in roles && SameRole(role.name, "Admin"))
  {
    var names := Membership.Names(roles);
    if exists r, name :: r in AdminRoles && name in names && SameRole(name, r) {
      var r, name :| r in AdminRoles && name in names && SameRole(name, r);
      var i :| 0 <= i < |names| && names[i] == name;
      assert roles[i] in roles;
    }
    if exists role :: role in roles && SameRole(role.name, "Admin") {
      var role :| role in roles && SameRole(role.name, "Admin");
      var i :| 0 <= i < |roles| && roles[i] == role;
      assert names[i] in names && "Admin" in AdminRoles;
    }
  }

  /**
   * The access table: anonymous actions are always allowed; every other
   * action is allowed exactly for credentials of an Admin, denied as
   * unauthenticated for missing or rejected credentials, and as unauthorized
   * otherwise.
   */
  lemma GateDecision(svc: Membership.MembershipService, a: Action, credentials: Option<Credentials>)
    ensures AllowAnonymous(a) ==> Gate(svc, a, credentials) == Allow
    ensures !AllowAnonymous(a) ==>
              (Gate(svc, a, credentials) == Allow <==> credentials.Some? && IsAdmin(svc, credentials.value))
    ensures !AllowAnonymous(a) ==>
              (Gate(svc, a, credentials) == Deny(Unauthenticated) <==>
                 credentials.None? ||
                 svc.ValidateUser(credentials.value.username, credentials.value.password).user.None?)
  {
    if credentials.Some? {
      AdminAmongNames(svc.UserRoles(credentials.value.username));
    }
  }

  /** A locked account is refused every protected action, even with the right password. */
  lemma LockedUserDenied(svc: Membership.MembershipService, a: Action, c: Credentials)
    requires !AllowAnonymous(a)
    requires Membership.FindByUsername(svc.users, c.username).Some?
    requires Membership.FindByUsername(svc.users, c.username).value.isLocked
    ensures Gate(svc, a, Some(c)) == Deny(Unauthenticated)
  {
    Membership.LockedUserRejected(svc, c.username, c.password);
  }

  /**
   * On a valid store, the correct password of an unlocked user associated
   * with a role named Admin opens every action.
   */
  lemma AdminAllowed(svc: Membership.MembershipService, a: Action, c: Credentials,
                     user: Membership.User, role: Membership.Role)
    requires svc.Valid()
    requires Membership.FindByUsername(svc.users, c.username) == Some(user)
    requires svc.encrypt(c.password, user.salt) == user.hashedPassword && !user.isLocked
    requires role in svc.roles && SameRole(role.name, "Admin")
    requires Membership.UserRole(role.id, user.id) in svc.userRoles
    ensures Gate(svc, a, Some(c)) == Allow
  {
    Membership.UserRolesMembership(svc, c.username, user, role);
    GateDecision(svc, a, Some(c));
  }
}
