/**
 * The result mapping of AccountController
 * (HomeCinema.Web/Controllers/AccountController.cs): Login and Register
 * answer `{ success = true | false }` and delegate all state change to the
 * membership service.
 */
module Account {
  import opened Wrappers
  import Membership

  /** An HTTP status with the JSON body `new { success = ... }`. */
  datatype Reply = Reply(status: int, success: bool)

  /** Register's outcome: a reply, or the exception CreateUser raised, which leaves the action. */
  datatype RegisterResult = Replied(reply: Reply) | Faulted(error: Membership.MembershipError)

  /** The reply of every unsuccessful login. */
  const LoginRefused := Reply(200, false)

  /** Login: always HTTP 200; success exactly for a valid model whose credentials ValidateUser accepts. */
  function Login(svc: Membership.MembershipService, modelValid: bool, username: string, password: string)
    : (reply: Reply)
    reads svc
    ensures reply.status == 200
    ensures reply.success <==> modelValid && svc.ValidateUser(username, password).user.Some?
  {
    if modelValid then
      var userContext := svc.ValidateUser(username, password);
      if userContext.user.Some? then Reply(200, true) else Reply(200, false)
    else
      Reply(200, false)
  }

  /** On a valid store, a login succeeds exactly for the password of an unlocked user of that name. */
  lemma LoginAccepts(svc: Membership.MembershipService, modelValid: bool, username: string, password: string)
    requires svc.Valid()
    ensures Login(svc, modelValid, username, password).success <==>
              modelValid &&
              exists u :: u in svc.users && u.username == username
                          && svc.encrypt(password, u.salt) == u.hashedPassword && !u.isLocked
  {
    Membership.ValidateUserIff(svc, username, password);
  }

  /**
   * An invalid model, an unknown user name, a wrong password and a locked
   * account all produce the same reply.
   */
  lemma LoginFailuresCollapse(svc: Membership.MembershipService,
                              unknown: string, wrong: string, locked: string, p1: string, p2: string, p3: string,
                              anyName: string, p4: string)
    requires Membership.FindByUsername(svc.users, unknown).None?
    requires Membership.FindByUsername(svc.users, wrong).Some?
    requires !svc.IsPasswordValid(Membership.FindByUsername(svc.users, wrong).value, p2)
    requires Membership.FindByUsername(svc.users, locked).Some?
    requires Membership.FindByUsername(svc.users, locked).value.isLocked
    ensures Login(svc, true, unknown, p1) == LoginRefused
    ensures Login(svc, true, wrong, p2) == LoginRefused
    ensures Login(svc, true, locked, p3) == LoginRefused
    ensures Login(svc, false, anyName, p4) == LoginRefused
  {
    Membership.FailuresIndistinguishable(svc, unknown, p1, wrong, p2);
    Membership.LockedUserRejected(svc, locked, p3);
  }

  /** The role ids Register requests: `new[] {1}`. */
  const RegisteredRoles: seq<int> := [1]

  /**
   * A user just stored under a fresh name with the association to role 1
   * logs in with its password and holds exactly the role with key 1.
   */
  lemma RegisteredUser(svc: Membership.MembershipService, users0: seq<Membership.User>,
                       links0: seq<Membership.UserRole>, next0: int, user: Membership.User, password: string)
    requires svc.Valid() && Membership.StoreInvariant(users0, svc.roles, links0, next0)
    requires svc.users == users0 + [user] && user.id == next0
    requires Membership.FindByUsername(users0, user.username).None?
    requires svc.userRoles == links0 + [Membership.UserRole(1, user.id)]
    requires Membership.RoleById(svc.roles, 1).Some?
    requires user.hashedPassword == svc.encrypt(password, user.salt) && !user.isLocked
    ensures Login(svc, true, user.username, password) == Reply(200, true)
    ensures forall role :: role in svc.UserRoles(user.username) <==> role in svc.roles && role.id == 1
  {
    Membership.CreatedUserValidates(svc, users0, user, password);
    assert Membership.MissingRole(svc.roles, RegisteredRoles) == 1;
    assert Membership.Links(RegisteredRoles, user.id) == [Membership.UserRole(1, user.id)];
    Membership.CreatedUserRoles(svc, users0, links0, next0, user, RegisteredRoles);
  }

  /**
   * Register: BadRequest for an invalid model without calling the service;
   * otherwise CreateUser with role id 1, answering success when it returns a
   * user. The new user can then log in, and holds exactly the role with key 1.
   */
  method Register(svc: Membership.MembershipService, modelValid: bool, username: string, email: string,
                  password: string, salt: string, now: int) returns (result: RegisterResult)
    requires svc.Valid()
    modifies svc
    ensures svc.Valid() && svc.roles == old(svc.roles)
    ensures !modelValid ==> result == Replied(Reply(400, false)) && unchanged(svc)
    ensures modelValid && Membership.FindByUsername(old(svc.users), username).Some? ==>
              && result == Faulted(Membership.UsernameInUse)
              && svc.users == old(svc.users) && svc.userRoles == old(svc.userRoles)
              && svc.pendingUserRoles == old(svc.pendingUserRoles) && svc.nextUserId == old(svc.nextUserId)
    ensures modelValid && Membership.FindByUsername(old(svc.users), username).None? ==>
              var user := Membership.User(old(svc.nextUserId), username, email, salt,
                                          svc.encrypt(password, salt), false, now);
              && svc.users == old(svc.users) + [user]
              && svc.nextUserId == old(svc.nextUserId) + 1
              && svc.pendingUserRoles == []
              && (Membership.RoleById(svc.roles, 1).None? ==>
                    && result == Faulted(Membership.RoleDoesNotExist(1))
                    && svc.userRoles == old(svc.userRoles) + old(svc.pendingUserRoles))
              && (Membership.RoleById(svc.roles, 1).Some? ==>
                    && result == Replied(Reply(200, true))
                    && svc.userRoles == old(svc.userRoles) + old(svc.pendingUserRoles)
                                        + [Membership.UserRole(1, user.id)]
                    && Login(svc, true, username, password) == Reply(200, true)
                    && forall role :: role in svc.UserRoles(username) <==> role in svc.roles && role.id == 1)
  {
    if !modelValid {
      return Replied(Reply(400, false));
    }
    ghost var users0, links0, next0 := svc.users, svc.userRoles + svc.pendingUserRoles, svc.nextUserId;
    var created := svc.CreateUser(username, email, password, Some(RegisteredRoles), salt, now);
    match created
    case Failure(e) =>
      result := Faulted(e);
    case Success(user) =>
      assert Membership.MissingRole(svc.roles, RegisteredRoles) == 1;
      assert Membership.Links(RegisteredRoles, user.id) == [Membership.UserRole(1, user.id)];
      RegisteredUser(svc, users0, links0, next0, user, password);
      result := Replied(Reply(200, true));
  }
}
