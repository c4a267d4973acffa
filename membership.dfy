/**
 * The membership service (HomeCinema.Services/MembershipService.cs): credential
 * validation, user creation with role associations, and role resolution over a
 * user table, a role table and a user-role table behind a unit of work.
 *
 * The store is the class MembershipService: `users`, `roles` and `userRoles` are
 * the committed tables; `pendingUsers` and `pendingUserRoles` are rows added to the
 * repositories but not yet committed. Queries read the committed tables only.
 * Password hashing is the injected function `encrypt(password, salt)`; a fresh
 * salt and the creation time are supplied by the caller.
 */
module Membership {
  import opened Wrappers
  import Linq

  datatype User = User(id: int, username: string, email: string, salt: string,
                       hashedPassword: string, isLocked: bool, dateCreated: int)

  datatype Role = Role(id: int, name: string)

  /** The association row pairing a role with a user. */
  datatype UserRole = UserRole(roleId: int, userId: int)

  /** GenericPrincipal: an identity name and the role names it is in. */
  datatype Principal = Principal(identityName: string, roleNames: seq<string>)

  /** What ValidateUser returns: a null User and Principal unless the credentials are accepted. */
  datatype MembershipContext = MembershipContext(user: Option<User>, principal: Option<Principal>)

  /** The exceptions CreateUser raises. */
  datatype MembershipError =
    | UsernameInUse           // "Username is already in use"
    | RoleDoesNotExist(roleId: int)  // "Role doesn't exist."
    | NullReference           // dereferencing a null role-id array

  /** A freshly constructed MembershipContext. */
  const EmptyContext := MembershipContext(None, None)

  /** GetSingleByUsername: exact, case-sensitive match on the user name. */
  function FindByUsername(users: seq<User>, username: string): Option<User> {
    Linq.FirstOrDefault(users, (u: User) => u.username == username)
  }

  /** The role repository's GetSingle(roleId). */
  function RoleById(roles: seq<Role>, roleId: int): Option<Role> {
    Linq.FirstOrDefault(roles, (r: Role) => r.id == roleId)
  }

  /** The navigation collection User.UserRoles: the association rows of one user. */
  function LinksOf(links: seq<UserRole>, userId: int): seq<UserRole> {
    Linq.Where(links, (l: UserRole) => l.userId == userId)
  }

  /** The role each association points at (navigation UserRole.Role), in order. */
  function RolesOf(roles: seq<Role>, links: seq<UserRole>): (r: seq<Role>)
    ensures forall x :: x in r ==> x in roles
  {
    if links == [] then []
    else
      var init := RolesOf(roles, links[..|links| - 1]);
      match RoleById(roles, links[|links| - 1].roleId)
      case None => init
      case Some(role) => init + [role]
  }

  /** The role names of a role list (Select(x => x.Name)). */
  function Names(roles: seq<Role>): (r: seq<string>)
    ensures |r| == |roles|
    ensures forall i :: 0 <= i < |roles| ==> r[i] == roles[i].name
  {
    seq(|roles|, i requires 0 <= i < |roles| => roles[i].name)
  }

  /** One association row per requested role id, all for `userId`. */
  function Links(roleIds: seq<int>, userId: int): (r: seq<UserRole>)
    ensures |r| == |roleIds|
    ensures forall j :: 0 <= j < |r| ==> r[j] == UserRole(roleIds[j], userId)
  {
    seq(|roleIds|, j requires 0 <= j < |roleIds| => UserRole(roleIds[j], userId))
  }

  /** Pending users as Commit stores them: identity keys handed out from `firstId` on. */
  function Numbered(pending: seq<User>, firstId: int): seq<User> {
    seq(|pending|, i requires 0 <= i < |pending| => pending[i].(id := firstId + i))
  }

  ghost predicate UniqueRoleIds(roles: seq<Role>) {
    forall i, j :: 0 <= i < j < |roles| ==> roles[i].id != roles[j].id
  }

  /** The guard of CreateUser's role loop as written, `roles != null || roles.Length > 0`. */
  function RolesGuardAsWritten(roleIds: Option<seq<int>>): Result<bool, MembershipError> {
    if roleIds.Some? then Success(true)   // the first operand decides
    else Failure(NullReference)          // the second operand dereferences null
  }

  /** The guard as evidently intended, `roles != null && roles.Length > 0`. */
  function RolesGuard(roleIds: Option<seq<int>>): bool {
    roleIds.Some? && |roleIds.value| > 0
  }

  /** The role ids CreateUser's loop visits under the intended guard. */
  function RequestedRoles(roleIds: Option<seq<int>>): (ids: seq<int>)
    ensures roleIds.None? ==> ids == []
    ensures roleIds.Some? ==> ids == roleIds.value
  {
    if RolesGuard(roleIds) then roleIds.value else []
  }

  /** The written guard faults on a null array (after the user row is committed). */
  lemma RolesGuardAsWrittenFaultsOnNull()
    ensures RolesGuardAsWritten(None) == Failure(NullReference)
    ensures RequestedRoles(None) == []
  {
  }

  /** On a non-null array the written guard lets the loop run, even over no ids; the intended guard visits the same ids. */
  lemma RolesGuardsAgreeOnArrays(ids: seq<int>)
    ensures RolesGuardAsWritten(Some(ids)) == Success(true)
    ensures RequestedRoles(Some(ids)) == ids
    ensures RolesGuard(Some(ids)) <==> ids != []
  {
  }

  /** Position of the first requested role id that names no role, or |ids| when all exist. */
  function MissingRole(roles: seq<Role>, ids: seq<int>): (k: nat)
    ensures k <= |ids|
    ensures forall j :: 0 <= j < k ==> RoleById(roles, ids[j]).Some?
    ensures k < |ids| ==> RoleById(roles, ids[k]).None?
  {
    match Linq.FirstIndex(ids, (id: int) => RoleById(roles, id).None?)
    case None => |ids|
    case Some(k) => k
  }

  /** A committed user carries the key an association refers to. */
  ghost predicate HasUserKey(users: seq<User>, userId: int) {
    exists u :: u in users && u.id == userId
  }

  /**
   * The store's constraints: unique user names and keys, keys below the next
   * identity value, unique role keys, and every association referring to a
   * committed user and an existing role.
   */
  ghost predicate StoreInvariant(users: seq<User>, roles: seq<Role>, links: seq<UserRole>, nextUserId: int) {
    && (forall i, j :: 0 <= i < j < |users| ==> users[i].username != users[j].username)
    && (forall i, j :: 0 <= i < j < |users| ==> users[i].id != users[j].id)
    && (forall u :: u in users ==> u.id < nextUserId)
    && UniqueRoleIds(roles)
    && (forall l :: l in links ==> HasUserKey(users, l.userId) && RoleById(roles, l.roleId).Some?)
  }

  /** Committing a user under a fresh name and the next key, with associations of that user to existing roles, keeps the constraints. */
  lemma AddUserKeepsInvariant(users: seq<User>, roles: seq<Role>, links: seq<UserRole>, nextUserId: int,
                              user: User, newLinks: seq<UserRole>)
    requires StoreInvariant(users, roles, links, nextUserId)
    requires FindByUsername(users, user.username).None? && user.id == nextUserId
    requires forall l :: l in newLinks ==> l.userId == user.id && RoleById(roles, l.roleId).Some?
    ensures StoreInvariant(users + [user], roles, links + newLinks, nextUserId + 1)
    ensures forall l :: l in links ==> l.userId != user.id
  {
    var all := users + [user];
    forall i, j | 0 <= i < j < |all| ensures all[i].username != all[j].username && all[i].id != all[j].id {
      if j == |users| {
        assert all[i] in users;
      }
    }
    forall l | l in links + newLinks ensures HasUserKey(all, l.userId) {
      if l in links {
        var u :| u in users && u.id == l.userId;
        assert u in all;
      } else {
        assert user in all;
      }
    }
  }

  class MembershipService {
    /** IEncryptionService.EncryptPassword(password, salt). */
    const encrypt: (string, string) -> string

    var users: seq<User>
    var roles: seq<Role>
    var userRoles: seq<UserRole>
    var pendingUsers: seq<User>
    var pendingUserRoles: seq<UserRole>
    /** The identity key the next committed user receives. */
    var nextUserId: int

    /** The store's constraints hold over committed and pending associations; no user row is left pending between operations. */
    ghost predicate Valid()
      reads this
    {
      pendingUsers == [] && StoreInvariant(users, roles, userRoles + pendingUserRoles, nextUserId)
    }

    /** A service over an empty user store and the given reference roles. */
    constructor (encrypt: (string, string) -> string, roles: seq<Role>)
      requires UniqueRoleIds(roles)
      ensures Valid()
      ensures this.encrypt == encrypt && this.roles == roles
      ensures users == [] && userRoles == [] && pendingUserRoles == []
    {
      this.encrypt := encrypt;
      this.roles := roles;
      users, userRoles := [], [];
      pendingUsers, pendingUserRoles := [], [];
      nextUserId := 1;
    }

    /** GetUser(userId): the user with that key, or null. */
    function GetUser(userId: int): (r: Option<User>)
      reads this
      ensures r.Some? ==> r.value in users && r.value.id == userId
      ensures r.None? <==> forall u :: u in users ==> u.id != userId
    {
      Linq.FirstOrDefault(users, (u: User) => u.id == userId)
    }

    /** The salted hash of the supplied password matches the stored one. */
    predicate IsPasswordValid(user: User, password: string) {
      encrypt(password, user.salt) == user.hashedPassword
    }

    /** The password is checked first; only a matching password consults the lock flag. */
    predicate IsUserValid(user: User, password: string): (valid: bool)
      ensures valid <==> IsPasswordValid(user, password) && !user.isLocked
    {
      if IsPasswordValid(user, password) then !user.isLocked else false
    }

    /** The roles GetUserRoles returns: the user's associated roles without duplicates. */
    function UserRoles(username: string): (r: seq<Role>)
      reads this
      ensures FindByUsername(users, username).None? ==> r == []
      ensures Linq.NoDuplicates(r)
      ensures forall x :: x in r ==> x in roles
    {
      match FindByUsername(users, username)
      case None => []
      case Some(u) => Linq.Distinct(RolesOf(roles, LinksOf(userRoles, u.id)))
    }

    /** ValidateUser: a populated context exactly when the user exists, the password matches and the account is not locked. */
    function ValidateUser(username: string, password: string): (ctx: MembershipContext)
      reads this
      ensures ctx.user.Some? <==>
                var found := FindByUsername(users, username);
                found.Some? && encrypt(password, found.value.salt) == found.value.hashedPassword
                && !found.value.isLocked
      ensures ctx.user.None? ==> ctx == EmptyContext
      ensures ctx.user.Some? ==>
                && ctx.user.value in users && ctx.user.value.username == username
                && ctx.principal == Some(Principal(username, Names(UserRoles(username))))
    {
      var user := FindByUsername(users, username);
      if user.Some? && IsUserValid(user.value, password) then
        MembershipContext(user, Some(Principal(user.value.username, Names(UserRoles(user.value.username)))))
      else
        EmptyContext
    }

    /** GetUserRoles: collects the role of each of the user's associations, then removes duplicates. */
    method GetUserRoles(username: string) returns (result: seq<Role>)
      ensures result == UserRoles(username)
    {
      var collected: seq<Role> := [];
      var existing := FindByUsername(users, username);
      if existing.Some? {
        var links := LinksOf(userRoles, existing.value.id);
        var i := 0;
        while i < |links|
          invariant 0 <= i <= |links|
          invariant collected == RolesOf(roles, links[..i])
        {
          var role := RoleById(roles, links[i].roleId);
          if role.Some? {
            collected := collected + [role.value];
          }
          i := i + 1;
          assert links[..i][..i - 1] == links[..i - 1];
        }
        assert links[..|links|] == links;
      }
      result := Linq.Distinct(collected);
    }

    /** The unit of work's Commit: pending rows become committed, users receiving identity keys. */
    method Commit()
      modifies this
      ensures users == old(users) + Numbered(old(pendingUsers), old(nextUserId))
      ensures nextUserId == old(nextUserId) + |old(pendingUsers)|
      ensures userRoles == old(userRoles) + old(pendingUserRoles)
      ensures pendingUsers == [] && pendingUserRoles == [] && roles == old(roles)
    {
      users := users + Numbered(pendingUsers, nextUserId);
      nextUserId := nextUserId + |pendingUsers|;
      userRoles := userRoles + pendingUserRoles;
      pendingUsers, pendingUserRoles := [], [];
    }

    /** AddUserToRole: stages one association, or fails when the role id names no role. */
    method AddUserToRole(user: User, roleId: int) returns (r: Result<UserRole, MembershipError>)
      modifies this
      ensures users == old(users) && roles == old(roles) && userRoles == old(userRoles)
      ensures pendingUsers == old(pendingUsers) && nextUserId == old(nextUserId)
      ensures RoleById(roles, roleId).None? ==>
                r == Failure(RoleDoesNotExist(roleId)) && pendingUserRoles == old(pendingUserRoles)
      ensures RoleById(roles, roleId).Some? ==>
                r == Success(UserRole(roleId, user.id)) && pendingUserRoles == old(pendingUserRoles) + [r.value]
    {
      var role := RoleById(roles, roleId);
      if role.None? {
        return Failure(RoleDoesNotExist(roleId));
      }
      var link := UserRole(role.value.id, user.id);
      pendingUserRoles := pendingUserRoles + [link];
      r := Success(link);
    }

    /** `_userRepository.Add(user)` followed by `_unitOfWork.Commit()`: the row is stored under the next identity key. */
    method AddAndCommitUser(user: User) returns (stored: User)
      requires pendingUsers == []
      modifies this
      ensures stored == user.(id := old(nextUserId))
      ensures users == old(users) + [stored] && nextUserId == old(nextUserId) + 1
      ensures userRoles == old(userRoles) + old(pendingUserRoles)
      ensures pendingUsers == [] && pendingUserRoles == [] && roles == old(roles)
    {
      pendingUsers := pendingUsers + [user];
      Commit();
      stored := users[|users| - 1];
    }

    /**
     * The `foreach` over the requested role ids in CreateUser: stages one
     * association per id, in order, and stops at the first id naming no role.
     */
    method AddUserToRoles(user: User, ids: seq<int>) returns (failed: Option<MembershipError>)
      modifies this
      ensures users == old(users) && roles == old(roles) && userRoles == old(userRoles)
      ensures pendingUsers == old(pendingUsers) && nextUserId == old(nextUserId)
      ensures var k := MissingRole(roles, ids);
              && (k == |ids| ==> failed == None && pendingUserRoles == old(pendingUserRoles) + Links(ids, user.id))
              && (k < |ids| ==>
                    && failed == Some(RoleDoesNotExist(ids[k]))
                    && pendingUserRoles == old(pendingUserRoles) + Links(ids[..k], user.id))
    {
      var i := 0;
      while i < |ids|
        invariant 0 <= i <= |ids|
        invariant users == old(users) && roles == old(roles) && userRoles == old(userRoles)
        invariant pendingUsers == old(pendingUsers) && nextUserId == old(nextUserId)
        invariant forall j :: 0 <= j < i ==> RoleById(roles, ids[j]).Some?
        invariant pendingUserRoles == old(pendingUserRoles) + Links(ids[..i], user.id)
      {
        var added := AddUserToRole(user, ids[i]);
        if added.Failure? {
          assert MissingRole(roles, ids) == i;
          return Some(added.error);
        }
        i := i + 1;
        assert Links(ids[..i], user.id) == Links(ids[..i - 1], user.id) + [UserRole(ids[i - 1], user.id)];
      }
      assert ids[..|ids|] == ids;
      return None;
    }

    /**
     * CreateUser: rejects a user name in use without touching the store;
     * otherwise commits the salted user row, then stages one association per
     * role id and commits them. A missing role fails after the user row is
     * committed and leaves the staged associations uncommitted.
     * The role loop runs under the intended guard: a null array adds no role.
     */
    method CreateUser(username: string, email: string, password: string, roleIds: Option<seq<int>>,
                      salt: string, now: int) returns (r: Result<User, MembershipError>)
      requires Valid()
      modifies this
      ensures Valid() && roles == old(roles)
      ensures FindByUsername(old(users), username).Some? ==>
                && r == Failure(UsernameInUse)
                && users == old(users) && userRoles == old(userRoles)
                && pendingUserRoles == old(pendingUserRoles) && nextUserId == old(nextUserId)
      ensures FindByUsername(old(users), username).None? ==>
                var user := User(old(nextUserId), username, email, salt, encrypt(password, salt), false, now);
                var ids := RequestedRoles(roleIds);
                var k := MissingRole(roles, ids);
                && users == old(users) + [user]
                && nextUserId == old(nextUserId) + 1
                && (k == |ids| ==>
                      && r == Success(user)
                      && userRoles == old(userRoles) + old(pendingUserRoles) + Links(ids, user.id)
                      && pendingUserRoles == [])
                && (k < |ids| ==>
                      && r == Failure(RoleDoesNotExist(ids[k]))
                      && userRoles == old(userRoles) + old(pendingUserRoles)
                      && pendingUserRoles == Links(ids[..k], user.id))
    {
      var existing := FindByUsername(users, username);
      if existing.Some? {
        return Failure(UsernameInUse);
      }
      r := StoreNewUser(username, email, password, roleIds, salt, now);
    }

    /** CreateUser past the user-name check: the user row, then its role associations. */
    method StoreNewUser(username: string, email: string, password: string, roleIds: Option<seq<int>>,
                        salt: string, now: int) returns (r: Result<User, MembershipError>)
      requires Valid() && FindByUsername(users, username).None?
      modifies this
      ensures Valid() && roles == old(roles)
      ensures var user := User(old(nextUserId), username, email, salt, encrypt(password, salt), false, now);
        var ids := RequestedRoles(roleIds);
        var k := MissingRole(roles, ids);
        && users == old(users) + [user]
        && nextUserId == old(nextUserId) + 1
        && (k == |ids| ==>
              && r == Success(user)
              && userRoles == old(userRoles) + old(pendingUserRoles) + Links(ids, user.id)
              && pendingUserRoles == [])
        && (k < |ids| ==>
              && r == Failure(RoleDoesNotExist(ids[k]))
              && userRoles == old(userRoles) + old(pendingUserRoles)
              && pendingUserRoles == Links(ids[..k], user.id))
    {
      ghost var links := userRoles + pendingUserRoles;
      var user := AddAndCommitUser(User(0, username, email, salt, encrypt(password, salt), false, now));
      ghost var ids := RequestedRoles(roleIds);
      ghost var k := MissingRole(roles, ids);
      if RolesGuard(roleIds) {
        var failed := AddUserToRoles(user, roleIds.value);
        if failed.Some? {
          assert pendingUserRoles == Links(ids[..k], user.id);
          AddUserKeepsInvariant(old(users), roles, links, old(nextUserId), user, pendingUserRoles);
          assert userRoles + pendingUserRoles == links + pendingUserRoles;
          return Failure(failed.value);
        }
      }
      assert pendingUserRoles == Links(ids, user.id);
      assert Numbered(pendingUsers, nextUserId) == [];
      Commit();
      assert users == old(users) + [user] && nextUserId == old(nextUserId) + 1;
      assert userRoles == links + Links(ids, user.id);
      AddUserKeepsInvariant(old(users), roles, links, old(nextUserId), user, Links(ids, user.id));
      assert userRoles + pendingUserRoles == userRoles;
      r := Success(user);
    }

    /**
     * CreateUser with the role guard as written, `roles != null || roles.Length > 0`:
     * a null role-id array faults at the guard, after the user row and the
     * associations staged before it were committed; the second commit is not
     * reached. On an array the written guard visits the same ids as the
     * intended one, so that case is StoreNewUser.
     */
    method CreateUserAsWritten(username: string, email: string, password: string, roleIds: Option<seq<int>>,
                               salt: string, now: int) returns (r: Result<User, MembershipError>)
      requires Valid()
      modifies this
      ensures Valid() && roles == old(roles)
      ensures FindByUsername(old(users), username).Some? ==>
                && r == Failure(UsernameInUse)
                && users == old(users) && userRoles == old(userRoles)
                && pendingUserRoles == old(pendingUserRoles) && nextUserId == old(nextUserId)
      ensures FindByUsername(old(users), username).None? ==>
                var user := User(old(nextUserId), username, email, salt, encrypt(password, salt), false, now);
                && users == old(users) + [user]
                && nextUserId == old(nextUserId) + 1
                && (roleIds.None? ==>
                      && r == Failure(NullReference)
                      && userRoles == old(userRoles) + old(pendingUserRoles)
                      && pendingUserRoles == [])
                && (roleIds.Some? ==>
                      var ids := roleIds.value;
                      var k := MissingRole(roles, ids);
                      && (k == |ids| ==>
                            && r == Success(user)
                            && userRoles == old(userRoles) + old(pendingUserRoles) + Links(ids, user.id)
                            && pendingUserRoles == [])
                      && (k < |ids| ==>
                            && r == Failure(RoleDoesNotExist(ids[k]))
                            && userRoles == old(userRoles) + old(pendingUserRoles)
                            && pendingUserRoles == Links(ids[..k], user.id)))
    {
      var existing := FindByUsername(users, username);
      if existing.Some? {
        return Failure(UsernameInUse);
      }
      // The guard only reads `roleIds`, so it may be evaluated before the user row is stored.
      var guard := RolesGuardAsWritten(roleIds);
      if guard.Failure? {
        ghost var links := userRoles + pendingUserRoles;
        var user := AddAndCommitUser(User(0, username, email, salt, encrypt(password, salt), false, now));
        AddUserKeepsInvariant(old(users), roles, links, old(nextUserId), user, []);
        assert userRoles + pendingUserRoles == links + [];
        return Failure(guard.error);
      }
      r := StoreNewUser(username, email, password, roleIds, salt, now);
    }
  }

  /** A user appended under a fresh name is what the lookup by that name finds. */
  lemma FindNewUser(users: seq<User>, user: User)
    requires FindByUsername(users, user.username).None?
    ensures FindByUsername(users + [user], user.username) == Some(user)
  {
    Linq.FirstOrDefaultAppend(users, user, (u: User) => u.username == user.username);
  }

  /** The user CreateUser appends under a fresh name logs in with the password it was created with. */
  lemma CreatedUserValidates(svc: MembershipService, users0: seq<User>, user: User, password: string)
    requires svc.users == users0 + [user]
    requires FindByUsername(users0, user.username).None?
    requires user.hashedPassword == svc.encrypt(password, user.salt) && !user.isLocked
    ensures svc.ValidateUser(user.username, password)
            == MembershipContext(Some(user), Some(Principal(user.username, Names(svc.UserRoles(user.username)))))
  {
    FindNewUser(users0, user);
  }

  /** With unique role keys, GetSingle(id) finds a role exactly when the role carries that key. */
  lemma RoleByIdExact(roles: seq<Role>, roleId: int, role: Role)
    requires UniqueRoleIds(roles)
    ensures RoleById(roles, roleId) == Some(role) <==> role in roles && role.id == roleId
  {
    if role in roles && role.id == roleId {
      var found := RoleById(roles, roleId);
      assert found.Some?;
      var i :| 0 <= i < |roles| && roles[i] == found.value;
      var j :| 0 <= j < |roles| && roles[j] == role;
    }
  }

  /** A role is navigated to from a list of associations exactly when one of them points at it. */
  lemma {:induction false} RolesOfMembership(roles: seq<Role>, links: seq<UserRole>, role: Role)
    ensures role in RolesOf(roles, links) <==>
              exists l :: l in links && RoleById(roles, l.roleId) == Some(role)
  {
    if links != [] {
      var init, last := links[..|links| - 1], links[|links| - 1];
      assert links == init + [last];
      RolesOfMembership(roles, init, role);
      if role in RolesOf(roles, links) {
        if role !in RolesOf(roles, init) {
          assert RoleById(roles, last.roleId) == Some(role);
        }
      } else {
        forall l | l in links ensures RoleById(roles, l.roleId) != Some(role) {
          if l in init {
          } else {
            assert l == last;
          }
        }
      }
    }
  }

  /** A role is among a known user's roles exactly when an association links that user to it. */
  lemma UserRolesMembership(svc: MembershipService, username: string, user: User, role: Role)
    requires svc.Valid()
    requires FindByUsername(svc.users, username) == Some(user)
    ensures role in svc.UserRoles(username) <==>
              role in svc.roles && exists l :: l in svc.userRoles && l.userId == user.id && l.roleId == role.id
  {
    var links := LinksOf(svc.userRoles, user.id);
    RolesOfMembership(svc.roles, links, role);
    if role in svc.UserRoles(username) {
      var l :| l in links && RoleById(svc.roles, l.roleId) == Some(role);
      RoleByIdExact(svc.roles, l.roleId, role);
    }
    if role in svc.roles && exists l :: l in svc.userRoles && l.userId == user.id && l.roleId == role.id {
      var l :| l in svc.userRoles && l.userId == user.id && l.roleId == role.id;
      RoleByIdExact(svc.roles, l.roleId, role);
      assert l in links;
    }
  }

  /** After CreateUser commits, the new user's roles are exactly the existing roles it requested. */
  lemma NewUserRoles(svc: MembershipService, username: string, user: User, ids: seq<int>)
    requires svc.Valid()
    requires FindByUsername(svc.users, username) == Some(user)
    requires forall l :: l in svc.userRoles && l.userId == user.id ==> l in Links(ids, user.id)
    requires forall j :: 0 <= j < |ids| ==> RoleById(svc.roles, ids[j]).Some?
    requires forall l :: l in Links(ids, user.id) ==> l in svc.userRoles
    ensures forall role :: role in svc.UserRoles(username) <==> role in svc.roles && role.id in ids
  {
    forall role
      ensures role in svc.UserRoles(username) <==> role in svc.roles && role.id in ids
    {
      UserRolesMembership(svc, username, user, role);
      if role in svc.roles && role.id in ids {
        var j :| 0 <= j < |ids| && ids[j] == role.id;
        var l := Links(ids, user.id)[j];
        assert l in svc.userRoles;
      }
      if role in svc.UserRoles(username) {
        var l :| l in svc.userRoles && l.userId == user.id && l.roleId == role.id;
        var j :| 0 <= j < |ids| && Links(ids, user.id)[j] == l;
      }
    }
  }

  /**
   * The roles of a user CreateUser stored with every requested role: exactly
   * the existing roles whose keys were requested. Associations made before
   * belong to smaller keys and do not leak into the new user's roles.
   */
  lemma CreatedUserRoles(svc: MembershipService, users0: seq<User>, links0: seq<UserRole>, next0: int,
                         user: User, ids: seq<int>)
    requires svc.Valid() && StoreInvariant(users0, svc.roles, links0, next0)
    requires svc.users == users0 + [user] && user.id == next0
    requires FindByUsername(users0, user.username).None?
    requires svc.userRoles == links0 + Links(ids, user.id)
    requires MissingRole(svc.roles, ids) == |ids|
    ensures forall role :: role in svc.UserRoles(user.username) <==> role in svc.roles && role.id in ids
  {
    FindNewUser(users0, user);
    forall l | l in svc.userRoles && l.userId == user.id ensures l in Links(ids, user.id) {
      if l in links0 {
        assert false;
      }
    }
    NewUserRoles(svc, user.username, user, ids);
  }

  /** On a valid store, ValidateUser accepts exactly the credentials of some unlocked user. */
  lemma ValidateUserIff(svc: MembershipService, username: string, password: string)
    requires svc.Valid()
    ensures svc.ValidateUser(username, password).user.Some? <==>
              exists u :: u in svc.users && u.username == username
                          && svc.encrypt(password, u.salt) == u.hashedPassword && !u.isLocked
  {
    var found := FindByUsername(svc.users, username);
    if u :| u in svc.users && u.username == username
            && svc.encrypt(password, u.salt) == u.hashedPassword && !u.isLocked {
      assert found.Some?;
      var i :| 0 <= i < |svc.users| && svc.users[i] == found.value;
      var j :| 0 <= j < |svc.users| && svc.users[j] == u;
    }
  }

  /** A locked account is rejected even with the correct password. */
  lemma LockedUserRejected(svc: MembershipService, username: string, password: string)
    requires FindByUsername(svc.users, username).Some?
    requires FindByUsername(svc.users, username).value.isLocked
    ensures svc.ValidateUser(username, password) == EmptyContext
  {
  }

  /** An unknown user name and a wrong password yield the identical empty context. */
  lemma FailuresIndistinguishable(svc: MembershipService, unknown: string, password1: string,
                                  known: string, password2: string)
    requires FindByUsername(svc.users, unknown).None?
    requires FindByUsername(svc.users, known).Some?
    requires !svc.IsPasswordValid(FindByUsername(svc.users, known).value, password2)
    ensures svc.ValidateUser(unknown, password1) == svc.ValidateUser(known, password2) == EmptyContext
  {
  }
}
