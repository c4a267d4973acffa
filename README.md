# HomeCinema membership and catalog rules in Dafny

This project models the back end of the HomeCinema movie-rental application and proves properties of that model. It covers three parts:

- **The membership service** (`HomeCinema.Services/MembershipService.cs`):
  - credential validation: look up the user, re-hash the password with the stored salt, then check the lock flag;
  - user creation: reject a user name already in use, commit the salted user row, then stage and commit one user-role association per requested role id;
  - role resolution: the user's roles, without duplicates.
- **The catalog rules of `MoviesController`**:
  - the latest-six listing;
  - the case-insensitive title filter;
  - paging by key with Skip/Take, the total count and the page count;
  - `Add`, which creates one stock per requested copy;
  - `Update`, with its BadRequest and NotFound branches.
- **The result mapping of `AccountController`** (`Login`, `Register`), and the access table both controllers declare with `[Authorize(Roles = "Admin")]` and `[AllowAnonymous]`.

Files:

- `wrappers.dfy`: `Option` and `Result`. `None` stands for `null`; `Failure` stands for a thrown exception.
- `linq.dfy`: the LINQ operators the code relies on: `FirstOrDefault`, `Where`, `Distinct`, `Skip`, `Take`, and a stable `OrderBy`.
- `text.dfy`: the `System.String` operations the title filter uses.
- `membership.dfy`: the class `MembershipService`.
  - `users`, `roles` and `userRoles` are the committed tables.
  - `pendingUsers` and `pendingUserRoles` are rows added to a repository and not yet committed.
  - `Commit` moves pending rows into the tables and hands out identity keys.
  - `Valid()` is the store's invariant: user names and keys are unique, and every association refers to a committed user and an existing role.
- `movies.dfy`: the listings, as functions of the stored movies, and the class `MoviesController` with `Add` and `Update`.
- `account.dfy`: `Login` (a function) and `Register` (a method that calls `CreateUser`).
- `authorization.dfy`: the per-action access table and the allow/deny decision for a request.

External values come in from outside the model:

- The password hash `IEncryptionService.EncryptPassword` is the function field `encrypt`.
- The salt from `CreateSalt`, the time from `DateTime.Now` and the values of `Guid.NewGuid` are parameters.
- `Movie.UpdateMovie` is the function field `update`. It is required to keep a movie's key.
- `ModelState.IsValid` is a boolean parameter.

## Model

| member | source | states |
|---|---|---|
| Membership.MembershipService.ValidateUser | HomeCinema.Services/MembershipService.cs:39-56 | The context has a user exactly when a user of that name exists, the salted hash of the password equals the stored hash, and the account is not locked. Otherwise it is the empty context. On success the principal's name is the user name and its roles are the names of GetUserRoles. |
| Membership.ValidateUserIff | HomeCinema.Services/MembershipService.cs:39-56 | On a valid store, credentials are accepted exactly when some unlocked user of that name holds the hash of that password. |
| Membership.MembershipService.IsUserValid | HomeCinema.Services/MembershipService.cs:136-149 | A user is valid exactly when the salted hash of the password equals the stored hash (IsPasswordValid) and the account is not locked. |
| Membership.LockedUserRejected | HomeCinema.Services/MembershipService.cs:141-149 | A locked user is rejected even with the correct password. |
| Membership.FailuresIndistinguishable | HomeCinema.Services/MembershipService.cs:41-55 | An unknown user name and a wrong password for a known user give the identical empty context. |
| Membership.MembershipService.GetUser | HomeCinema.Services/MembershipService.cs:96-99 | The result is a stored user with the key, and it is null exactly when no user has that key. |
| Membership.MembershipService.UserRoles | HomeCinema.Services/MembershipService.cs:101-116 | An unknown user name gives no roles. The result has no duplicates, and every role in it is a stored role. |
| Membership.MembershipService.GetUserRoles | HomeCinema.Services/MembershipService.cs:101-116 | The loop that collects the role of each association, followed by Distinct, returns exactly UserRoles. |
| Membership.RolesOf | HomeCinema.Services/MembershipService.cs:109-112 | Every role collected from the associations is a stored role. |
| Membership.RolesOfMembership | HomeCinema.Services/MembershipService.cs:109-112 | A role is collected exactly when one of the associations points at it. |
| Membership.UserRolesMembership | HomeCinema.Services/MembershipService.cs:101-116 | On a valid store, a role is among a known user's roles exactly when it is stored and some association pairs that user with it. |
| Membership.Names | HomeCinema.Services/MembershipService.cs:52 | The principal's role names are the roles' names, in order. |
| Membership.RoleByIdExact | HomeCinema.Services/MembershipService.cs:124 | With unique role keys, GetSingle(roleId) returns a role exactly when it is stored under that key. |
| Membership.MembershipService.constructor | HomeCinema.Services/MembershipService.cs:16-25 | A service over the given roles and an empty user store is valid. |
| Membership.MembershipService.CreateUser | HomeCinema.Services/MembershipService.cs:58-94 | A name in use fails with "Username is already in use" and changes nothing. Otherwise the unlocked user, with the salted hash, is committed under the next key. With every requested role present, the associations are committed and the user is returned. At the first missing role id it fails with "Role doesn't exist." The user stays committed and the associations staged before the failure stay uncommitted. The store stays valid. |
| Membership.MembershipService.StoreNewUser | HomeCinema.Services/MembershipService.cs:67-93 | Past the name check: the user row is committed first, then each role's association. The outcome follows the position of the first missing role. |
| Membership.MembershipService.CreateUserAsWritten | HomeCinema.Services/MembershipService.cs:58-94 | CreateUser with the guard as written. A null role-id array fails with a NullReferenceException after the new user row and the earlier staged associations were committed; nothing stays pending. For an array the outcome is that of CreateUser: success with every association committed, or "Role doesn't exist." at the first missing role id. A name in use changes nothing. |
| Membership.MembershipService.AddAndCommitUser | HomeCinema.Services/MembershipService.cs:79-81 | The added user is committed under the next identity key, together with the pending associations. |
| Membership.MembershipService.Commit | HomeCinema.Services/MembershipService.cs:91 | Pending users are appended with consecutive keys, pending associations are appended, and nothing is left pending. |
| Membership.MembershipService.AddUserToRoles | HomeCinema.Services/MembershipService.cs:83-89 | The foreach loop stages one association per role id, in order, up to the first id that names no role. It reports that id's error. |
| Membership.MembershipService.AddUserToRole | HomeCinema.Services/MembershipService.cs:122-134 | A missing role fails with RoleDoesNotExist and stages nothing. Otherwise it stages exactly UserRole(roleId, user.ID). |
| Membership.Links | HomeCinema.Services/MembershipService.cs:128-133 | There is one association per role id, in order, all for the same user. |
| Membership.MissingRole | HomeCinema.Services/MembershipService.cs:124-126 | The position of the first role id that names no role, or the count when all exist. |
| Membership.RequestedRoles | HomeCinema.Services/MembershipService.cs:83 | Under the corrected guard, a null array requests no roles and an array requests its ids. |
| Membership.RolesGuardAsWrittenFaultsOnNull | HomeCinema.Services/MembershipService.cs:83 | The guard as written faults with a null reference on a null array. |
| Membership.RolesGuardsAgreeOnArrays | HomeCinema.Services/MembershipService.cs:83 | On a non-null array the written and the corrected guard visit the same ids. |
| Membership.AddUserKeepsInvariant | HomeCinema.Services/MembershipService.cs:60-81 | Committing a user under a fresh name and the next key keeps the store's constraints, and so do associations of that user to existing roles. No earlier association refers to the new key. |
| Membership.FindNewUser | HomeCinema.Services/MembershipService.cs:60-65 | After a user is added under a fresh name, the lookup by that name finds that user. |
| Membership.CreatedUserValidates | HomeCinema.Services/MembershipService.cs:69-77 | The created user logs in with the password it was created with, and gets a principal. |
| Membership.CreatedUserRoles | HomeCinema.Services/MembershipService.cs:83-91 | The roles of a user created with all its role ids present are exactly the stored roles whose keys were requested. |
| Membership.NewUserRoles | HomeCinema.Services/MembershipService.cs:85-88 | When a user's associations are exactly those of the requested ids, the user's roles are exactly the stored roles with those keys. |
| Linq.FirstOrDefault | HomeCinema.Services/MembershipService.cs:43 | The result satisfies the predicate and sits at a position before which no element satisfies it: it is the first match. It is null exactly when no element satisfies the predicate. |
| Linq.FirstIndex | HomeCinema.Services/MembershipService.cs:124 | The first position that satisfies the predicate, or none when no position does. |
| Linq.FirstOrDefaultAppend | HomeCinema.Services/MembershipService.cs:60 | Appending an element changes the first match only when there was none before. |
| Linq.Distinct | HomeCinema.Services/MembershipService.cs:115 | Keeps exactly the elements of the input, without duplicates. |
| Linq.DistinctOfDistinct | HomeCinema.Services/MembershipService.cs:115 | A duplicate-free sequence is its own Distinct. |
| Linq.Where | HomeCinema.Web/Controllers/MoviesController.cs:81-83 | Keeps every copy of each element that satisfies the predicate and no copy of any other: the multiset of the result is the input's restricted to the predicate. |
| Linq.WhereAppend | HomeCinema.Web/Controllers/MoviesController.cs:81-83 | Filtering keeps the input order: the filter of a concatenation is the concatenation of the filters. |
| Linq.WhereAll | HomeCinema.Web/Controllers/MoviesController.cs:81-83 | A predicate every element satisfies keeps the whole sequence. |
| Linq.WhereSame | HomeCinema.Web/Controllers/MoviesController.cs:81-83 | Predicates that agree on the elements select the same subsequence. |
| Linq.OrderBy | HomeCinema.Web/Controllers/MoviesController.cs:84 | The result is a permutation of the input, sorted by the key. |
| Linq.InsertBySorted | HomeCinema.Web/Controllers/MoviesController.cs:84 | Inserting into a sorted sequence keeps it sorted. |
| Linq.Skip | HomeCinema.Web/Controllers/MoviesController.cs:85 | Drops the first n elements, or none for n of zero or less. |
| Linq.Take | HomeCinema.Web/Controllers/MoviesController.cs:86 | Keeps the first n elements, or none for n of zero or less. |
| Linq.TakeSkip | HomeCinema.Web/Controllers/MoviesController.cs:85-86 | Take(n) and Skip(n) split the sequence, with multisets included. |
| Linq.TakeSortedBound | HomeCinema.Web/Controllers/MoviesController.cs:40 | In a sorted sequence, anything Take(n) leaves out has a key no smaller than any element taken. |
| Text.ToLower | HomeCinema.Web/Controllers/MoviesController.cs:82 | Lower-casing keeps the length, and each character becomes its lower-case form in place. |
| Text.ToLowerIdempotent | HomeCinema.Web/Controllers/MoviesController.cs:82-83 | Lower-casing twice equals lower-casing once. |
| Text.ToLowerKeepsWhiteSpace | HomeCinema.Web/Controllers/MoviesController.cs:83 | Lower-casing maps whitespace to whitespace, and nothing else to whitespace. |
| Text.TrimStart | HomeCinema.Web/Controllers/MoviesController.cs:83 | The result is a suffix that does not start with whitespace, and only whitespace was removed. |
| Text.TrimEnd | HomeCinema.Web/Controllers/MoviesController.cs:83 | The result is a prefix that does not end with whitespace, and only whitespace was removed. |
| Text.TrimAllWhiteSpace | HomeCinema.Web/Controllers/MoviesController.cs:83 | A string of whitespace only trims to the empty string. |
| Text.ContainsAt | HomeCinema.Web/Controllers/MoviesController.cs:82-83 | String.Contains holds exactly when the needle starts at some position. |
| Text.TrimSlice | HomeCinema.Web/Controllers/MoviesController.cs:83 | Trim removes whitespace at both ends, and its result occurs in the input. |
| Movies.Latest | HomeCinema.Web/Controllers/MoviesController.cs:40 | At most six movies (all of them when there are fewer), newest release first, drawn from the stored movies. |
| Movies.LatestAreNewest | HomeCinema.Web/Controllers/MoviesController.cs:40 | A movie left out of the latest listing is no newer than any movie in it. |
| Movies.Matching | HomeCinema.Web/Controllers/MoviesController.cs:79-104 | A null or empty filter returns the stored movies unchanged. Otherwise each copy of a movie is kept exactly when its lower-cased title contains the trimmed, lower-cased filter, so the count is the number of matching movies. |
| Movies.MatchingAppend | HomeCinema.Web/Controllers/MoviesController.cs:79-104 | The selection keeps the stored order: the matches of two runs of movies, one after the other, are the matches of their concatenation. |
| Movies.FilterIgnoresCase | HomeCinema.Web/Controllers/MoviesController.cs:82-83 | A filter and its lower-cased form select the same movies. |
| Movies.BlankFilterMatchesAll | HomeCinema.Web/Controllers/MoviesController.cs:79-93 | A non-empty filter made of whitespace selects every movie. |
| Movies.CeilDiv | HomeCinema.Web/Controllers/MoviesController.cs:112 | The ceiling of total / size, for positive and for negative sizes. |
| Movies.ByKey | HomeCinema.Web/Controllers/MoviesController.cs:84 | The movies, as a permutation, in ascending key order. |
| Movies.Window | HomeCinema.Web/Controllers/MoviesController.cs:84-86 | Exactly the key-ordered movies from position max(offset, 0) on, at most size of them. |
| Movies.Wrap32 | HomeCinema.Web/Controllers/MoviesController.cs:85 | The product page * pageSize wraps to 32 bits and is unchanged when it fits. |
| Movies.Page | HomeCinema.Web/Controllers/MoviesController.cs:68-119 | A page size of 0 fails by dividing by zero. Otherwise the result has the requested page, TotalCount equal to the number of matching movies, and TotalPages equal to the ceiling of count / pageSize. Its items are the matching movies at key positions from the 32-bit product page * pageSize (0 when negative) on: exactly min(pageSize, count - start) of them, and none for a negative page size or a start past the end. |
| Movies.WindowCovers | HomeCinema.Web/Controllers/MoviesController.cs:85-86 | Key position start + rem is item rem of the window that starts at start. |
| Movies.PositionBelowPageCount | HomeCinema.Web/Controllers/MoviesController.cs:112 | Every position below the count lies on a page below TotalPages. |
| Movies.PageOfPosition | HomeCinema.Web/Controllers/MoviesController.cs:81-101 | With a positive page size, every matching movie appears on page j / pageSize at place j % pageSize, and that page is below TotalPages. |
| Movies.FindMovie | HomeCinema.Web/Controllers/MoviesController.cs:56 | GetSingle(id) returns a stored movie with that key, and returns null exactly when none has it. |
| Movies.FindMovieExact | HomeCinema.Web/Controllers/MoviesController.cs:177 | With unique keys, GetSingle(id) returns a movie exactly when it is stored under that key. |
| Movies.NewStocks | HomeCinema.Web/Controllers/MoviesController.cs:139-148 | NumberOfStocks stocks (none for zero or less), each available, each pointing at the new movie, each keyed by its own fresh GUID. |
| Movies.AddedMovieFound | HomeCinema.Web/Controllers/MoviesController.cs:150-152 | A movie committed under the next key is what GetSingle finds under that key, and keys stay unique. |
| Movies.EditedMovieFound | HomeCinema.Web/Controllers/MoviesController.cs:182-186 | A movie edited in place under its own key stays the one GetSingle finds, and keys stay unique. |
| Movies.MoviesController.constructor | HomeCinema.Web/Controllers/MoviesController.cs:26-31 | A controller over a repository with unique keys below the next key is valid. |
| Movies.AppendStocks | HomeCinema.Web/Controllers/MoviesController.cs:138-148 | The stock loop leaves the movie's existing stocks first and appends exactly the NumberOfStocks new stocks NewStocks describes, in loop order. |
| Movies.MoviesController.Add | HomeCinema.Web/Controllers/MoviesController.cs:124-161 | An invalid model gives BadRequest and changes nothing. Otherwise the updated blank movie, plus the new stocks, is committed once under the next key and answered with Created. |
| Movies.MoviesController.Update | HomeCinema.Web/Controllers/MoviesController.cs:165-193 | An invalid model gives BadRequest and an unknown key gives NotFound; both change nothing. Otherwise exactly the stored movie is replaced by its update, GetSingle finds the edited record, and the reply carries the stored image. |
| Account.Login | HomeCinema.Web/Controllers/AccountController.cs:30-54 | Always HTTP 200. Success exactly when the model is valid and ValidateUser returns a user. |
| Account.LoginAccepts | HomeCinema.Web/Controllers/AccountController.cs:36-47 | On a valid store, a login succeeds exactly for a valid model and the password of an unlocked user of that name. |
| Account.LoginFailuresCollapse | HomeCinema.Web/Controllers/AccountController.cs:40-50 | An invalid model, an unknown user, a wrong password and a locked account all give the same reply: 200 with success = false. |
| Account.Register | HomeCinema.Web/Controllers/AccountController.cs:59-85 | An invalid model gives 400 with success = false and does not touch the service. Otherwise CreateUser is called with role id 1. A name in use surfaces as its exception and leaves the store and the key counter as they were. For a fresh name the user is committed under the next key and nothing stays pending; a missing role 1 then surfaces as its exception. On success the reply is 200 with success = true, the user logs in with the password, and holds exactly the role with key 1. |
| Account.RegisteredUser | HomeCinema.Web/Controllers/AccountController.cs:71-75 | A user stored under a fresh name with the association to role 1 logs in, and holds exactly role 1. |
| Authorization.IsInRole | HomeCinema.Web/Controllers/MoviesController.cs:20 | The principal is in a role exactly when one of its role names equals it, ignoring case. |
| Authorization.Authorize | HomeCinema.Web/Controllers/MoviesController.cs:20 | A public action is allowed. A protected action without a principal is denied as unauthenticated. With a principal, it is allowed exactly when no role is required or the principal holds a required role; otherwise it is denied as unauthorized. |
| Authorization.PrincipalOf | HomeCinema.Services/MembershipService.cs:46-52 | No credentials give no principal. Otherwise the principal is the one ValidateUser builds. |
| Authorization.AdminAmongNames | HomeCinema.Services/MembershipService.cs:50-52 | The principal's role names include Admin exactly when one of the user's roles is named Admin. |
| Authorization.Gate | HomeCinema.Web/Controllers/MoviesController.cs:20-68 | An anonymous action is always allowed. A protected action without credentials is denied as unauthenticated, and with credentials it is denied as unauthenticated exactly when ValidateUser rejects them. |
| Authorization.GateDecision | HomeCinema.Web/Controllers/MoviesController.cs:20-68 | Latest, the paged list, Login and Register are always allowed. Every other action is allowed exactly for validated credentials of an Admin. It is denied as unauthenticated exactly for missing or rejected credentials. |
| Authorization.LockedUserDenied | HomeCinema.Services/MembershipService.cs:141-149 | A locked account is denied every protected action, even with the right password. |
| Authorization.AdminAllowed | HomeCinema.Web/Controllers/AccountController.cs:14 | On a valid store, the correct password of an unlocked user associated with a role named Admin opens every action. |

## Left out

- Hashing and salt generation (`IEncryptionService`): the hash is an uninterpreted function field, and the salt is a parameter. `DateTime.Now` and `Guid.NewGuid` are parameters too.
- The AutoMapper mappings between `Movie` and `MovieViewModel`: the model answers with the entity itself. `Movie.UpdateMovie` is not part of this model. It is an abstract function, assumed to keep a movie's key.
- Movie fields other than the key, title, release date, image and stocks.
- `MoviesController.PostAsync`, the image upload: it is multipart reading and file-system I/O.
- The details action (`MoviesController.cs:50-64`) is only its lookup, `Movies.FindMovie`. Its reply is always 200, with null for an unknown key.
- The HTTP envelope and the exception handling of the base controller's `CreateHttpResponse` are not part of this model. A thrown exception is a `Failure`/`Faulted` value, and `ModelState` validation is a boolean input.
- `HomeCinemaAuthHandler`, which extracts credentials and installs the principal, is not part of this model. Credentials are given as an optional user name and password.
- Authorization.Authorize: it keeps `Unauthenticated` and `Unauthorized` apart. Web API's `AuthorizeAttribute` answers 401 for both.
- Authorization.Authorize: an authenticated identity with an empty name (`GenericIdentity("")`) is not modelled.
- Authorization.SameRole: case-insensitive comparison covers ASCII letters only.
- Text.ToLower: lower-cases ASCII letters only. Culture-specific and non-ASCII case mappings are not modelled.
- Concurrency is not modelled: not the race between two creations under the same name, and not transactions. The unit of work is a sequential pending/committed split.
- Membership.RolesOf: skips an association whose role does not exist, where the navigation property would be null. Under `Valid()` every association resolves, so the difference is unreachable.
- Linq.OrderBy: sorted and a permutation are proved. Stability (ties keep their input order) follows from the insertion but is not stated as a lemma.
- Movies.Page: `Count()` is unbounded here; the source's 32-bit count would overflow past 2^31 - 1 matching movies. A negative Skip is modelled as LINQ to Objects treats it (skip nothing). The database provider's treatment of a negative offset is not modelled.
- Movies.MoviesController.Add: `Add` followed by `Commit` is one step. The key the commit assigns is known in advance and written into the stocks.
- Membership.MembershipService.CreateUser: runs the role loop under the intended guard `roles != null && roles.Length > 0`, so a null role-id array succeeds with no roles. The fault the written guard raises is modelled by `CreateUserAsWritten` (see Findings).
- Membership.MembershipService.StoreNewUser: runs under the intended guard as well; for a null role-id array it commits the user and returns it.
- The two Commit calls of CreateUser are modelled. `AddAndCommitUser` and `AddUserToRoles` factor the inline code of `CreateUser` into methods; `StoreNewUser` is the part after the name check.

## Findings

| source | as written | input that shows it | evidently intended | confidence | as-written member | corrected member |
|---|---|---|---|---|---|---|
| HomeCinema.Services/MembershipService.cs:83 | `roles != null \|\| roles.Length > 0`: a null array makes the first operand false, so `roles.Length` dereferences null. A non-null array always passes, so the length test never decides anything. | `CreateUser(name, email, password, null)` for a fresh name: the user row is already committed when the guard throws a NullReferenceException, and the second commit is skipped (`CreateUserAsWritten`, `Membership.RolesGuardAsWrittenFaultsOnNull`). | `roles != null && roles.Length > 0`: a null or empty array adds no roles, and the user is returned. | not executed | Membership.MembershipService.CreateUserAsWritten | Membership.RequestedRoles |
