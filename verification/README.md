# Product-management authentication and catalogue core, in Dafny

This project models the server side of a Spring Boot product-management service. The service has users with roles, a catalogue of categories and products, and JWT bearer authentication backed by a server-side token table. The model covers five parts:

- **Token registry** (`TokenServiceImpl`). It keeps one `(token, refreshToken, username)` row per user. A new login replaces the previous row, and logout deletes the row by its access token.
- **Request filter** (`JwtAuthFilter.doFilterInternal`). For each request it:
  - extracts the `Bearer ` token;
  - rejects tokens missing from the registry;
  - maps the four caught decoding failures to 401 or 403 error bodies;
  - installs a principal only when the subject resolves to a user and the token validates.
- **Accounts** (`UserServiceImpl`, `UserDetailsServiceImpl`, `CommonUtils`, `AppRole`):
  - the ordered registration checks;
  - the case-insensitive filtering of requested role names against the three application roles;
  - login, which stores exactly the token pair it returns;
  - logout.
- **Catalogue CRUD** (`CategoryServiceImpl`, `RoleServiceImpl`, `ProductServiceImpl`):
  - names unique ignoring case;
  - not-found and conflict checks in a fixed order;
  - updates that overwrite a fixed field list.
- **Error table** (`GlobalExceptionHandler`). It maps each exception kind to an HTTP status, a message and a detail list.

Each repository is a sequence of rows (`seq`) searched first-match (`Table.IndexWhere`); every service finds and deletes by id through `Table.IndexOfKey` and `Table.DeleteKey`, and gives a new row `Table.NextId`. Each module has a `Valid` predicate (unique ids, unique names or emails or tokens) under which the first match is the only match. Every service operation is a pure function that returns `Result<(new state, value), Failure>`. An `Err` carries no new state, so a failing call leaves every table as it was.

The JWT codec (`JwtUtils`) is not part of this model. It is the `Jwt.Codec` value: uninterpreted functions for issuing access and refresh tokens, decoding a token to a subject or a failure kind, and validating a token against user details. The security context is an explicit `Option<Principal>` argument. Clocks are caller-supplied instants.

Modules, one file each:
- `Wrappers`, `Text` (ASCII case folding, `equalsIgnoreCase`, blankness, decimal rendering) and `Table` (generic row search, removal, fresh ids);
- `Errors`, `AppRoles`, `TokenRegistry`, `Users`, `Roles`, `Categories`, `Products`, `Jwt`, `AuthFilter` and `Accounts`;
- `Sessions`, which holds end-to-end request sequences.

Behaviour of the code worth noting:
- When `validateToken` fails, the filter lets the request through unauthenticated. It does not answer 401.
- An `IllegalArgumentException` during decoding is answered 403 with the text "JWT token is expired".
- A `UsernameNotFoundException` from the user lookup is not caught by the filter. Neither is a JWT exception outside the four caught kinds, such as a bad signature. Both escape the filter, as `FilterOutcome.Escape`.
- `deleteToken` never returns `false`, so the "false delete yields null" branch of `logoutUser` cannot be reached. `Accounts.LogoutUser` states this in its contract.

## Model

| member | source | states |
|---|---|---|
| TokenRegistry.RecordOf | src/main/java/com/spring/task/service/serviceimpl/TokenServiceImpl.java:25 | `findByUsername` returns a row of the registry carrying that username, and is empty exactly when no row does |
| TokenRegistry.FindByToken | src/main/java/com/spring/task/service/serviceimpl/TokenServiceImpl.java:48-50 | the revocation lookup returns a stored row with that access token, and is empty exactly when no row has it; as a pure function it cannot change the registry |
| TokenRegistry.SaveToken | src/main/java/com/spring/task/service/serviceimpl/TokenServiceImpl.java:24-32 | after saving, the user's row is exactly (token, refresh, username); the row count is unchanged when the user already had a row and grows by one otherwise |
| TokenRegistry.DeleteToken | src/main/java/com/spring/task/service/serviceimpl/TokenServiceImpl.java:36-45 | fails with not-found "Token not found" exactly when no row has the token; otherwise returns true, removes one row and adds none |
| TokenRegistry.SaveTokenKeepsOthers | src/main/java/com/spring/task/service/serviceimpl/TokenServiceImpl.java:25-30 | saving for one user leaves every other user's row unchanged |
| TokenRegistry.SaveTokenKeepsOneRowPerUser | src/main/java/com/spring/task/service/serviceimpl/TokenServiceImpl.java:25-30 | whatever token is saved, every username still has at most one row, because the user's existing row is reused |
| TokenRegistry.SaveTokenPreservesValid | src/main/java/com/spring/task/service/serviceimpl/TokenServiceImpl.java:25-30 | saving a token not held by another user keeps one row per user and one row per token |
| TokenRegistry.SaveThenFind | src/main/java/com/spring/task/service/serviceimpl/TokenServiceImpl.java:24-31 | after `saveToken(t, r, u)` the lookup of `t` yields exactly the row (t, r, u) |
| TokenRegistry.SaveTokenRevokesPrevious | src/main/java/com/spring/task/service/serviceimpl/TokenServiceImpl.java:25-27 | a second save for the same user with a different token makes the earlier token unknown |
| TokenRegistry.DeleteTokenRemovesOnlyIt | src/main/java/com/spring/task/service/serviceimpl/TokenServiceImpl.java:42-44 | after a delete the token is unknown, the registry stays valid, and every other row is still present |
| TokenRegistry.DeleteTokenTwiceFails | src/test/java/com/spring/task/service/serviceimpl/TokenServiceImplTest.java:61-67 | deleting the same token a second time fails with not-found, so logout is not idempotent |
| Users.FindByEmail | src/main/java/com/spring/task/service/serviceimpl/UserDetailsServiceImpl.java:25 | the lookup returns a stored user with exactly that email, and is empty exactly when there is none |
| Users.LoadUserByUsername | src/main/java/com/spring/task/service/serviceimpl/UserDetailsServiceImpl.java:22-32 | yields details of a stored user whose username is the requested one; fails with "could not found user..!!" exactly when no user has that email |
| Users.LoadUserByUsernameFindsTheUser | src/test/java/com/spring/task/service/serviceimpl/UserDetailsServiceImplTest.java:31-45 | with one user per email, loading a stored user's email yields that user's own details |
| Users.LoadUserByUsernameIsCaseSensitive | src/main/java/com/spring/task/service/serviceimpl/UserDetailsServiceImpl.java:25 | the lookup does not fold case: for every table, user and username other than that user's exact email (a spelling differing only in letter case included), the lookup never returns that user |
| AppRoles.FetchAllAppRoles | src/test/java/com/spring/task/util/CommonUtilsTest.java:16-19 | one name per enumeration constant, in declaration order, every constant's name present, no duplicates |
| AppRoles.FetchAllAppRolesOrder | src/main/java/com/spring/task/util/CommonUtils.java:11-16 | the list is exactly ROLE_ADMIN, ROLE_USER, ROLE_MANAGER |
| AppRoles.IsAppRoleNameIff | src/main/java/com/spring/task/service/serviceimpl/UserServiceImpl.java:101 | a requested name is accepted exactly when it equals some constant's role name ignoring ASCII case |
| Text.EqualsIgnoreCaseIffLower | src/main/java/com/spring/task/repository/CategoryRepository.java:16 | Java's `equalsIgnoreCase` agrees with comparing `LOWER` of both sides, so the application-role filter of registration (UserServiceImpl.java:101) and the `LOWER(name) = LOWER(:name)` name-conflict queries of the category, product and role repositories compare names the same way |
| Errors.FieldMessages | src/main/java/com/spring/task/exception/GlobalExceptionHandler.java:50 | the i-th detail is the i-th field error's field name, " : ", and its default message, one per field error |
| Errors.Handle | src/main/java/com/spring/task/exception/GlobalExceptionHandler.java:46-112 | every failure gets a 4xx status; 409 exactly for bad credentials and resource-already-exists, 404 exactly for the common exception, 401 exactly for an expired-token exception, 400 for all others; the details are the one exception message, except for validation errors, whose details are the field messages |
| Errors.HandleMessages | src/main/java/com/spring/task/exception/GlobalExceptionHandler.java:58-112 | the message of each dedicated handler ("exception", "Bad Credentials", "Already Exist", ...) and "Error" for exceptions without one |
| Roles.FindByRoleName | src/main/java/com/spring/task/service/serviceimpl/RoleServiceImpl.java:47-49 | returns a stored role whose name equals the request ignoring case, and is empty exactly when none does |
| Roles.CreateNewRole | src/main/java/com/spring/task/service/serviceimpl/RoleServiceImpl.java:30-44 | fails with "<name> is Role already exist" exactly when a role has the name ignoring case; otherwise appends one role with exactly the requested name and a fresh id |
| Roles.CreateRole | src/main/java/com/spring/task/service/serviceimpl/RoleServiceImpl.java:53-55 | appends the role as given under a fresh id, with no duplicate check |
| Roles.CreateRoleCanDuplicate | src/main/java/com/spring/task/service/serviceimpl/RoleServiceImpl.java:53-55 | `createRole` alone can break name uniqueness: saving "role_user" beside "ROLE_USER" yields an invalid table |
| Roles.DeleteById | src/main/java/com/spring/task/service/serviceimpl/RoleServiceImpl.java:70-78 | fails with "Error: Role is not found." exactly when no role has the id; otherwise one row fewer |
| Roles.UpdateRole | src/main/java/com/spring/task/service/serviceimpl/RoleServiceImpl.java:82-100 | not-found exactly when the id is absent, checked first; conflict exactly when another id has the name ignoring case; otherwise only the name and update time of that role change |
| Roles.MapEntityToResponse | src/main/java/com/spring/task/service/serviceimpl/RoleServiceImpl.java:103-105 | the response carries the role's id, name and creation time unchanged |
| Roles.CreateNewRolePreservesValid | src/main/java/com/spring/task/service/serviceimpl/RoleServiceImpl.java:34-43 | a successful create keeps ids unique and names unique ignoring case |
| Roles.DeleteByIdRemovesExactly | src/main/java/com/spring/task/service/serviceimpl/RoleServiceImpl.java:70-78 | the rows after a delete are exactly the rows whose id differs, and the table stays valid |
| Roles.UpdateRolePreservesValid | src/main/java/com/spring/task/service/serviceimpl/RoleServiceImpl.java:92-99 | a successful update keeps ids and names unique |
| Roles.UpdateRoleOwnNameAllowed | src/main/java/com/spring/task/service/serviceimpl/RoleServiceImpl.java:92 | renaming a role to its own name in another letter case is not a conflict |
| Categories.GetCategoryById | src/main/java/com/spring/task/service/serviceimpl/CategoryServiceImpl.java:49-51 | returns a stored category with that id, and is empty exactly when there is none |
| Categories.CreateCategory | src/main/java/com/spring/task/service/serviceimpl/CategoryServiceImpl.java:31-46 | fails with "Category already exist<name>" exactly when a name matches ignoring case; otherwise appends one category with the request's name, description and image URL under a fresh id |
| Categories.DeleteById | src/main/java/com/spring/task/service/serviceimpl/CategoryServiceImpl.java:61-66 | fails with "Category not found with Id : <id>" exactly when no category has the id; otherwise one row fewer |
| Categories.UpdateCategory | src/main/java/com/spring/task/service/serviceimpl/CategoryServiceImpl.java:70-92 | not-found first, then a conflict exactly when another id has the name ignoring case; otherwise name, description, image URL and update time are set and nothing else changes |
| Categories.MapEntityToResponse | src/main/java/com/spring/task/service/serviceimpl/CategoryServiceImpl.java:95-100 | the response copies id, name, description, image URL and creation time |
| Categories.CreateCategoryPreservesValid | src/main/java/com/spring/task/service/serviceimpl/CategoryServiceImpl.java:34-45 | a successful create keeps ids unique and names unique ignoring case |
| Categories.DeleteByIdRemovesExactly | src/main/java/com/spring/task/service/serviceimpl/CategoryServiceImpl.java:61-66 | the rows after a delete are exactly the rows whose id differs, and the table stays valid |
| Categories.UpdateCategoryPreservesValid | src/main/java/com/spring/task/service/serviceimpl/CategoryServiceImpl.java:81-91 | a successful update keeps ids and names unique |
| Categories.UpdateCategoryOwnNameAllowed | src/main/java/com/spring/task/service/serviceimpl/CategoryServiceImpl.java:81-84 | renaming a category to its own name in another letter case succeeds |
| Categories.UpdateThenRespond | src/main/java/com/spring/task/service/serviceimpl/CategoryServiceImpl.java:86-99 | the response to an update shows the request's fields under the updated id |
| Products.CreateProduct | src/main/java/com/spring/task/service/serviceimpl/ProductServiceImpl.java:39-80 | conflict exactly when a name matches ignoring case; otherwise category not found exactly when the category id is unknown; otherwise user not found exactly when the user lookup is empty; no other error; succeeds exactly when all three checks pass, and then one product is appended referencing exactly the resolved category and user, with the request's properties of matching type and the default inventory |
| Products.DeleteById | src/main/java/com/spring/task/service/serviceimpl/ProductServiceImpl.java:95-104 | fails with "Error: Product is not found." exactly when no product has the id; otherwise one row fewer |
| Products.UpdateProduct | src/main/java/com/spring/task/service/serviceimpl/ProductServiceImpl.java:108-148 | checks in order existence, conflict with other ids, category, user, each failure exactly under its condition and no other error; succeeds exactly when all four checks pass, and then only that product changes, to the request's fields with the resolved category and user and the converted inventory |
| Products.MissingErrorsDiffer | src/main/java/com/spring/task/service/serviceimpl/ProductServiceImpl.java:62-72 | the category-not-found and user-not-found errors differ for every pair of ids, so the caller can tell which lookup failed |
| Products.UpdateProductKeepsIdentity | src/main/java/com/spring/task/service/serviceimpl/ProductServiceImpl.java:136-147 | an update keeps id, sku, expiry date and creation time |
| Products.CreateProductPreservesValid | src/main/java/com/spring/task/service/serviceimpl/ProductServiceImpl.java:54-58 | a successful create keeps ids unique and names unique ignoring case |
| Products.DeleteByIdRemovesExactly | src/main/java/com/spring/task/service/serviceimpl/ProductServiceImpl.java:95-104 | the rows after a delete are exactly the rows whose id differs, and the table stays valid |
| Products.UpdateProductPreservesValid | src/main/java/com/spring/task/service/serviceimpl/ProductServiceImpl.java:116-147 | a successful update keeps ids and names unique |
| AuthFilter.ExtractBearer | src/main/java/com/spring/task/config/JwtAuthFilter.java:62-63 | a token is extracted exactly when the header starts with "Bearer " (case-sensitive), and the header is that prefix followed by the token |
| AuthFilter.BearerRoundTrip | src/main/java/com/spring/task/config/JwtAuthFilter.java:63 | extraction returns exactly the token that was prefixed |
| AuthFilter.DoFilter | src/main/java/com/spring/task/config/JwtAuthFilter.java:57-99 | without a bearer header the request proceeds with the principal unchanged; every error body has message "JWT Token" and one detail and comes from a bearer header; an existing principal is never replaced |
| AuthFilter.DoFilterAuthenticatesIff | src/main/java/com/spring/task/config/JwtAuthFilter.java:66-75 | with no principal yet, the filter installs `d` exactly when the bearer token is registered, decodes to `d`'s username, that username loads `d`, and the codec validates the pair |
| AuthFilter.DoFilterRejectsIff | src/main/java/com/spring/task/config/JwtAuthFilter.java:66-95 | an error is written exactly for an unregistered token or one of the four caught decode failures; 401 exactly for unregistered or expired, 403 otherwise |
| AuthFilter.UnregisteredTokenRejected | src/main/java/com/spring/task/config/JwtAuthFilter.java:66-80 | an unregistered token is answered 401 "Invalid token" before any decoding |
| AuthFilter.DecodeFailureTable | src/main/java/com/spring/task/config/JwtAuthFilter.java:82-95 | expired gives 401 "JWT token expired"; malformed 403 "Invalid JWT token"; unsupported 403 "JWT token is unsupported"; illegal argument 403 "JWT token is expired" |
| AuthFilter.ValidateFailureProceedsAnonymously | src/main/java/com/spring/task/config/JwtAuthFilter.java:71-76 | a registered token that fails validation lets the request through with no principal |
| AuthFilter.UnknownSubjectEscapes | src/main/java/com/spring/task/config/JwtAuthFilter.java:70 | a registered token whose subject has no user ends the request with the uncaught not-found exception |
| AuthFilter.OtherJwtErrorEscapes | src/main/java/com/spring/task/config/JwtAuthFilter.java:65-95 | a registered token whose decoding throws a JWT exception outside the four caught kinds escapes the filter with that exception |
| AuthFilter.LowercaseSchemeIgnored | src/main/java/com/spring/task/config/JwtAuthFilter.java:62 | a "bearer " header is not recognised and the request proceeds untouched |
| Accounts.FindOrCreateRole | src/main/java/com/spring/task/service/serviceimpl/UserServiceImpl.java:102-109 | when a role matches the name ignoring case, the table is returned unchanged with that role's id; otherwise exactly one role is appended, spelled as requested and carrying the returned id; either way the returned id names a matching role and validity is kept |
| Accounts.ResolveRoles | src/main/java/com/spring/task/service/serviceimpl/UserServiceImpl.java:98-113 | the role table only grows (old rows kept in place), keeps names unique, and every row it adds carries, spelled as requested, a requested name that is an application role |
| Accounts.ResolveRolesSound | src/main/java/com/spring/task/service/serviceimpl/UserServiceImpl.java:100-111 | every resolved role id names one of the requested names that is an application role |
| Accounts.ResolveRolesComplete | src/main/java/com/spring/task/service/serviceimpl/UserServiceImpl.java:100-111 | every requested application-role name gets a resolved role of that name |
| Accounts.ResolveRolesDropsUnknown | src/main/java/com/spring/task/service/serviceimpl/UserServiceImpl.java:101 | when no requested name is an application role, the role set is empty and the role table is unchanged |
| Accounts.ValidateUserRequest | src/main/java/com/spring/task/service/serviceimpl/UserServiceImpl.java:64-117 | already-exists exactly when the email is taken; then the null-password error, the mismatch error and the empty-role error each exactly under its condition, in that order; otherwise the form has the request's name and email, the encoded password and the resolved roles |
| Accounts.CreateUser | src/main/java/com/spring/task/service/serviceimpl/UserServiceImpl.java:55-62 | fails exactly when validation fails; otherwise appends one user carrying exactly the validated form (name, email, encoded password, resolved role ids), the creation time and an id above every existing id, and returns the role table the validation produced |
| Accounts.CreateUserPreservesValid | src/main/java/com/spring/task/service/serviceimpl/UserServiceImpl.java:73-77 | registration keeps emails and ids unique and role names unique |
| Accounts.Authenticate | src/main/java/com/spring/task/service/serviceimpl/UserServiceImpl.java:120-139 | succeeds exactly when the authentication manager authenticates; a manager exception propagates; an unauthenticated result gives "Invalid Authentication"; on success the returned pair is what the codec issued for the email and is the user's stored row |
| Accounts.AuthenticateStoresReturnedPair | src/main/java/com/spring/task/service/serviceimpl/UserServiceImpl.java:124-134 | after a login the access token resolves to exactly (access, refresh, email), the registry stays valid and other users' rows are untouched |
| Accounts.LogoutUser | src/main/java/com/spring/task/service/serviceimpl/UserServiceImpl.java:159-170 | a missing or short header throws; a blank token yields null; otherwise not-found exactly when the token is unknown, and "Logout successfully" on every success, so the null-after-failed-delete branch cannot be reached |
| Accounts.LogoutUserRevokes | src/main/java/com/spring/task/service/serviceimpl/UserServiceImpl.java:160-164 | after a logout the token is unknown, the registry stays valid and all other rows survive |
| Accounts.GetCurrentUserProfile | src/main/java/com/spring/task/service/serviceimpl/UserServiceImpl.java:147-156 | the user stored under exactly this email; "User not found" exactly when no user has it |
| Accounts.ProfileAgreesWithLoadUser | src/main/java/com/spring/task/service/serviceimpl/UserServiceImpl.java:147-156 | the profile lookup succeeds exactly when the security lookup does, and both return the same user |
| Sessions.LoginThenFilterAuthenticates | src/main/java/com/spring/task/service/serviceimpl/UserServiceImpl.java:124-134 | the access token a login returns authenticates its owner on the next request |
| Sessions.SecondLoginRevokesFirst | src/main/java/com/spring/task/service/serviceimpl/TokenServiceImpl.java:25-27 | after a second login the first access token is answered 401 "Invalid token" |
| Sessions.LogoutThenFilterRejects | src/main/java/com/spring/task/service/serviceimpl/UserServiceImpl.java:160-164 | after logout the same Authorization header is answered 401 "Invalid token" |
| Sessions.LogoutTwiceFails | src/test/java/com/spring/task/service/serviceimpl/TokenServiceImplTest.java:61-67 | logging out twice with the same header fails the second time with "Token not found" |

## Left out

- `JwtUtils` (signing, parsing, expiry, claim extraction): not part of this model; its results are the uninterpreted `Jwt.Codec` functions.
- `SecurityContextHolder`: thread-local state, replaced by an explicit `Option<Principal>` argument. `authenticate` also stores the authentication in it, which the model does not track.
- `AuthenticationManager` and `PasswordEncoder`: library calls. They appear as the manager's outcome (`Result<bool, Failure>`) and an `encode` function argument.
- Servlet I/O, response content type, JSON serialisation and timestamps in `onError` and `ApiError`: only the (status, message, details) triple is modelled.
- JPA persistence, `@Transactional` and database id generation: ids come from `Table.NextId` (one more than the largest), which is fresh but not the database's sequence.
- The random UUID sku of `createProduct`: it is a caller-supplied argument.
- `LocalDateTime.now()`: times are caller-supplied instants.
- `price` and `weight` (floats): carried as opaque values and never computed on.
- Products.CreateProduct: the request's inventory is a `String` and the entity's an `int`, so the property copy at ProductServiceImpl.java:75 skips it. The model stores the entity default `0`.
- Products.UpdateProduct: ProductServiceImpl.java:144 passes the request's `String` inventory to the entity's `int` setter, which does not compile as written. The model takes the conversion as the parameter `inventoryOf`.
- Controllers, bean-validation annotations and the getters that only map lists (`getAllUsers`, `getAllRoles`, `getAllCategoriesLst`, `getAllProductsLst`, the user and product `mapEntityToResponse`): plumbing with no decision in it. `getCurrentUserProfile` is modelled up to the response mapping.
- `UserService.getUserById`: the `UserService` interface declares no such method, so the calls at ProductServiceImpl.java:68 and :130 do not compile as written. Product operations take the user lookup as the function argument `userById`.
- Database-level effects of a delete (cascades, foreign-key violations on join tables): the model removes exactly one row from the one table.
- Repository queries that find several rows, where the database would throw: tables are kept `Valid`, which makes that impossible, and lookups return the first match otherwise.
- Case folding beyond ASCII letters: `equalsIgnoreCase` and SQL `LOWER` are modelled on ASCII only.
- `StringUtils.isBlank`: assumed to mean every character is `Character.isWhitespace`.
- The null check on the user request in `validateUserRequest`: it comes after a dereference of the same request, so it can never fire. Requests in the model are never null.
- Iteration order of the request's role `Set`: modelled as the order of a sequence. The set of resolved role names does not depend on it; the id and the spelling each newly created role gets do.
- The two `GlobalExceptionHandler` methods that take an `HttpStatus` argument (media type not supported, unreadable message): they do not override the framework's methods, which take `HttpStatusCode`, so they are never called.
- Exact text of JVM exception messages for a null or too short Authorization header in `logoutUser`: modelled as a runtime failure with a representative message.
- Concurrency: only sequential operations are modelled.
- TokenRegistry.SaveTokenPreservesValid: token uniqueness after a save needs the new token not to be held by another user (`TokenFreeFor`). The codec is assumed never to issue the same token string to two users. One row per user holds with no such assumption (`TokenRegistry.SaveTokenKeepsOneRowPerUser`).
- Errors.Handle: it assumes `ResourceNotFoundException` and the other exception classes do not extend `CommonException`. Those classes are not part of this model; if one did, Spring would pick the `CommonException` handler for it.
