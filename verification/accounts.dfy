/** `UserServiceImpl`: registration (`createUser` with `validateUserRequest`),
    login (`authenticate`) and logout (`logoutUser`). */
module Accounts {
  import opened Wrappers
  import opened Text
  import opened Table
  import opened Errors
  import AppRoles
  import Roles
  import opened Users
  import opened TokenRegistry
  import opened Jwt

  /** A registration request. Null password fields and a null role set are
      `None`; the role set is taken in the order it is iterated. */
  datatype UserRequest = UserRequest(name: string, email: string, password: Option<string>,
                                     confirmPassword: Option<string>, roles: Option<seq<string>>)

  datatype AuthRequest = AuthRequest(email: string, password: string)

  datatype JwtResponse = JwtResponse(accessToken: string, refreshToken: string)

  /** The user `validateUserRequest` builds, before it is saved and given an id. */
  datatype UserForm = UserForm(name: string, email: string, password: string, roleIds: set<int>)

  /** Some role of `table` has id `id` and the name `name` ignoring case. */
  predicate Names(table: seq<Roles.Role>, id: int, name: string) {
    exists k :: 0 <= k < |table| && table[k].id == id && Lower(table[k].name) == Lower(name)
  }

  /** `table'` keeps every row of `table` at its position. */
  predicate Extends(table: seq<Roles.Role>, table': seq<Roles.Role>) {
    |table| <= |table'| && forall k :: 0 <= k < |table| ==> table'[k] == table[k]
  }

  lemma NamesExtends(table: seq<Roles.Role>, table': seq<Roles.Role>, id: int, name: string)
    requires Extends(table, table')
    requires Names(table, id, name)
    ensures Names(table', id, name)
  {
    var k :| 0 <= k < |table| && table[k].id == id && Lower(table[k].name) == Lower(name);
    assert table'[k] == table[k];
  }

  /** One requested role: `findByRoleName(role).orElseGet(() -> createRole(...))`. */
  function FindOrCreateRole(table: seq<Roles.Role>, name: string, now: Instant): (r: (seq<Roles.Role>, int))
    ensures Names(r.0, r.1, name)
    ensures Extends(table, r.0)
    ensures Roles.Valid(table) ==> Roles.Valid(r.0)
    ensures Roles.FindByRoleName(table, name).Some? ==> r == (table, Roles.FindByRoleName(table, name).value.id)
    ensures Roles.FindByRoleName(table, name).None? ==>
              |r.0| == |table| + 1 && r.0[|table|].name == name && r.0[|table|].id == r.1
  {
    match Roles.FindByRoleName(table, name)
    case Some(role) =>
      var k :| 0 <= k < |table| && table[k] == role;
      (table, role.id)
    case None =>
      var (table', role) := Roles.CreateRole(table, name, now);
      assert table'[|table|] == role;
      (table', role.id)
  }

  /** The role loop of `validateUserRequest`: names that equal an application
      role ignoring case are looked up or created, in order; others are dropped. */
  function ResolveRoles(table: seq<Roles.Role>, requested: seq<string>, now: Instant): (r: (seq<Roles.Role>, set<int>))
    ensures Extends(table, r.0)
    ensures Roles.Valid(table) ==> Roles.Valid(r.0)
    ensures AddsOnlyRequested(table, r.0, requested)
    decreases |requested|
  {
    if |requested| == 0 then (table, {})
    else if AppRoles.IsAppRoleName(requested[0]) then
      var (table1, id) := FindOrCreateRole(table, requested[0], now);
      var (table2, ids) := ResolveRoles(table1, requested[1..], now);
      AddsCons(table, table1, table2, requested);
      (table2, {id} + ids)
    else
      var r := ResolveRoles(table, requested[1..], now);
      AddsSkip(table, r.0, requested);
      r
  }

  /** Every row `table'` holds beyond `table` carries, spelled as requested,
      one of the requested names that is an application role. */
  predicate AddsOnlyRequested(table: seq<Roles.Role>, table': seq<Roles.Role>, requested: seq<string>) {
    forall k :: |table| <= k < |table'| ==> RequestedAppRole(table'[k].name, requested)
  }

  /** `name` is, letter for letter, a requested name that is an application role. */
  predicate RequestedAppRole(name: string, requested: seq<string>) {
    exists j :: 0 <= j < |requested| && AppRoles.IsAppRoleName(requested[j]) && name == requested[j]
  }

  lemma AddsSkip(table: seq<Roles.Role>, table': seq<Roles.Role>, requested: seq<string>)
    requires |requested| > 0 && AddsOnlyRequested(table, table', requested[1..])
    ensures AddsOnlyRequested(table, table', requested)
  {
    forall k | |table| <= k < |table'|
      ensures RequestedAppRole(table'[k].name, requested)
    {
      assert RequestedAppRole(table'[k].name, requested[1..]);
      var j :| 0 <= j < |requested[1..]| && AppRoles.IsAppRoleName(requested[1..][j]) && table'[k].name == requested[1..][j];
      assert requested[1..][j] == requested[j + 1];
      assert AppRoles.IsAppRoleName(requested[j + 1]) && table'[k].name == requested[j + 1];
    }
  }

  /** The step for a requested application role: the find-or-create adds at
      most the requested name itself, and the rest of the loop adds only
      later requested names. */
  lemma AddsCons(table: seq<Roles.Role>, table1: seq<Roles.Role>, table2: seq<Roles.Role>, requested: seq<string>)
    requires |requested| > 0 && AppRoles.IsAppRoleName(requested[0])
    requires table1 == table || (|table1| == |table| + 1 && table1[|table|].name == requested[0])
    requires Extends(table1, table2)
    requires AddsOnlyRequested(table1, table2, requested[1..])
    ensures AddsOnlyRequested(table, table2, requested)
  {
    AddsSkip(table1, table2, requested);
    forall k | |table| <= k < |table2|
      ensures RequestedAppRole(table2[k].name, requested)
    {
      if k < |table1| {
        assert table2[k] == table1[k];
        assert table2[k].name == requested[0];
      }
    }
  }

  /** Every resolved id names one of the requested application roles. */
  predicate Sound(table: seq<Roles.Role>, ids: set<int>, requested: seq<string>) {
    forall id :: id in ids ==>
      exists j :: 0 <= j < |requested| && AppRoles.IsAppRoleName(requested[j]) && Names(table, id, requested[j])
  }

  /** Every requested application role is named by a resolved id. */
  predicate Complete(table: seq<Roles.Role>, ids: set<int>, requested: seq<string>) {
    forall j :: 0 <= j < |requested| && AppRoles.IsAppRoleName(requested[j]) ==>
      exists id :: id in ids && Names(table, id, requested[j])
  }

  lemma SoundSkip(table: seq<Roles.Role>, ids: set<int>, requested: seq<string>)
    requires |requested| > 0 && Sound(table, ids, requested[1..])
    ensures Sound(table, ids, requested)
  {
    forall id | id in ids
      ensures exists j :: 0 <= j < |requested| && AppRoles.IsAppRoleName(requested[j]) && Names(table, id, requested[j])
    {
      var j :| 0 <= j < |requested[1..]| && AppRoles.IsAppRoleName(requested[1..][j]) && Names(table, id, requested[1..][j]);
      assert requested[1..][j] == requested[j + 1];
    }
  }

  lemma SoundCons(table: seq<Roles.Role>, id0: int, ids: set<int>, requested: seq<string>)
    requires |requested| > 0 && AppRoles.IsAppRoleName(requested[0]) && Names(table, id0, requested[0])
    requires Sound(table, ids, requested[1..])
    ensures Sound(table, {id0} + ids, requested)
  {
    SoundSkip(table, ids, requested);
  }

  /** Every resolved role is one of the requested application roles. */
  lemma {:induction false} ResolveRolesSound(table: seq<Roles.Role>, requested: seq<string>, now: Instant)
    ensures Sound(ResolveRoles(table, requested, now).0, ResolveRoles(table, requested, now).1, requested)
    decreases |requested|
  {
    if |requested| > 0 {
      var r := ResolveRoles(table, requested, now);
      var rest := requested[1..];
      if AppRoles.IsAppRoleName(requested[0]) {
        var head := FindOrCreateRole(table, requested[0], now);
        var tail := ResolveRoles(head.0, rest, now);
        assert r.0 == tail.0 && r.1 == {head.1} + tail.1;
        ResolveRolesSound(head.0, rest, now);
        NamesExtends(head.0, tail.0, head.1, requested[0]);
        SoundCons(tail.0, head.1, tail.1, requested);
      } else {
        assert r == ResolveRoles(table, rest, now);
        ResolveRolesSound(table, rest, now);
        SoundSkip(r.0, r.1, requested);
      }
    }
  }

  /** Every requested name that is an application role has a resolved role
      of that name. */
  lemma {:induction false} ResolveRolesComplete(table: seq<Roles.Role>, requested: seq<string>, now: Instant)
    ensures Complete(ResolveRoles(table, requested, now).0, ResolveRoles(table, requested, now).1, requested)
    decreases |requested|
  {
    if |requested| > 0 {
      var r := ResolveRoles(table, requested, now);
      var rest := requested[1..];
      if AppRoles.IsAppRoleName(requested[0]) {
        var head := FindOrCreateRole(table, requested[0], now);
        var tail := ResolveRoles(head.0, rest, now);
        assert r.0 == tail.0 && r.1 == {head.1} + tail.1;
        ResolveRolesComplete(head.0, rest, now);
        NamesExtends(head.0, tail.0, head.1, requested[0]);
        forall j | 0 <= j < |requested| && AppRoles.IsAppRoleName(requested[j])
          ensures exists id :: id in r.1 && Names(r.0, id, requested[j])
        {
          if j == 0 {
            assert head.1 in r.1;
          } else {
            assert rest[j - 1] == requested[j];
            var id :| id in tail.1 && Names(tail.0, id, rest[j - 1]);
            assert id in r.1;
          }
        }
      } else {
        assert r == ResolveRoles(table, rest, now);
        ResolveRolesComplete(table, rest, now);
        forall j | 0 <= j < |requested| && AppRoles.IsAppRoleName(requested[j])
          ensures exists id :: id in r.1 && Names(r.0, id, requested[j])
        {
          assert rest[j - 1] == requested[j];
        }
      }
    }
  }

  /** Names that are not application roles are dropped silently: when none
      is one, nothing is resolved and the role table is untouched. */
  lemma {:induction false} ResolveRolesDropsUnknown(table: seq<Roles.Role>, requested: seq<string>, now: Instant)
    requires forall j :: 0 <= j < |requested| ==> !AppRoles.IsAppRoleName(requested[j])
    ensures ResolveRoles(table, requested, now) == (table, {})
    decreases |requested|
  {
    if |requested| > 0 {
      assert !AppRoles.IsAppRoleName(requested[0]);
      forall j | 0 <= j < |requested[1..]|
        ensures !AppRoles.IsAppRoleName(requested[1..][j])
      {
        assert requested[1..][j] == requested[j + 1];
      }
      ResolveRolesDropsUnknown(table, requested[1..], now);
    }
  }

  const PASSWORD_NULL := "Password or Confirm Password cannot be null"
  const PASSWORD_MISMATCH := "Password and Confirm Password are not the same"
  const ROLE_EMPTY := "Role is empty"

  /** `validateUserRequest`: the rules apply in order (existing email,
      missing password, mismatched passwords, empty role set); a request that
      passes them all yields the user form and the role table after the role
      loop. `encode` is the password encoder. */
  function ValidateUserRequest(users: seq<User>, table: seq<Roles.Role>, req: UserRequest,
                               encode: string -> string, now: Instant)
    : (r: Result<(UserForm, seq<Roles.Role>), Failure>)
    ensures (r.Err? && r.error.UserAlreadyExists?) <==> FindByEmail(users, req.email).Some?
    ensures r.Err? && r.error.UserAlreadyExists? ==>
              r.error.message == "There is an existing user with email: " + req.email
    ensures (r.Err? && r.error == CommonFailure(PASSWORD_NULL)) <==>
              FindByEmail(users, req.email).None? && (req.password.None? || req.confirmPassword.None?)
    ensures (r.Err? && r.error == CommonFailure(PASSWORD_MISMATCH)) <==>
              FindByEmail(users, req.email).None? && req.password.Some? && req.confirmPassword.Some?
              && req.password.value != req.confirmPassword.value
    ensures (r.Err? && r.error == CommonFailure(ROLE_EMPTY)) <==>
              FindByEmail(users, req.email).None? && req.password.Some? && req.password == req.confirmPassword
              && (req.roles.None? || |req.roles.value| == 0)
    ensures r.Err? ==> r.error.UserAlreadyExists? || r.error in {CommonFailure(PASSWORD_NULL),
                       CommonFailure(PASSWORD_MISMATCH), CommonFailure(ROLE_EMPTY)}
    ensures r.Ok? ==> var (form, table') := r.value;
      && req.password.Some? && req.roles.Some?
      && form.name == req.name && form.email == req.email && form.password == encode(req.password.value)
      && (form.roleIds, table') == (ResolveRoles(table, req.roles.value, now).1, ResolveRoles(table, req.roles.value, now).0)
  {
    if FindByEmail(users, req.email).Some? then
      Err(UserAlreadyExists("There is an existing user with email: " + req.email))
    else if req.password.None? || req.confirmPassword.None? then
      Err(CommonFailure(PASSWORD_NULL))
    else if req.password.value != req.confirmPassword.value then
      Err(CommonFailure(PASSWORD_MISMATCH))
    else if req.roles.None? || |req.roles.value| == 0 then
      Err(CommonFailure(ROLE_EMPTY))
    else
      var (table', ids) := ResolveRoles(table, req.roles.value, now);
      Ok((UserForm(req.name, req.email, encode(req.password.value), ids), table'))
  }

  /** `createUser`: validate, then save the user under a new id. */
  function CreateUser(users: seq<User>, table: seq<Roles.Role>, req: UserRequest,
                      encode: string -> string, now: Instant)
    : (r: Result<(seq<User>, seq<Roles.Role>, User), Failure>)
    ensures r.Err? <==> ValidateUserRequest(users, table, req, encode, now).Err?
    ensures r.Ok? ==> ValidateUserRequest(users, table, req, encode, now)
                        == Ok((UserForm(r.value.2.name, r.value.2.email, r.value.2.password, r.value.2.roleIds), r.value.1))
    ensures r.Ok? ==> r.value.0 == users + [r.value.2]
    ensures r.Ok? ==> r.value.2.email == req.email && r.value.2.createdAt == now
    ensures r.Ok? ==> r.value.2.id == NextId(users, Users.IdKey)
    ensures r.Ok? ==> forall k :: 0 <= k < |users| ==> users[k].id < r.value.2.id
  {
    match ValidateUserRequest(users, table, req, encode, now)
    case Err(f) => Err(f)
    case Ok((form, table')) =>
      var u := User(NextId(users, Users.IdKey), form.name, form.email, form.password, form.roleIds, now);
      Ok((users + [u], table', u))
  }

  /** Registration keeps emails and ids unique among users and role names
      unique among roles. */
  lemma CreateUserPreservesValid(users: seq<User>, table: seq<Roles.Role>, req: UserRequest,
                                 encode: string -> string, now: Instant)
    requires Users.Valid(users) && Roles.Valid(table)
    requires CreateUser(users, table, req, encode, now).Ok?
    ensures var (users', table', _) := CreateUser(users, table, req, encode, now).value;
      Users.Valid(users') && Roles.Valid(table')
  {
    var (users', table', u) := CreateUser(users, table, req, encode, now).value;
    assert FindByEmail(users, req.email).None?;
    assert forall k :: 0 <= k < |users| ==> users'[k] == users[k];
    assert users'[|users|] == u;
  }

  /** `authenticate`. `manager` is what `AuthenticationManager.authenticate`
      does: throw (`Err`) or return an authentication whose
      `isAuthenticated()` is the boolean. On success the pair issued for the
      email is saved and returned. */
  function Authenticate(reg: Registry, req: AuthRequest, manager: Result<bool, Failure>, codec: Codec)
    : (r: Result<(Registry, JwtResponse), Failure>)
    ensures r.Ok? <==> manager == Ok(true)
    ensures manager.Err? ==> r == Err(manager.error)
    ensures manager == Ok(false) ==> r == Err(BadCredentials("Invalid Authentication"))
    ensures r.Ok? ==> var (reg', resp) := r.value;
      && resp == JwtResponse(codec.issue(req.email), codec.issueRefresh(req.email))
      && RecordOf(reg', req.email) == Some(TokenRecord(resp.accessToken, resp.refreshToken, req.email))
  {
    match manager
    case Err(f) => Err(f)
    case Ok(authenticated) =>
      if !authenticated then Err(BadCredentials("Invalid Authentication"))
      else
        var access := codec.issue(req.email);
        var refresh := codec.issueRefresh(req.email);
        Ok((SaveToken(reg, access, refresh, req.email), JwtResponse(access, refresh)))
  }

  /** A successful login stores exactly the pair it returns: the access token
      now resolves to the (access, refresh, email) row, the registry stays
      valid, and other users' rows are untouched. */
  lemma AuthenticateStoresReturnedPair(reg: Registry, req: AuthRequest, codec: Codec, other: string)
    requires TokenRegistry.Valid(reg)
    requires TokenFreeFor(reg, codec.issue(req.email), req.email)
    requires other != req.email
    ensures var reg' := Authenticate(reg, req, Ok(true), codec).value.0;
      && FindByToken(reg', codec.issue(req.email))
         == Some(TokenRecord(codec.issue(req.email), codec.issueRefresh(req.email), req.email))
      && TokenRegistry.Valid(reg')
      && RecordOf(reg', other) == RecordOf(reg, other)
  {
    var access, refresh := codec.issue(req.email), codec.issueRefresh(req.email);
    SaveThenFind(reg, access, refresh, req.email);
    SaveTokenPreservesValid(reg, access, refresh, req.email);
    SaveTokenKeepsOthers(reg, access, refresh, req.email, other);
  }

  const LOGOUT_OK := "Logout successfully"

  /** `logoutUser`: strip the first seven characters of the header, whatever
      they are, and delete the rest from the registry. A missing or too short
      header throws; a blank token yields `null` (`None`). */
  function LogoutUser(reg: Registry, header: Option<string>): (r: Result<(Registry, Option<string>), Failure>)
    ensures header.None? || |header.value| < 7 ==> r.Err? && r.error.RuntimeFault?
    ensures header.Some? && |header.value| >= 7 && IsBlank(header.value[7..]) ==> r == Ok((reg, None))
    ensures header.Some? && |header.value| >= 7 && !IsBlank(header.value[7..]) ==>
      && (r.Err? <==> FindByToken(reg, header.value[7..]).None?)
      && (r.Err? ==> r.error == ResourceNotFound("Token not found"))
      && (r.Ok? ==> r.value.1 == Some(LOGOUT_OK) && r == Ok((DeleteToken(reg, header.value[7..]).value.0, Some(LOGOUT_OK))))
  {
    if header.None? then
      Err(RuntimeFault("Cannot invoke \"String.substring(int)\" because the return value of \"getHeader(String)\" is null"))
    else if |header.value| < 7 then
      var n := IntToString(|header.value|);
      Err(RuntimeFault("begin 7, end " + n + ", length " + n))
    else
      var token := header.value[7..];
      if IsBlank(token) then Ok((reg, None))
      else match DeleteToken(reg, token)
        case Err(f) => Err(f)
        case Ok((reg', deleted)) =>
          if deleted then Ok((reg', Some(LOGOUT_OK))) else Ok((reg', None))
  }

  /** After a successful logout the token is no longer registered, the
      registry stays valid, and every other row survives. */
  lemma LogoutUserRevokes(reg: Registry, header: string)
    requires TokenRegistry.Valid(reg)
    requires LogoutUser(reg, Some(header)).Ok? && LogoutUser(reg, Some(header)).value.1.Some?
    ensures var reg' := LogoutUser(reg, Some(header)).value.0;
      && FindByToken(reg', header[7..]).None?
      && TokenRegistry.Valid(reg')
      && forall rec :: rec in reg.rows && rec.token != header[7..] ==> rec in reg'.rows
  {
    DeleteTokenRemovesOnlyIt(reg, header[7..]);
  }

  /** `getCurrentUserProfile`: the user registered under exactly this email,
      or `ResourceNotFoundException`; the response mapping is left out. */
  function GetCurrentUserProfile(users: seq<User>, userName: string): (r: Result<User, Failure>)
    ensures r.Ok? ==> r.value in users && r.value.email == userName
    ensures r.Err? <==> forall k :: 0 <= k < |users| ==> users[k].email != userName
    ensures r.Err? ==> r.error == ResourceNotFound("User not found")
  {
    match FindByEmail(users, userName)
    case None => Err(ResourceNotFound("User not found"))
    case Some(u) => Ok(u)
  }

  /** The profile lookup and the security lookup agree: both find the same
      user for the same name, and fail for the same names. */
  lemma ProfileAgreesWithLoadUser(users: seq<User>, userName: string)
    ensures GetCurrentUserProfile(users, userName).Ok? <==> LoadUserByUsername(users, userName).Ok?
    ensures GetCurrentUserProfile(users, userName).Ok? ==>
              LoadUserByUsername(users, userName).value.user == GetCurrentUserProfile(users, userName).value
  {
  }
}
