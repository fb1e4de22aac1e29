/** The `User` entity and `UserDetailsServiceImpl`, the lookup by email the
    authentication filter uses to resolve a token's subject. */
module Users {
  import opened Wrappers
  import opened Table
  import opened Errors

  /** A stored user; `roleIds` are the ids of its `Role` rows. */
  datatype User = User(id: int, name: string, email: string, password: string, roleIds: set<int>, createdAt: Instant)

  /** `CustomUserDetails`: the security view of a user, whose username is the email. */
  datatype UserDetails = UserDetails(user: User) {
    function Username(): string { user.email }
  }

  /** One user per email and one user per id. */
  predicate Valid(users: seq<User>) {
    Unique(users, EmailKey) && Unique(users, IdKey)
  }

  function EmailKey(u: User): string { u.email }

  function IdKey(u: User): int { u.id }

  /** `userRepository.findByEmail`: exact comparison, no case folding. */
  function FindByEmail(users: seq<User>, email: string): (r: Option<User>)
    ensures r.Some? ==> r.value in users && r.value.email == email
    ensures r.None? <==> forall k :: 0 <= k < |users| ==> users[k].email != email
  {
    match IndexWhere(users, (u: User) => u.email == email)
    case None => None
    case Some(i) => Some(users[i])
  }

  /** `loadUserByUsername`: the details of the user registered under exactly
      this email, or `UsernameNotFoundException`. */
  function LoadUserByUsername(users: seq<User>, username: string): (r: Result<UserDetails, Failure>)
    ensures r.Ok? ==> r.value.Username() == username && r.value.user in users
    ensures r.Err? <==> forall k :: 0 <= k < |users| ==> users[k].email != username
    ensures r.Err? ==> r.error == UsernameNotFound("could not found user..!!")
  {
    match FindByEmail(users, username)
    case None => Err(UsernameNotFound("could not found user..!!"))
    case Some(u) => Ok(UserDetails(u))
  }

  /** Under one user per email, the lookup returns that user's own row. */
  lemma LoadUserByUsernameFindsTheUser(users: seq<User>, u: User)
    requires Valid(users)
    requires u in users
    ensures LoadUserByUsername(users, u.email) == Ok(UserDetails(u))
  {
    var r := LoadUserByUsername(users, u.email);
    var i :| 0 <= i < |users| && users[i] == u;
    assert r.Ok?;
    var j :| 0 <= j < |users| && users[j] == r.value.user;
    assert i == j;
  }

  /** The lookup does not fold case: any other spelling of a user's email,
      one differing only in letter case included, never yields that user. */
  lemma LoadUserByUsernameIsCaseSensitive(users: seq<User>, u: User, username: string)
    requires u in users && username != u.email
    ensures LoadUserByUsername(users, username).Ok? ==> LoadUserByUsername(users, username).value.user != u
  {
  }
}
