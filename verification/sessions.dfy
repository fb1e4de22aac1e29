/** Whole request sequences across `UserServiceImpl` and `JwtAuthFilter`:
    what a client can do with the tokens a login hands out. */
module Sessions {
  import opened Wrappers
  import opened Errors
  import opened Users
  import opened TokenRegistry
  import opened Jwt
  import opened Accounts
  import opened AuthFilter

  const INVALID_TOKEN := Reject(ApiError(UNAUTHORIZED, "JWT Token", ["Invalid token"]))

  /** The access token a login returns authenticates its owner on the next
      request, provided the codec reads back the subject and accepts it. */
  lemma LoginThenFilterAuthenticates(reg: Registry, req: AuthRequest, codec: Codec, users: seq<User>, d: UserDetails)
    requires TokenRegistry.Valid(reg)
    requires TokenFreeFor(reg, codec.issue(req.email), req.email)
    requires d.Username() == req.email
    requires codec.decode(codec.issue(req.email)) == Subject(Some(req.email))
    requires LoadUserByUsername(users, req.email) == Ok(d)
    requires codec.validate(codec.issue(req.email), d)
    ensures var (reg', resp) := Authenticate(reg, req, Ok(true), codec).value;
      DoFilter(Some(BEARER + resp.accessToken), reg', users, codec, None) == Proceed(Some(Principal(d)))
  {
    var (reg', resp) := Authenticate(reg, req, Ok(true), codec).value;
    SaveThenFind(reg, resp.accessToken, resp.refreshToken, req.email);
    BearerRoundTrip(resp.accessToken);
    DoFilterAuthenticatesIff(Some(BEARER + resp.accessToken), reg', users, codec, d);
  }

  /** One live token per user: logging in again (with a codec that now issues
      a different token, as a later clock does) revokes the first access
      token, which the filter then turns away with 401 "Invalid token". */
  lemma SecondLoginRevokesFirst(reg: Registry, req: AuthRequest, first: Codec, second: Codec,
                                users: seq<User>, codec: Codec, current: Option<Principal>)
    requires TokenRegistry.Valid(reg)
    requires TokenFreeFor(reg, first.issue(req.email), req.email)
    requires first.issue(req.email) != second.issue(req.email)
    ensures var (reg1, resp1) := Authenticate(reg, req, Ok(true), first).value;
      var (reg2, _) := Authenticate(reg1, req, Ok(true), second).value;
      DoFilter(Some(BEARER + resp1.accessToken), reg2, users, codec, current) == INVALID_TOKEN
  {
    var (reg1, resp1) := Authenticate(reg, req, Ok(true), first).value;
    SaveTokenPreservesValid(reg, resp1.accessToken, resp1.refreshToken, req.email);
    var (reg2, resp2) := Authenticate(reg1, req, Ok(true), second).value;
    SaveTokenRevokesPrevious(reg1, resp2.accessToken, resp2.refreshToken, req.email);
    UnregisteredTokenRejected(resp1.accessToken, reg2, users, codec, current);
  }

  /** After a successful logout, the same Authorization header is rejected
      by the filter with 401 "Invalid token". */
  lemma LogoutThenFilterRejects(reg: Registry, token: string, users: seq<User>, codec: Codec, current: Option<Principal>)
    requires TokenRegistry.Valid(reg)
    requires LogoutUser(reg, Some(BEARER + token)).Ok? && LogoutUser(reg, Some(BEARER + token)).value.1.Some?
    ensures var reg' := LogoutUser(reg, Some(BEARER + token)).value.0;
      DoFilter(Some(BEARER + token), reg', users, codec, current) == INVALID_TOKEN
  {
    var header := BEARER + token;
    assert header[7..] == token;
    LogoutUserRevokes(reg, header);
    UnregisteredTokenRejected(token, LogoutUser(reg, Some(header)).value.0, users, codec, current);
  }

  /** Logging out twice with the same header fails the second time with
      "Token not found". */
  lemma LogoutTwiceFails(reg: Registry, header: string)
    requires TokenRegistry.Valid(reg)
    requires LogoutUser(reg, Some(header)).Ok? && LogoutUser(reg, Some(header)).value.1.Some?
    ensures LogoutUser(LogoutUser(reg, Some(header)).value.0, Some(header)) == Err(ResourceNotFound("Token not found"))
  {
    LogoutUserRevokes(reg, header);
  }
}
