/** `JwtAuthFilter.doFilterInternal`: the per-request authentication gate.
    The security context is the explicit `current` principal; the result says
    whether the rest of the chain runs (and with which principal), whether an
    error body is written instead, or whether an exception escapes the filter. */
module AuthFilter {
  import opened Wrappers
  import opened Text
  import opened Errors
  import opened TokenRegistry
  import opened Users
  import opened Jwt

  const BEARER: string := "Bearer "

  datatype Principal = Principal(details: UserDetails)

  datatype FilterOutcome =
    | Proceed(principal: Option<Principal>)   // filterChain.doFilter runs with this principal
    | Reject(error: ApiError)                 // onError wrote this body; the chain does not run
    | Escape(failure: Failure)                // an exception leaves the filter uncaught

  /** The token of an `Authorization: Bearer <token>` header (section 2.1 of
      RFC 6750), with the scheme matched case-sensitively. */
  function ExtractBearer(header: Option<string>): (r: Option<string>)
    ensures r.Some? <==> header.Some? && StartsWith(header.value, BEARER)
    ensures r.Some? ==> header.value == BEARER + r.value
  {
    if header.Some? && StartsWith(header.value, BEARER) then
      assert header.value == header.value[..7] + header.value[7..];
      Some(header.value[7..])
    else None
  }

  /** Extraction undoes the header's construction. */
  lemma BearerRoundTrip(token: string)
    ensures ExtractBearer(Some(BEARER + token)) == Some(token)
  {
    assert (BEARER + token)[..7] == BEARER;
    assert (BEARER + token)[7..] == token;
  }

  /** `onError`: the body the filter writes. */
  function OnError(err: string, status: int): ApiError {
    ApiError(status, "JWT Token", [err])
  }

  /** The decoder exceptions the filter catches and answers itself. */
  predicate IsCaught(d: DecodeOutcome) {
    d.Expired? || d.Malformed? || d.Unsupported? || d.IllegalArgument?
  }

  /** The catch clauses, in order. */
  function CaughtError(d: DecodeOutcome): ApiError
    requires IsCaught(d)
  {
    match d
    case Expired => OnError("JWT token expired", UNAUTHORIZED)
    case Malformed => OnError("Invalid JWT token", FORBIDDEN)
    case Unsupported => OnError("JWT token is unsupported", FORBIDDEN)
    case IllegalArgument => OnError("JWT token is expired", FORBIDDEN)
  }

  function DoFilter(header: Option<string>, reg: Registry, users: seq<User>, codec: Codec,
                    current: Option<Principal>): (r: FilterOutcome)
    ensures ExtractBearer(header).None? ==> r == Proceed(current)
    ensures r.Reject? ==> ExtractBearer(header).Some? && r.error.message == "JWT Token" && |r.error.details| == 1
    ensures r.Proceed? && current.Some? ==> r.principal == current
  {
    match ExtractBearer(header)
    case None => Proceed(current)
    case Some(token) =>
      if FindByToken(reg, token).None? then
        Reject(OnError("Invalid token", UNAUTHORIZED))
      else
        var decoded := codec.decode(token);
        if IsCaught(decoded) then Reject(CaughtError(decoded))
        else match decoded
          case OtherJwtError(m) => Escape(JwtFault(m))
          case Subject(username) =>
            if username.Some? && current.None? then
              match LoadUserByUsername(users, username.value)
              case Err(f) => Escape(f)
              case Ok(details) =>
                if codec.validate(token, details) then Proceed(Some(Principal(details))) else Proceed(None)
            else Proceed(current)
  }

  /** A token authenticates as `d`: it is registered, its subject is `d`'s
      username, that username resolves to `d`, and the codec accepts the pair. */
  predicate TokenAuthenticates(token: string, reg: Registry, users: seq<User>, codec: Codec, d: UserDetails) {
    && FindByToken(reg, token).Some?
    && codec.decode(token) == Subject(Some(d.Username()))
    && LoadUserByUsername(users, d.Username()) == Ok(d)
    && codec.validate(token, d)
  }

  /** With no principal yet, the filter installs `d` exactly when the header
      carries a bearer token that authenticates as `d`. */
  lemma DoFilterAuthenticatesIff(header: Option<string>, reg: Registry, users: seq<User>, codec: Codec, d: UserDetails)
    ensures DoFilter(header, reg, users, codec, None) == Proceed(Some(Principal(d)))
            <==> ExtractBearer(header).Some? && TokenAuthenticates(ExtractBearer(header).value, reg, users, codec, d)
  {
    if DoFilter(header, reg, users, codec, None) == Proceed(Some(Principal(d))) {
      var token := ExtractBearer(header).value;
      var decoded := codec.decode(token);
      assert decoded.Subject? && decoded.username.Some?;
      var details := LoadUserByUsername(users, decoded.username.value).value;
      assert details == d;
    }
  }

  /** The filter writes an error exactly for a bearer token that is not
      registered, or that is registered but fails decoding in one of the four
      caught ways; the status is 401 for the first two reasons and 403 otherwise. */
  lemma DoFilterRejectsIff(header: Option<string>, reg: Registry, users: seq<User>, codec: Codec, current: Option<Principal>)
    ensures var r, t := DoFilter(header, reg, users, codec, current), ExtractBearer(header);
      && (r.Reject? <==> (t.Some? && (FindByToken(reg, t.value).None? || IsCaught(codec.decode(t.value)))))
      && (r.Reject? ==> (r.error.status == UNAUTHORIZED <==>
                           (FindByToken(reg, t.value).None? || codec.decode(t.value).Expired?)))
      && (r.Reject? ==> (r.error.status == FORBIDDEN <==> r.error.status != UNAUTHORIZED))
  {
  }

  /** The registry is consulted before the token is decoded: an unregistered
      token gets 401 "Invalid token" whatever the codec would say about it. */
  lemma UnregisteredTokenRejected(token: string, reg: Registry, users: seq<User>, codec: Codec, current: Option<Principal>)
    requires FindByToken(reg, token).None?
    ensures DoFilter(Some(BEARER + token), reg, users, codec, current) == Reject(ApiError(401, "JWT Token", ["Invalid token"]))
  {
    BearerRoundTrip(token);
  }

  /** For a registered token, each caught decoder exception maps to its status and detail. */
  lemma DecodeFailureTable(token: string, reg: Registry, users: seq<User>, codec: Codec, current: Option<Principal>)
    requires FindByToken(reg, token).Some?
    ensures var r := DoFilter(Some(BEARER + token), reg, users, codec, current);
      && (codec.decode(token).Expired? ==> r == Reject(ApiError(401, "JWT Token", ["JWT token expired"])))
      && (codec.decode(token).Malformed? ==> r == Reject(ApiError(403, "JWT Token", ["Invalid JWT token"])))
      && (codec.decode(token).Unsupported? ==> r == Reject(ApiError(403, "JWT Token", ["JWT token is unsupported"])))
      && (codec.decode(token).IllegalArgument? ==> r == Reject(ApiError(403, "JWT Token", ["JWT token is expired"])))
  {
    BearerRoundTrip(token);
  }

  /** When the codec rejects a registered, decodable token for a known user,
      the request still proceeds, without a principal. */
  lemma ValidateFailureProceedsAnonymously(token: string, reg: Registry, users: seq<User>, codec: Codec, d: UserDetails)
    requires FindByToken(reg, token).Some?
    requires codec.decode(token) == Subject(Some(d.Username()))
    requires LoadUserByUsername(users, d.Username()) == Ok(d)
    requires !codec.validate(token, d)
    ensures DoFilter(Some(BEARER + token), reg, users, codec, None) == Proceed(None)
  {
    BearerRoundTrip(token);
  }

  /** A subject with no user behind it is not caught: the lookup's
      `UsernameNotFoundException` leaves the filter. */
  lemma UnknownSubjectEscapes(token: string, reg: Registry, users: seq<User>, codec: Codec, name: string)
    requires FindByToken(reg, token).Some?
    requires codec.decode(token) == Subject(Some(name))
    requires forall k :: 0 <= k < |users| ==> users[k].email != name
    ensures DoFilter(Some(BEARER + token), reg, users, codec, None) == Escape(UsernameNotFound("could not found user..!!"))
  {
    BearerRoundTrip(token);
  }

  /** A registered token whose decoding fails with a JWT exception outside
      the four caught kinds escapes the filter with that exception. */
  lemma OtherJwtErrorEscapes(token: string, reg: Registry, users: seq<User>, codec: Codec,
                             current: Option<Principal>, m: string)
    requires FindByToken(reg, token).Some?
    requires codec.decode(token) == OtherJwtError(m)
    ensures DoFilter(Some(BEARER + token), reg, users, codec, current) == Escape(JwtFault(m))
  {
    BearerRoundTrip(token);
  }

  /** The scheme is matched case-sensitively: "bearer " is not a credential. */
  lemma LowercaseSchemeIgnored(token: string, reg: Registry, users: seq<User>, codec: Codec, current: Option<Principal>)
    ensures DoFilter(Some("bearer " + token), reg, users, codec, current) == Proceed(current)
  {
    assert ("bearer " + token)[0] == 'b';
  }
}
