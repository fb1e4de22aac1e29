/** The token codec (`JwtUtils`) as the rest of the core sees it. Signing,
    parsing and expiry are not modelled: each operation is an uninterpreted
    function supplied with the rest of the environment. */
module Jwt {
  import opened Wrappers
  import opened Users

  /** What `extractUsername` produces: the subject claim (which may be null)
      or the exception the parser throws. */
  datatype DecodeOutcome =
    | Subject(username: Option<string>)
    | Expired                          // ExpiredJwtException
    | Malformed                        // MalformedJwtException
    | Unsupported                      // UnsupportedJwtException
    | IllegalArgument                  // IllegalArgumentException
    | OtherJwtError(message: string)   // any other JwtException, such as a signature failure

  datatype Codec = Codec(
    issue: string -> string,                   // generateToken(email)
    issueRefresh: string -> string,            // generateRefreshToken(email)
    decode: string -> DecodeOutcome,           // extractUsername(token)
    validate: (string, UserDetails) -> bool)   // validateToken(token, userDetails)
}
