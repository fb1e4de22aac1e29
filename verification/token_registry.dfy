/** `TokenServiceImpl`: the server-side table of issued token pairs that makes
    logout effective. Each row records the access token, its refresh token and
    the username (email) it was issued to. */
module TokenRegistry {
  import opened Wrappers
  import opened Table
  import opened Errors

  datatype TokenRecord = TokenRecord(token: string, refreshToken: string, username: string)

  datatype Registry = Registry(rows: seq<TokenRecord>)

  /** At most one row per username, and no access token held by two rows. */
  predicate Valid(reg: Registry) {
    OneRowPerUser(reg) && Unique(reg.rows, TokenKey)
  }

  predicate OneRowPerUser(reg: Registry) {
    Unique(reg.rows, UserKey)
  }

  function UserKey(rec: TokenRecord): string { rec.username }

  function TokenKey(rec: TokenRecord): string { rec.token }

  /** No row of a user other than `username` holds `token`. Tokens are signed
      over their subject, so two users are never issued the same one. */
  predicate TokenFreeFor(reg: Registry, token: string, username: string) {
    forall k :: 0 <= k < |reg.rows| && reg.rows[k].token == token ==> reg.rows[k].username == username
  }

  function IndexOfUser(reg: Registry, username: string): Option<nat> {
    IndexWhere(reg.rows, (rec: TokenRecord) => rec.username == username)
  }

  function IndexOfToken(reg: Registry, token: string): Option<nat> {
    IndexWhere(reg.rows, (rec: TokenRecord) => rec.token == token)
  }

  /** `tokenRepository.findByUsername`. */
  function RecordOf(reg: Registry, username: string): (r: Option<TokenRecord>)
    ensures r.Some? ==> r.value in reg.rows && r.value.username == username
    ensures r.None? <==> forall k :: 0 <= k < |reg.rows| ==> reg.rows[k].username != username
  {
    match IndexOfUser(reg, username)
    case None => None
    case Some(i) => Some(reg.rows[i])
  }

  /** `findByToken`: the revocation check. It only reads the table. */
  function FindByToken(reg: Registry, token: string): (r: Option<TokenRecord>)
    ensures r.Some? ==> r.value in reg.rows && r.value.token == token
    ensures r.None? <==> forall k :: 0 <= k < |reg.rows| ==> reg.rows[k].token != token
  {
    match IndexOfToken(reg, token)
    case None => None
    case Some(i) => Some(reg.rows[i])
  }

  /** `saveToken`: overwrite the user's row if there is one, otherwise add one. */
  function SaveToken(reg: Registry, token: string, refreshToken: string, username: string): (reg': Registry)
    ensures RecordOf(reg', username) == Some(TokenRecord(token, refreshToken, username))
    ensures RecordOf(reg, username).Some? ==> |reg'.rows| == |reg.rows|
    ensures RecordOf(reg, username).None? ==> |reg'.rows| == |reg.rows| + 1
  {
    var rec := TokenRecord(token, refreshToken, username);
    match IndexOfUser(reg, username)
    case Some(i) =>
      var p := (r: TokenRecord) => r.username == username;
      IndexWhereCongruent(reg.rows[i := rec], p, reg.rows, p);
      Registry(reg.rows[i := rec])
    case None =>
      assert (reg.rows + [rec])[|reg.rows|] == rec;
      Registry(reg.rows + [rec])
  }

  /** `deleteToken`: remove the row holding `token`; an unknown token is an error. */
  function DeleteToken(reg: Registry, token: string): (r: Result<(Registry, bool), Failure>)
    ensures r.Err? <==> FindByToken(reg, token).None?
    ensures r.Err? ==> r.error == ResourceNotFound("Token not found")
    ensures r.Ok? ==> r.value.1 && |r.value.0.rows| == |reg.rows| - 1
    ensures r.Ok? ==> forall rec :: rec in r.value.0.rows ==> rec in reg.rows
  {
    match IndexOfToken(reg, token)
    case None => Err(ResourceNotFound("Token not found"))
    case Some(i) => Ok((Registry(RemoveAt(reg.rows, i)), true))
  }

  /** Saving for one user leaves every other user's row as it was. */
  lemma SaveTokenKeepsOthers(reg: Registry, token: string, refreshToken: string, username: string, other: string)
    requires other != username
    ensures RecordOf(SaveToken(reg, token, refreshToken, username), other) == RecordOf(reg, other)
  {
    var reg' := SaveToken(reg, token, refreshToken, username);
    var p := (rec: TokenRecord) => rec.username == other;
    match IndexOfUser(reg, username)
    case Some(i) =>
      assert reg'.rows == reg.rows[i := TokenRecord(token, refreshToken, username)];
      IndexWhereCongruent(reg'.rows, p, reg.rows, p);
    case None =>
      assert reg'.rows == reg.rows + [TokenRecord(token, refreshToken, username)];
      IndexWhereAppendMiss(reg.rows, p, TokenRecord(token, refreshToken, username));
  }

  /** Saving keeps one row per user, whatever the token: the row of the
      user is overwritten when there is one. */
  lemma SaveTokenKeepsOneRowPerUser(reg: Registry, token: string, refreshToken: string, username: string)
    requires OneRowPerUser(reg)
    ensures OneRowPerUser(SaveToken(reg, token, refreshToken, username))
  {
    var rec := TokenRecord(token, refreshToken, username);
    var reg' := SaveToken(reg, token, refreshToken, username);
    match IndexOfUser(reg, username)
    case Some(i) =>
      assert reg'.rows == reg.rows[i := rec];
    case None =>
      assert reg'.rows == reg.rows + [rec];
      assert forall k :: 0 <= k < |reg.rows| ==> reg'.rows[k] == reg.rows[k];
  }

  /** Saving also keeps tokens distinct when the new token is not already
      another user's. */
  lemma SaveTokenPreservesValid(reg: Registry, token: string, refreshToken: string, username: string)
    requires Valid(reg)
    requires TokenFreeFor(reg, token, username)
    ensures Valid(SaveToken(reg, token, refreshToken, username))
  {
    var rec := TokenRecord(token, refreshToken, username);
    var reg' := SaveToken(reg, token, refreshToken, username);
    SaveTokenKeepsOneRowPerUser(reg, token, refreshToken, username);
    match IndexOfUser(reg, username)
    case Some(i) =>
      assert reg'.rows == reg.rows[i := rec];
    case None =>
      assert reg'.rows == reg.rows + [rec];
      assert forall k :: 0 <= k < |reg.rows| ==> reg'.rows[k] == reg.rows[k];
  }

  /** After `saveToken(t, r, u)`, looking up `t` finds exactly the row `(t, r, u)`. */
  lemma SaveThenFind(reg: Registry, token: string, refreshToken: string, username: string)
    requires Valid(reg)
    requires TokenFreeFor(reg, token, username)
    ensures FindByToken(SaveToken(reg, token, refreshToken, username), token)
            == Some(TokenRecord(token, refreshToken, username))
  {
    var reg' := SaveToken(reg, token, refreshToken, username);
    SaveTokenPreservesValid(reg, token, refreshToken, username);
    var found := FindByToken(reg', token);
    var mine := RecordOf(reg', username);
    assert mine == Some(TokenRecord(token, refreshToken, username));
    var j :| 0 <= j < |reg'.rows| && reg'.rows[j] == mine.value;
    assert found.Some?;
    var k :| 0 <= k < |reg'.rows| && reg'.rows[k] == found.value;
    assert k == j;
  }

  /** A new login replaces the user's previous access token, so a lookup of
      the previous token no longer finds anything. */
  lemma SaveTokenRevokesPrevious(reg: Registry, token: string, refreshToken: string, username: string)
    requires Valid(reg)
    requires RecordOf(reg, username).Some?
    requires RecordOf(reg, username).value.token != token
    ensures FindByToken(SaveToken(reg, token, refreshToken, username), RecordOf(reg, username).value.token).None?
  {
    var previous := RecordOf(reg, username).value;
    var reg' := SaveToken(reg, token, refreshToken, username);
    var i := IndexOfUser(reg, username).value;
    assert reg'.rows == reg.rows[i := TokenRecord(token, refreshToken, username)];
    forall k | 0 <= k < |reg'.rows|
      ensures reg'.rows[k].token != previous.token
    {
      if k != i {
        assert reg'.rows[k] == reg.rows[k];
      }
    }
  }

  /** Deleting a present token removes exactly its row, keeps the table valid,
      and afterwards the token is no longer found. */
  lemma DeleteTokenRemovesOnlyIt(reg: Registry, token: string)
    requires Valid(reg)
    requires DeleteToken(reg, token).Ok?
    ensures var reg' := DeleteToken(reg, token).value.0;
      && Valid(reg')
      && FindByToken(reg', token).None?
      && forall rec :: rec in reg.rows && rec.token != token ==> rec in reg'.rows
  {
    var i := IndexOfToken(reg, token).value;
    RemoveAtOnlyMatch(reg.rows, i, TokenKey);
    RemoveAtKeepsUnique(reg.rows, i, TokenKey);
    RemoveAtKeepsUnique(reg.rows, i, UserKey);
  }


  /** Logout is not idempotent: deleting the same token a second time fails. */
  lemma DeleteTokenTwiceFails(reg: Registry, token: string)
    requires Valid(reg)
    requires DeleteToken(reg, token).Ok?
    ensures DeleteToken(DeleteToken(reg, token).value.0, token) == Err(ResourceNotFound("Token not found"))
  {
    DeleteTokenRemovesOnlyIt(reg, token);
  }
}
