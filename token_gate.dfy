/** The `token_auth` decorator (app/rest/tools.py): bearer-token checking in
    front of a handler. The `Authorization` header value (None when the
    header is absent), the auth table and the clock reading are inputs; the
    handler is represented by the keyword arguments it is called with. */
module TokenGate {
  import opened Wrappers
  import opened AuthStore

  /** The failures, in the order they are checked. */
  datatype AuthError = NotAuthorized | BearerRequired | EmptyToken | InvalidToken | TokenExpired

  /** The message each failure raises; no two failures share one. */
  function Message(e: AuthError): (m: string)
    ensures m == "Not authorized" <==> e == NotAuthorized
    ensures m == "API requires bearer authorization" <==> e == BearerRequired
    ensures m == "Token is empty" <==> e == EmptyToken
    ensures m == "Invalid token" <==> e == InvalidToken
    ensures m == "Token expired" <==> e == TokenExpired
  {
    match e
    case NotAuthorized => "Not authorized"
    case BearerRequired => "API requires bearer authorization"
    case EmptyToken => "Token is empty"
    case InvalidToken => "Invalid token"
    case TokenExpired => "Token expired"
  }

  /** The status the decorator passes explicitly; None where it leaves the
      status to the error type's default, which is not part of this model. */
  function Status(e: AuthError): (r: Option<int>)
    ensures r.Some? ==> r.value == 401
    ensures r.Some? <==> e in {NotAuthorized, InvalidToken, TokenExpired}
  {
    match e
    case NotAuthorized => Some(401)
    case InvalidToken => Some(401)
    case TokenExpired => Some(401)
    case _ => None
  }

  const BearerPrefix: string := "Bearer "

  /** `creds[len('Bearer '):]`: the rest of the header, untrimmed. */
  function TokenPart(creds: string): (token: string)
    requires BearerPrefix <= creds
    ensures BearerPrefix + token == creds
  {
    creds[|BearerPrefix|..]
  }

  /** The decision `token_auth` takes before calling the handler: the user id
      of the record holding the token, or the first failure. */
  function Authenticate(creds: Option<string>, records: seq<AuthRecord>, now: int): (r: Result<Id, AuthError>)
    // An absent or empty header is refused before anything else is looked at.
    ensures r == Err(NotAuthorized) <==> creds == None || creds == Some("")
    // A header not starting with the exact, case-sensitive "Bearer ".
    ensures r == Err(BearerRequired) <==> creds.Some? && creds.value != "" && !(BearerPrefix <= creds.value)
    // "Bearer " alone.
    ensures r == Err(EmptyToken) <==> creds == Some(BearerPrefix)
    // Otherwise the token is the whole rest of the header.
    ensures r == Err(InvalidToken) <==>
      creds.Some? && BearerPrefix < creds.value
      && forall i :: 0 <= i < |records| ==> records[i].accessToken != TokenPart(creds.value)
    ensures r == Err(TokenExpired) <==>
      creds.Some? && BearerPrefix < creds.value
      && FindByToken(records, TokenPart(creds.value)).Some?
      && now > FindByToken(records, TokenPart(creds.value)).value.expireDate
    // Success: the user of the first record with that token, still unexpired
    // (a token is accepted at its expiry instant itself).
    ensures r.Ok? <==>
      creds.Some? && BearerPrefix < creds.value
      && FindByToken(records, TokenPart(creds.value)).Some?
      && now <= FindByToken(records, TokenPart(creds.value)).value.expireDate
    ensures r.Ok? ==> r.value == FindByToken(records, TokenPart(creds.value)).value.userId
  {
    if creds.None? || creds.value == "" then Err(NotAuthorized)
    else if !(BearerPrefix <= creds.value) then Err(BearerRequired)
    else
      var token := TokenPart(creds.value);
      assert BearerPrefix + "" == BearerPrefix;
      if token == "" then Err(EmptyToken)
      else match FindByToken(records, token)
        case None => Err(InvalidToken)
        case Some(auth) =>
          if now > auth.expireDate then Err(TokenExpired) else Ok(auth.userId)
  }

  /** The header checks come before the table and the clock are consulted:
      a missing, non-bearer or empty-token header fails the same way whatever
      the records and the time. */
  lemma HeaderChecksFirst(creds: Option<string>, records: seq<AuthRecord>, now: int,
                          records': seq<AuthRecord>, now': int)
    requires creds.None? || !(BearerPrefix < creds.value)
    ensures Authenticate(creds, records, now) == Authenticate(creds, records', now')
    ensures Authenticate(creds, records, now).Err?
  {
  }

  /** A record that is the first holder of its non-empty token authenticates
      its user until its expiry instant, inclusive, and is refused as expired
      after it. */
  lemma FirstHolderAuthenticates(records: seq<AuthRecord>, i: nat, now: int)
    requires i < |records| && records[i].accessToken != ""
    requires forall j :: 0 <= j < i ==> records[j].accessToken != records[i].accessToken
    ensures var r := records[i];
      Authenticate(Some(BearerPrefix + r.accessToken), records, now)
        == if now > r.expireDate then Err(TokenExpired) else Ok(r.userId)
  {
    var r := records[i];
    var creds := BearerPrefix + r.accessToken;
    assert TokenPart(creds) == r.accessToken;
    var found := FindByToken(records, r.accessToken);
    var m :| 0 <= m < |records| && records[m] == found.value
      && records[m].accessToken == r.accessToken
      && forall j :: 0 <= j < m ==> records[j].accessToken != r.accessToken;
    assert m == i;
  }

  const UserIdKey: string := "_user_id"

  /** The wrapper: on success it sets `_user_id` in the keyword arguments and
      calls the handler once with them; on failure it never calls it. The
      table is read and never written (this method modifies nothing). */
  method TokenAuth(table: AuthTable, creds: Option<string>, now: int, kwargs: map<string, Id>)
    returns (outcome: Result<Id, AuthError>, calls: seq<map<string, Id>>)
    ensures outcome == Authenticate(creds, table.records, now)
    ensures outcome.Ok? ==> calls == [kwargs[UserIdKey := outcome.value]]
    ensures outcome.Err? ==> calls == []
  {
    outcome := Authenticate(creds, table.records, now);
    calls := [];
    if outcome.Ok? {
      var args := kwargs[UserIdKey := outcome.value];
      calls := calls + [args];
    }
  }
}
