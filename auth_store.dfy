/** The `auths` collection and the get-or-create issuance of `AuthAPI.get`
    (app/rest/auth_api.py). The collection is an AuthTable object whose
    records are held in insertion order; the model takes that to be the order
    `find_one` scans. Time is an integer count of microseconds (the
    resolution of `datetime`); stored dates hold whole milliseconds, as BSON
    datetimes do. The clock reading and the UUIDs drawn by `gen_token` are
    parameters. */
module AuthStore {
  import opened Wrappers
  import opened UuidText
  import Tokens

  const TokenEndsInSeconds: int := 7776000
  const TokenExpiresInSeconds: int := 86400
  const MicrosPerSecond: int := 1000000

  /** One document of `auths`. Dates are microsecond timestamps. */
  datatype AuthRecord = AuthRecord(
    userId: Id,
    consumerId: Id,
    accessToken: string,
    refreshToken: string,
    expireDate: int,
    endDate: int)

  /** The response body of GET /auth. */
  datatype Grant = Grant(accessToken: string, refreshToken: string, expiresIn: int)

  /** The three UUIDs that `gen_token()` and `gen_token(2)` draw for a new record. */
  datatype Draws = Draws(access: Uuid, refresh1: Uuid, refresh2: Uuid)

  predicate IsPair(r: AuthRecord, consumerId: Id, userId: Id) {
    r.consumerId == consumerId && r.userId == userId
  }

  /** `find_one({'consumer_id': c, 'user_id': u})`: the first record of the pair. */
  function FindByPair(records: seq<AuthRecord>, consumerId: Id, userId: Id): (r: Option<AuthRecord>)
    ensures r.None? <==> forall i :: 0 <= i < |records| ==> !IsPair(records[i], consumerId, userId)
    ensures r.Some? ==> exists i :: (0 <= i < |records| && records[i] == r.value
                                     && IsPair(records[i], consumerId, userId)
                                     && forall j :: 0 <= j < i ==> !IsPair(records[j], consumerId, userId))
    decreases |records|
  {
    if records == [] then None
    else if IsPair(records[0], consumerId, userId) then Some(records[0])
    else
      var r := FindByPair(records[1..], consumerId, userId);
      assert forall i :: 1 <= i < |records| ==> records[i] == records[1..][i - 1];
      r
  }

  /** `find_one({'access_token': token})`: the first record holding the token. */
  function FindByToken(records: seq<AuthRecord>, token: string): (r: Option<AuthRecord>)
    ensures r.None? <==> forall i :: 0 <= i < |records| ==> records[i].accessToken != token
    ensures r.Some? ==> exists i :: (0 <= i < |records| && records[i] == r.value
                                     && records[i].accessToken == token
                                     && forall j :: 0 <= j < i ==> records[j].accessToken != token)
    decreases |records|
  {
    if records == [] then None
    else if records[0].accessToken == token then Some(records[0])
    else
      var r := FindByToken(records[1..], token);
      assert forall i :: 1 <= i < |records| ==> records[i] == records[1..][i - 1];
      r
  }

  /** `int((expire - now).total_seconds())`: the difference in whole seconds,
      truncated toward zero as Python's `int` does. */
  function ExpiresIn(expireDate: int, now: int): (s: int)
    ensures var d := expireDate - now;
      (d >= 0 ==> 0 <= s && s * MicrosPerSecond <= d < s * MicrosPerSecond + MicrosPerSecond)
      && (d < 0 ==> s <= 0 && s * MicrosPerSecond - MicrosPerSecond < d <= s * MicrosPerSecond)
  {
    var d := expireDate - now;
    if d >= 0 then d / MicrosPerSecond else -((-d) / MicrosPerSecond)
  }

  /** The record built field by field when the pair has none, as the handler
      holds it before the insert: one fresh draw for the access token, two for
      the refresh token, a 1-day expiry and a 90-day end. */
  function NewRecord(userId: Id, consumerId: Id, now: int, draws: Draws): (n: AuthRecord)
    ensures IsPair(n, consumerId, userId)
    ensures |n.accessToken| == 48 && |n.refreshToken| == 96
    ensures n.expireDate - now == TokenExpiresInSeconds * MicrosPerSecond
    ensures n.endDate - now == TokenEndsInSeconds * MicrosPerSecond
    ensures n.expireDate < n.endDate
  {
    AuthRecord(
      userId,
      consumerId,
      Tokens.TokenOf([draws.access]),
      Tokens.TokenOf([draws.refresh1, draws.refresh2]),
      now + TokenExpiresInSeconds * MicrosPerSecond,
      now + TokenEndsInSeconds * MicrosPerSecond)
  }

  const MicrosPerMilli: int := 1000

  /** A BSON datetime holds whole milliseconds: on insert the driver drops the
      sub-millisecond part of a timestamp, rounding it down. */
  function StoredInstant(t: int): (s: int)
    ensures s % MicrosPerMilli == 0
    ensures s <= t < s + MicrosPerMilli
  {
    t - t % MicrosPerMilli
  }

  /** A record as `find_one` returns it once it has been inserted: the same
      ids and tokens, and both dates in whole milliseconds. */
  function Stored(r: AuthRecord): (s: AuthRecord)
    ensures s.userId == r.userId && s.consumerId == r.consumerId
    ensures s.accessToken == r.accessToken && s.refreshToken == r.refreshToken
    ensures s.expireDate % MicrosPerMilli == 0 && s.expireDate <= r.expireDate < s.expireDate + MicrosPerMilli
    ensures s.endDate % MicrosPerMilli == 0 && s.endDate <= r.endDate < s.endDate + MicrosPerMilli
  {
    r.(expireDate := StoredInstant(r.expireDate), endDate := StoredInstant(r.endDate))
  }

  /** The response body for a record: its tokens, and the seconds left, which
      are not negative while the token is live, not positive once it has
      expired, and positive only with at least a whole second to go. */
  function GrantOf(r: AuthRecord, now: int): (g: Grant)
    ensures g.accessToken == r.accessToken && g.refreshToken == r.refreshToken
    ensures now <= r.expireDate ==> g.expiresIn >= 0
    ensures now > r.expireDate ==> g.expiresIn <= 0
    ensures g.expiresIn > 0 ==> now + MicrosPerSecond <= r.expireDate
  {
    Grant(r.accessToken, r.refreshToken, ExpiresIn(r.expireDate, now))
  }

  datatype Issued = Issued(records: seq<AuthRecord>, grant: Grant)

  /** The effect of GET /auth for the pair: the table after the call and the response. */
  function Issue(records: seq<AuthRecord>, userId: Id, consumerId: Id, now: int, draws: Draws): (out: Issued)
    // Only appends: every record there before is still there, in place.
    ensures records <= out.records
    // A pair that has a record keeps its table and gets that record back, expired or not.
    ensures FindByPair(records, consumerId, userId).Some? ==>
      out.records == records && out.grant == GrantOf(FindByPair(records, consumerId, userId).value, now)
    // A pair without one gets exactly one new record: the stored form of the
    // one built from the draws, so both dates are cut to whole milliseconds.
    // The response is computed from the record as built, before storage.
    ensures FindByPair(records, consumerId, userId).None? ==>
      out.records == records + [Stored(NewRecord(userId, consumerId, now, draws))]
      && var n := out.records[|records|];
      IsPair(n, consumerId, userId)
      && n.accessToken == Tokens.TokenOf([draws.access])
      && n.refreshToken == Tokens.TokenOf([draws.refresh1, draws.refresh2])
      && n.expireDate == StoredInstant(now + TokenExpiresInSeconds * MicrosPerSecond)
      && n.endDate == StoredInstant(now + TokenEndsInSeconds * MicrosPerSecond)
      && out.grant == Grant(n.accessToken, n.refreshToken, TokenExpiresInSeconds)
    // Either way, afterwards the pair has a record carrying the reported
    // tokens, and reading it back would report at most one second less.
    ensures FindByPair(out.records, consumerId, userId).Some?
      && var f := FindByPair(out.records, consumerId, userId).value;
      out.grant.accessToken == f.accessToken && out.grant.refreshToken == f.refreshToken
      && GrantOf(f, now).expiresIn <= out.grant.expiresIn <= GrantOf(f, now).expiresIn + 1
  {
    match FindByPair(records, consumerId, userId)
    case Some(r) => Issued(records, GrantOf(r, now))
    case None =>
      var n := NewRecord(userId, consumerId, now, draws);
      var after := records + [Stored(n)];
      assert after[|records|] == Stored(n);
      StoredExpiresIn(n, now);
      Issued(after, GrantOf(n, now))
  }

  /** A record built now reports a whole day, and its stored form no less
      than a second short of it. */
  lemma StoredExpiresIn(n: AuthRecord, now: int)
    requires n.expireDate - now == TokenExpiresInSeconds * MicrosPerSecond
    ensures ExpiresIn(n.expireDate, now) == TokenExpiresInSeconds
    ensures TokenExpiresInSeconds - 1 <= ExpiresIn(Stored(n).expireDate, now) <= TokenExpiresInSeconds
  {
    var e := ExpiresIn(Stored(n).expireDate, now);
    assert 0 <= Stored(n).expireDate - now;
    assert (TokenExpiresInSeconds - 1) * MicrosPerSecond < Stored(n).expireDate - now;
  }

  /** Removing every record of the pair, as the test does before asking again. */
  function RemovePair(records: seq<AuthRecord>, consumerId: Id, userId: Id): (r: seq<AuthRecord>)
    ensures forall x :: x in r <==> x in records && !IsPair(x, consumerId, userId)
    decreases |records|
  {
    if records == [] then []
    else if IsPair(records[0], consumerId, userId) then RemovePair(records[1..], consumerId, userId)
    else
      assert forall x :: x in records <==> x == records[0] || x in records[1..];
      [records[0]] + RemovePair(records[1..], consumerId, userId)
  }

  /** At most one record per (consumer, user) pair. */
  ghost predicate PairsUnique(records: seq<AuthRecord>) {
    forall i, j :: 0 <= i < j < |records| ==>
      !IsPair(records[j], records[i].consumerId, records[i].userId)
  }

  /** Every token stays valid no longer than its grant runs. */
  ghost predicate DatesOrdered(records: seq<AuthRecord>) {
    forall i :: 0 <= i < |records| ==> records[i].expireDate < records[i].endDate
  }

  /** Asking twice for the same pair returns the same tokens and leaves the
      table as the first call left it, whatever is drawn the second time. */
  lemma IssueIdempotent(records: seq<AuthRecord>, userId: Id, consumerId: Id,
                        now: int, draws: Draws, later: int, redraws: Draws)
    ensures var first := Issue(records, userId, consumerId, now, draws);
      var second := Issue(first.records, userId, consumerId, later, redraws);
      second.records == first.records
      && second.grant.accessToken == first.grant.accessToken
      && second.grant.refreshToken == first.grant.refreshToken
      && (FindByPair(records, consumerId, userId).Some? && later == now ==> second.grant == first.grant)
  {
  }

  /** Asked again at the same instant right after the record was created, the
      handler reads the stored expiry back: a whole day when the clock stood on
      a millisecond, one second less otherwise. */
  lemma ReissueReadsStoredExpiry(records: seq<AuthRecord>, userId: Id, consumerId: Id,
                                 now: int, draws: Draws, redraws: Draws)
    requires FindByPair(records, consumerId, userId).None?
    ensures var first := Issue(records, userId, consumerId, now, draws);
      var second := Issue(first.records, userId, consumerId, now, redraws);
      first.grant.expiresIn == TokenExpiresInSeconds
      && second.grant.expiresIn == if now % MicrosPerMilli == 0 then TokenExpiresInSeconds
                                   else TokenExpiresInSeconds - 1
  {
    var first := Issue(records, userId, consumerId, now, draws);
    var stored := first.records[|records|];
    assert FindByPair(first.records, consumerId, userId) == Some(stored);
    StoredExpiryReadBack(now);
  }

  /** The seconds left on a day-long expiry cut to whole milliseconds, read at
      the instant it was set. */
  lemma StoredExpiryReadBack(now: int)
    ensures ExpiresIn(StoredInstant(now + TokenExpiresInSeconds * MicrosPerSecond), now)
      == if now % MicrosPerMilli == 0 then TokenExpiresInSeconds else TokenExpiresInSeconds - 1
  {
    var t := now + TokenExpiresInSeconds * MicrosPerSecond;
    assert t % MicrosPerMilli == now % MicrosPerMilli;
    var d := StoredInstant(t) - now;
    assert d == TokenExpiresInSeconds * MicrosPerSecond - now % MicrosPerMilli;
    if now % MicrosPerMilli != 0 {
      assert (TokenExpiresInSeconds - 1) * MicrosPerSecond <= d < TokenExpiresInSeconds * MicrosPerSecond;
    }
  }

  /** Once the pair's records are removed, the next call creates a record again. */
  lemma IssueAfterRemove(records: seq<AuthRecord>, userId: Id, consumerId: Id, now: int, draws: Draws)
    ensures var rest := RemovePair(records, consumerId, userId);
      Issue(rest, userId, consumerId, now, draws).records == rest + [Stored(NewRecord(userId, consumerId, now, draws))]
  {
    var rest := RemovePair(records, consumerId, userId);
    assert forall i :: 0 <= i < |rest| ==> rest[i] in rest;
  }

  /** An expired record is still reused; its `expires_in` is then at most zero,
      and negative once it has been expired for a whole second. */
  lemma ReuseOfExpired(records: seq<AuthRecord>, userId: Id, consumerId: Id, now: int, draws: Draws)
    requires FindByPair(records, consumerId, userId).Some?
    requires now > FindByPair(records, consumerId, userId).value.expireDate
    ensures var r := FindByPair(records, consumerId, userId).value;
      var out := Issue(records, userId, consumerId, now, draws);
      out.records == records
      && out.grant.accessToken == r.accessToken
      && out.grant.expiresIn <= 0
      && (now >= r.expireDate + MicrosPerSecond ==> out.grant.expiresIn < 0)
  {
  }

  /** Records minted from different draws carry different tokens. */
  lemma NewRecordTokensDiffer(userId: Id, consumerId: Id, now: int, draws: Draws,
                              userId': Id, consumerId': Id, now': int, draws': Draws)
    ensures var n, n' := NewRecord(userId, consumerId, now, draws), NewRecord(userId', consumerId', now', draws');
      (draws.access != draws'.access ==> n.accessToken != n'.accessToken)
      && ([draws.refresh1, draws.refresh2] != [draws'.refresh1, draws'.refresh2] ==> n.refreshToken != n'.refreshToken)
  {
    if Tokens.TokenOf([draws.access]) == Tokens.TokenOf([draws'.access]) {
      Tokens.TokenInjective([draws.access], [draws'.access]);
    }
    if Tokens.TokenOf([draws.refresh1, draws.refresh2]) == Tokens.TokenOf([draws'.refresh1, draws'.refresh2]) {
      Tokens.TokenInjective([draws.refresh1, draws.refresh2], [draws'.refresh1, draws'.refresh2]);
    }
  }

  /** Issuance never creates a second record for a pair. */
  lemma IssueKeepsPairsUnique(records: seq<AuthRecord>, userId: Id, consumerId: Id, now: int, draws: Draws)
    requires PairsUnique(records)
    ensures PairsUnique(Issue(records, userId, consumerId, now, draws).records)
  {
  }

  /** Every record issuance creates expires before its grant ends. */
  lemma IssueKeepsDatesOrdered(records: seq<AuthRecord>, userId: Id, consumerId: Id, now: int, draws: Draws)
    requires DatesOrdered(records)
    ensures DatesOrdered(Issue(records, userId, consumerId, now, draws).records)
  {
  }

  /** The `auths` collection. */
  class AuthTable {
    var records: seq<AuthRecord>

    constructor ()
      ensures records == []
    {
      records := [];
    }

    /** GET /auth for an already-resolved user and consumer. The insert keeps
        the stored form of the new record, while the response is computed
        from the record the handler built. */
    method Get(userId: Id, consumerId: Id, now: int, draws: Draws) returns (grant: Grant)
      modifies this
      ensures records == Issue(old(records), userId, consumerId, now, draws).records
      ensures grant == Issue(old(records), userId, consumerId, now, draws).grant
    {
      var auth: AuthRecord;
      var found := FindByPair(records, consumerId, userId);
      if found.None? {
        var accessToken := Tokens.GenToken([draws.access]);
        var refreshToken := Tokens.GenToken([draws.refresh1, draws.refresh2]);
        auth := AuthRecord(
          userId,
          consumerId,
          accessToken,
          refreshToken,
          now + TokenExpiresInSeconds * MicrosPerSecond,
          now + TokenEndsInSeconds * MicrosPerSecond);
        records := records + [Stored(auth)];
      } else {
        auth := found.value;
      }
      var expiresIn := ExpiresIn(auth.expireDate, now);
      grant := Grant(auth.accessToken, auth.refreshToken, expiresIn);
    }
  }
}
