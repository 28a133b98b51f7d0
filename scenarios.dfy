/** Properties of the endpoints used together: a token issued by GET /auth
    opens the bearer-protected endpoints until it expires. */
module Scenarios {
  import opened Wrappers
  import opened AuthStore
  import opened TokenGate
  import Tokens

  /** A freshly issued access token, held by no earlier record, lets its user
      in up to and including its stored expiry, `now + 1 day` cut to whole
      milliseconds, and is refused as expired after it. */
  lemma IssuedTokenAuthenticates(records: seq<AuthRecord>, userId: Id, consumerId: Id,
                                 now: int, draws: Draws, later: int)
    requires FindByPair(records, consumerId, userId).None?
    requires forall j :: 0 <= j < |records| ==>
      records[j].accessToken != NewRecord(userId, consumerId, now, draws).accessToken
    ensures var out := Issue(records, userId, consumerId, now, draws);
      Authenticate(Some(BearerPrefix + out.grant.accessToken), out.records, later)
        == if later > StoredInstant(now + TokenExpiresInSeconds * MicrosPerSecond) then Err(TokenExpired)
           else Ok(userId)
  {
    var out := Issue(records, userId, consumerId, now, draws);
    var n := NewRecord(userId, consumerId, now, draws);
    assert out.records == records + [Stored(n)];
    FirstHolderAuthenticates(out.records, |records|, later);
  }

  /** Reissuing after the pair's record is removed, with other UUIDs drawn,
      hands out an access token and a refresh token different from the
      removed ones. */
  lemma RenewalGivesNewToken(records: seq<AuthRecord>, userId: Id, consumerId: Id,
                             now: int, draws: Draws, later: int, redraws: Draws)
    requires FindByPair(records, consumerId, userId).None?
    requires redraws.access != draws.access
    requires [redraws.refresh1, redraws.refresh2] != [draws.refresh1, draws.refresh2]
    ensures var first := Issue(records, userId, consumerId, now, draws);
      var second := Issue(RemovePair(first.records, consumerId, userId), userId, consumerId, later, redraws);
      second.grant.accessToken != first.grant.accessToken
      && second.grant.refreshToken != first.grant.refreshToken
  {
    var first := Issue(records, userId, consumerId, now, draws);
    var rest := RemovePair(first.records, consumerId, userId);
    IssueAfterRemove(first.records, userId, consumerId, later, redraws);
    NewRecordTokensDiffer(userId, consumerId, now, draws, userId, consumerId, later, redraws);
    var second := Issue(rest, userId, consumerId, later, redraws);
    assert second.records == rest + [Stored(NewRecord(userId, consumerId, later, redraws))];
  }

  /** Off a millisecond boundary, a token issued at `now` is already refused
      at exactly `now + 1 day`: the stored expiry lies just before it. */
  lemma ExpiredAtFullDay(records: seq<AuthRecord>, userId: Id, consumerId: Id, now: int, draws: Draws)
    requires FindByPair(records, consumerId, userId).None?
    requires forall j :: 0 <= j < |records| ==>
      records[j].accessToken != NewRecord(userId, consumerId, now, draws).accessToken
    requires now % MicrosPerMilli != 0
    ensures var out := Issue(records, userId, consumerId, now, draws);
      Authenticate(Some(BearerPrefix + out.grant.accessToken), out.records,
                   now + TokenExpiresInSeconds * MicrosPerSecond) == Err(TokenExpired)
  {
    var t := now + TokenExpiresInSeconds * MicrosPerSecond;
    StoredInstantBefore(now, t);
    IssuedTokenAuthenticates(records, userId, consumerId, now, draws, t);
  }

  /** Shifting by whole milliseconds keeps the sub-millisecond part. */
  lemma StoredInstantBefore(now: int, t: int)
    requires t == now + TokenExpiresInSeconds * MicrosPerSecond && now % MicrosPerMilli != 0
    ensures StoredInstant(t) < t
  {
    assert t % MicrosPerMilli == now % MicrosPerMilli;
  }
}
