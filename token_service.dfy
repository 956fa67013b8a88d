/** internal/services/tokenService.go: exchanging a refresh token for a new
    access token, and revoking a refresh token. Neither checks who presents
    the token, and refreshing does not rotate it. */
module TokenService {
  import opened Wrappers
  import opened Common
  import opened Auth
  import opened Database
  import opened Config

  /** RefreshAccessToken: 400 for a missing or malformed bearer header, 401
      when the store has no usable row for the token (unknown, expired and
      revoked alike), 500 when signing fails, and otherwise 200 with an
      access token for the row's owner that lives one hour. It only reads
      the store. */
  function RefreshAccessToken(db: Queries, header: Header, cfg: ApiConfig, p: Platform, now: Time)
    : (r: (string, int))
    reads db
    ensures GetBearerToken(header).Failure? ==> r == ("", StatusBadRequest)
    ensures GetBearerToken(header).Success? &&
            db.GetUserFromRefreshToken(GetBearerToken(header).value, now).None? ==>
              r == ("", StatusUnauthorized)
    ensures && GetBearerToken(header).Success?
            && db.GetUserFromRefreshToken(GetBearerToken(header).value, now).Some?
            && MakeJWT(db.GetUserFromRefreshToken(GetBearerToken(header).value, now).value,
                       cfg.jwtSecret, AccessTokenTtl, now, p.jwt, p.uuids).Failure? ==>
              r == ("", StatusInternalServerError)
    ensures r.1 == StatusOK <==>
              && GetBearerToken(header).Success?
              && db.GetUserFromRefreshToken(GetBearerToken(header).value, now).Some?
              && MakeJWT(db.GetUserFromRefreshToken(GetBearerToken(header).value, now).value,
                         cfg.jwtSecret, AccessTokenTtl, now, p.jwt, p.uuids).Success?
    ensures r.1 == StatusOK ==>
              Success(r.0) == MakeJWT(db.refreshTokens[GetBearerToken(header).value].userId,
                                      cfg.jwtSecret, AccessTokenTtl, now, p.jwt, p.uuids)
    ensures r.1 != StatusOK ==> r.0 == ""
    ensures r.1 in {StatusOK, StatusBadRequest, StatusUnauthorized, StatusInternalServerError}
  {
    match GetBearerToken(header)
    case Failure(_) => ("", StatusBadRequest)
    case Success(refreshToken) =>
      match db.GetUserFromRefreshToken(refreshToken, now)
      case None => ("", StatusUnauthorized)
      case Some(dbUserId) =>
        match MakeJWT(dbUserId, cfg.jwtSecret, AccessTokenTtl, now, p.jwt, p.uuids)
        case Failure(_) => ("", StatusInternalServerError)
        case Success(newAccessToken) => (newAccessToken, StatusOK)
  }

  /** A refreshed access token validates, for the next hour, to the owner of
      the refresh token. */
  lemma RefreshedTokenNamesOwner(db: Queries, token: string, cfg: ApiConfig, p: Platform, now: Time, later: Time)
    requires PlatformLaws(p)
    requires RefreshAccessToken(db, BearerHeader(token), cfg, p, now).1 == StatusOK
    requires now <= later < now + AccessTokenTtl
    ensures token in db.refreshTokens
    ensures ValidateJWT(RefreshAccessToken(db, BearerHeader(token), cfg, p, now).0, cfg.jwtSecret, later, p.jwt, p.uuids)
            == Success(db.refreshTokens[token].userId)
  {
    BearerRoundTrip(token);
    JwtRoundTrip(db.refreshTokens[token].userId, cfg.jwtSecret, AccessTokenTtl, now, later, p.jwt, p.uuids);
  }

  /** No rotation: a refresh leaves the refresh token as usable as it was, so
      a later refresh before expiry succeeds again (when signing does). */
  lemma RefreshIsRepeatable(db: Queries, header: Header, cfg: ApiConfig, p: Platform, now: Time, later: Time)
    requires RefreshAccessToken(db, header, cfg, p, now).1 == StatusOK
    requires now <= later < db.refreshTokens[GetBearerToken(header).value].expiresAt
    requires MakeJWT(db.refreshTokens[GetBearerToken(header).value].userId,
                     cfg.jwtSecret, AccessTokenTtl, later, p.jwt, p.uuids).Success?
    ensures RefreshAccessToken(db, header, cfg, p, later).1 == StatusOK
  {
  }

  /** RevokeRefreshToken: 400 for a bad bearer header without touching the
      table; otherwise the row with that token, if any, is stamped revoked at
      `now`, and the answer is 204 even for a token that never existed, or
      400 when the store fails. */
  method RevokeRefreshToken(db: Queries, header: Header, now: Time) returns (status: int)
    requires db.Valid()
    modifies db
    ensures db.Valid()
    ensures GetBearerToken(header).Failure? ==>
              status == StatusBadRequest && db.refreshTokens == old(db.refreshTokens)
    ensures GetBearerToken(header).Success? && !old(db.online) ==>
              status == StatusBadRequest && db.refreshTokens == old(db.refreshTokens)
    ensures GetBearerToken(header).Success? && old(db.online) ==>
              status == StatusNoContent &&
              db.refreshTokens == RevokeRow(old(db.refreshTokens), GetBearerToken(header).value, now)
    ensures db.online == old(db.online) && db.users == old(db.users) && db.messages == old(db.messages)
  {
    var refreshToken := GetBearerToken(header);
    if refreshToken.Failure? {
      return StatusBadRequest;
    }
    var ok := db.RevokeRefreshToken(refreshToken.value, now);
    if !ok {
      return StatusBadRequest;
    }
    return StatusNoContent;
  }

  /** Revoke then refresh with the same token: once the revoke is answered
      204, the refresh is answered 401 at any later time. */
  method RevokeThenRefresh(db: Queries, header: Header, cfg: ApiConfig, p: Platform, now: Time, later: Time)
    returns (revokeStatus: int, refreshStatus: int)
    requires db.Valid()
    modifies db
    ensures revokeStatus == StatusNoContent ==> refreshStatus == StatusUnauthorized
    ensures GetBearerToken(header).Failure? ==>
              revokeStatus == StatusBadRequest && refreshStatus == StatusBadRequest
  {
    revokeStatus := RevokeRefreshToken(db, header, now);
    var refreshed := RefreshAccessToken(db, header, cfg, p, later);
    refreshStatus := refreshed.1;
    if revokeStatus == StatusNoContent {
      RevokeTouchesOnlyItsRow(old(db.refreshTokens), GetBearerToken(header).value, now);
    }
  }
}
