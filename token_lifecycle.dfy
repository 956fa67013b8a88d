/** The life of a refresh token across any run of the store: issued, usable
    while unexpired and unrevoked, then expired or revoked for good. No query
    clears revoked_at, no query deletes a row, and an insert never replaces
    an existing token value. */
module TokenLifecycle {
  import opened Wrappers
  import opened Common
  import opened Database

  /** The table after a run of successful writes, in order. */
  function Replay(table: TokenTable, events: seq<TokenEvent>): TokenTable
    decreases |events|
  {
    if events == [] then table else Replay(Apply(table, events[0]), events[1..])
  }

  /** One write keeps every row, its owner and its expiry, and keeps a revoked
      row revoked. */
  lemma ApplyKeepsRows(table: TokenTable, e: TokenEvent, token: string)
    requires token in table
    ensures token in Apply(table, e)
    ensures Apply(table, e)[token].userId == table[token].userId
    ensures Apply(table, e)[token].expiresAt == table[token].expiresAt
    ensures table[token].revokedAt.Some? ==> Apply(table, e)[token].revokedAt.Some?
  {
  }

  /** Once revoked, a token is never usable again, whatever is written later
      and whatever the clock says. */
  lemma {:induction false} OnceRevokedNeverUsable(table: TokenTable, token: string, events: seq<TokenEvent>, now: Time)
    requires token in table && table[token].revokedAt.Some?
    ensures token in Replay(table, events)
    ensures Replay(table, events)[token].revokedAt.Some?
    ensures Replay(table, events)[token].userId == table[token].userId
    ensures FindUsable(Replay(table, events), token, now) == None
    decreases |events|
  {
    if events != [] {
      ApplyKeepsRows(table, events[0], token);
      OnceRevokedNeverUsable(Apply(table, events[0]), token, events[1..], now);
    }
  }

  /** Once expired, a token is never usable again either. */
  lemma {:induction false} OnceExpiredNeverUsable(table: TokenTable, token: string, events: seq<TokenEvent>,
                                                  expiredAt: Time, now: Time)
    requires token in table && table[token].expiresAt <= expiredAt <= now
    ensures token in Replay(table, events)
    ensures Replay(table, events)[token].expiresAt == table[token].expiresAt
    ensures FindUsable(Replay(table, events), token, now) == None
    decreases |events|
  {
    if events != [] {
      ApplyKeepsRows(table, events[0], token);
      OnceExpiredNeverUsable(Apply(table, events[0]), token, events[1..], expiredAt, now);
    }
  }

  /** A freshly issued token is usable by its owner until it expires, as long
      as no one revokes it. */
  lemma IssuedIsUsable(table: TokenTable, token: string, userId: Uuid, expiresAt: Time, at: Time, now: Time)
    requires token !in table
    requires now < expiresAt
    ensures FindUsable(Apply(table, Issued(token, userId, expiresAt, at)), token, now) == Some(userId)
  {
  }
}
