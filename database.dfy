/** The store behind database.Queries, held in memory: the refresh_tokens and
    messages tables with the semantics of their SQL, and the users table that
    the services query. CURRENT_TIMESTAMP is the `now` argument and
    gen_random_uuid() the `newId` argument. `online` stands for the database
    connection: while it is false every query fails and nothing changes. */
module Database {
  import opened Wrappers
  import opened Common
  import opened Sorting

  datatype User = User(
    id: Uuid,
    createdAt: Time,
    updatedAt: Time,
    email: string,
    hashedPassword: string,
    isPremium: bool)

  datatype Message = Message(id: Uuid, createdAt: Time, updatedAt: Time, body: string, userId: Uuid)

  /** A row of refresh_tokens; the token value itself is the key of the table. */
  datatype RefreshToken = RefreshToken(
    createdAt: Time,
    updatedAt: Time,
    userId: Uuid,
    expiresAt: Time,
    revokedAt: Option<Time>)

  type TokenTable = map<string, RefreshToken>

  // ---------------------------------------------------------------------
  // refresh_tokens, as values

  /** The WHERE clause of GetUserFromRefreshToken: expiry is strict and a
      revoked row never qualifies. */
  predicate Usable(row: RefreshToken, now: Time)
  {
    row.expiresAt > now && row.revokedAt.None?
  }

  function FindUsable(table: TokenTable, token: string, now: Time): Option<Uuid>
  {
    if token in table && Usable(table[token], now) then Some(table[token].userId) else None
  }

  /** The row CreateRefreshToken inserts. */
  function NewRefreshToken(userId: Uuid, expiresAt: Time, now: Time): RefreshToken
  {
    RefreshToken(now, now, userId, expiresAt, None)
  }

  /** The UPDATE of RevokeRefreshToken: stamps revoked_at and updated_at on the
      row with that token, even one already revoked; no row, no change. */
  function RevokeRow(table: TokenTable, token: string, now: Time): TokenTable
  {
    if token in table then table[token := table[token].(revokedAt := Some(now), updatedAt := now)]
    else table
  }

  /** A successful write to refresh_tokens (a failed one changes nothing). */
  datatype TokenEvent =
    | Issued(token: string, userId: Uuid, expiresAt: Time, at: Time)
    | Revoked(token: string, at: Time)

  /** The table after one successful write. Queries.CreateRefreshToken and
      Queries.RevokeRefreshToken are proved to leave it so. */
  function Apply(table: TokenTable, e: TokenEvent): TokenTable
  {
    match e
    case Issued(token, userId, expiresAt, at) =>
      if token in table then table else table[token := NewRefreshToken(userId, expiresAt, at)]
    case Revoked(token, at) => RevokeRow(table, token, at)
  }

  /** Revoking touches only the row with that token value, which stops being usable. */
  lemma RevokeTouchesOnlyItsRow(table: TokenTable, token: string, now: Time)
    ensures RevokeRow(table, token, now).Keys == table.Keys
    ensures forall other :: other in table && other != token ==> RevokeRow(table, token, now)[other] == table[other]
    ensures token in table ==>
              && RevokeRow(table, token, now)[token].revokedAt == Some(now)
              && RevokeRow(table, token, now)[token].expiresAt == table[token].expiresAt
              && RevokeRow(table, token, now)[token].userId == table[token].userId
    ensures forall later :: FindUsable(RevokeRow(table, token, now), token, later) == None
  {
  }

  /** A row whose expires_at equals the current time is no longer usable. */
  lemma ExpiryIsStrict(table: TokenTable, token: string, now: Time)
    requires token in table && table[token].expiresAt == now
    ensures FindUsable(table, token, now) == None
  {
  }

  /** Usability only ends with time: a row usable now was usable at every
      earlier instant of the same table. */
  lemma UsableEarlier(table: TokenTable, token: string, earlier: Time, now: Time)
    requires earlier <= now
    requires FindUsable(table, token, now).Some?
    ensures FindUsable(table, token, earlier) == FindUsable(table, token, now)
  {
  }

  // ---------------------------------------------------------------------
  // messages and users, as values

  ghost predicate UniqueMessageIds(ms: seq<Message>)
  {
    forall i, j :: 0 <= i < j < |ms| ==> ms[i].id != ms[j].id
  }

  ghost predicate UniqueUsers(us: seq<User>)
  {
    forall i, j :: 0 <= i < j < |us| ==> us[i].id != us[j].id && us[i].email != us[j].email
  }

  predicate HasMessageId(ms: seq<Message>, id: Uuid)
  {
    exists k :: 0 <= k < |ms| && ms[k].id == id
  }

  /** The row `WHERE messages.id = $1` selects. */
  function FindMessage(ms: seq<Message>, id: Uuid): (r: Option<Message>)
    ensures r.Some? <==> HasMessageId(ms, id)
    ensures r.Some? ==> r.value in ms && r.value.id == id
  {
    if ms == [] then None
    else if ms[0].id == id then Some(ms[0])
    else
      var r := FindMessage(ms[1..], id);
      assert r.Some? ==> r.value in ms;
      assert HasMessageId(ms[1..], id) ==> HasMessageId(ms, id) by {
        if HasMessageId(ms[1..], id) {
          var k :| 0 <= k < |ms[1..]| && ms[1..][k].id == id;
          assert ms[k + 1].id == id;
        }
      }
      assert HasMessageId(ms, id) ==> HasMessageId(ms[1..], id) by {
        if HasMessageId(ms, id) {
          var k :| 0 <= k < |ms| && ms[k].id == id;
          assert ms[1..][k - 1].id == id;
        }
      }
      r
  }

  predicate Matches(m: Message, id: Uuid, userId: Uuid)
  {
    m.id == id && m.userId == userId
  }

  predicate HasOwnedMessage(ms: seq<Message>, id: Uuid, userId: Uuid)
  {
    exists k :: 0 <= k < |ms| && Matches(ms[k], id, userId)
  }

  /** `DELETE FROM messages WHERE id = $1 AND user_id = $2`. */
  function RemoveOwned(ms: seq<Message>, id: Uuid, userId: Uuid): (r: seq<Message>)
    ensures forall m :: m in r <==> m in ms && !Matches(m, id, userId)
    ensures |r| <= |ms|
  {
    if ms == [] then []
    else if Matches(ms[0], id, userId) then RemoveOwned(ms[1..], id, userId)
    else [ms[0]] + RemoveOwned(ms[1..], id, userId)
  }

  /** `WHERE user_id = $1`. */
  function ByAuthor(ms: seq<Message>, author: Uuid): (r: seq<Message>)
    ensures forall m :: m in r <==> m in ms && m.userId == author
  {
    if ms == [] then []
    else if ms[0].userId == author then [ms[0]] + ByAuthor(ms[1..], author)
    else ByAuthor(ms[1..], author)
  }

  function CreatedAt(m: Message): int { m.createdAt }

  predicate HasUser(us: seq<User>, id: Uuid)
  {
    exists k :: 0 <= k < |us| && us[k].id == id
  }

  predicate EmailTaken(us: seq<User>, email: string, except: Option<Uuid>)
  {
    exists k :: 0 <= k < |us| && us[k].email == email && Some(us[k].id) != except
  }

  function FindUserByEmail(us: seq<User>, email: string): (r: Option<User>)
    ensures r.Some? ==> r.value in us && r.value.email == email
    ensures r.None? ==> forall u :: u in us ==> u.email != email
  {
    if us == [] then None
    else if us[0].email == email then Some(us[0])
    else FindUserByEmail(us[1..], email)
  }

  /** The users row with that id after an update of email and password. */
  function UpdateCredentials(us: seq<User>, id: Uuid, email: string, hashedPassword: string, now: Time): (r: seq<User>)
    ensures |r| == |us|
    ensures forall k :: 0 <= k < |us| ==>
              r[k] == if us[k].id == id
                      then us[k].(email := email, hashedPassword := hashedPassword, updatedAt := now)
                      else us[k]
  {
    seq(|us|, k requires 0 <= k < |us| =>
      if us[k].id == id then us[k].(email := email, hashedPassword := hashedPassword, updatedAt := now) else us[k])
  }

  function MarkPremium(us: seq<User>, id: Uuid): (r: seq<User>)
    ensures |r| == |us|
    ensures forall k :: 0 <= k < |us| ==> r[k] == if us[k].id == id then us[k].(isPremium := true) else us[k]
  {
    seq(|us|, k requires 0 <= k < |us| => if us[k].id == id then us[k].(isPremium := true) else us[k])
  }

  /** With unique emails, the lookup by email finds the one user holding it. */
  lemma {:induction false} FindUserByEmailUnique(us: seq<User>, u: User)
    requires UniqueUsers(us) && u in us
    ensures FindUserByEmail(us, u.email) == Some(u)
    decreases |us|
  {
    if us[0] != u {
      assert u in us[1..];
      var k :| 1 <= k < |us| && us[k] == u;
      assert us[0].email != u.email;
      FindUserByEmailUnique(us[1..], u);
    }
  }

  /** An update whose email no other user holds keeps ids and emails unique,
      keeps every id, premium flag and creation time, and afterwards the new
      email leads to that user and the new hash. */
  lemma UpdateCredentialsKeepsUsers(us: seq<User>, id: Uuid, email: string, hashedPassword: string, now: Time)
    requires UniqueUsers(us) && !EmailTaken(us, email, Some(id))
    ensures var r := UpdateCredentials(us, id, email, hashedPassword, now);
            && UniqueUsers(r)
            && (forall k :: 0 <= k < |us| ==>
                  r[k].id == us[k].id && r[k].isPremium == us[k].isPremium && r[k].createdAt == us[k].createdAt)
            && (HasUser(us, id) ==>
                  && FindUserByEmail(r, email).Some?
                  && FindUserByEmail(r, email).value.id == id
                  && FindUserByEmail(r, email).value.hashedPassword == hashedPassword)
  {
    var r := UpdateCredentials(us, id, email, hashedPassword, now);
    if HasUser(us, id) {
      var k :| 0 <= k < |us| && us[k].id == id;
      FindUserByEmailUnique(r, r[k]);
    }
  }

  // ---------------------------------------------------------------------
  // The store

  class Queries {
    var online: bool
    var users: seq<User>
    var messages: seq<Message>
    var refreshTokens: TokenTable

    /** Primary keys (users.id, messages.id) and users.email are unique; the
        token value is unique because it is the key of the map. */
    ghost predicate Valid()
      reads this
    {
      UniqueUsers(users) && UniqueMessageIds(messages)
    }

    constructor ()
      ensures Valid() && online
      ensures users == [] && messages == [] && refreshTokens == map[]
    {
      online := true;
      users := [];
      messages := [];
      refreshTokens := map[];
    }

    // --- refresh_tokens

    /** CreateRefreshToken: inserts a row with revoked_at null. It fails on a
        token value already present (primary key) or an owner that is not a
        user (foreign key). */
    method CreateRefreshToken(token: string, userId: Uuid, expiresAt: Time, now: Time) returns (ok: bool)
      requires Valid()
      modifies this
      ensures Valid()
      ensures ok <==> old(online) && token !in old(refreshTokens) && HasUser(old(users), userId)
      ensures refreshTokens == if ok then old(refreshTokens)[token := NewRefreshToken(userId, expiresAt, now)]
                               else old(refreshTokens)
      ensures ok ==> refreshTokens == Apply(old(refreshTokens), Issued(token, userId, expiresAt, now))
      ensures online == old(online) && users == old(users) && messages == old(messages)
    {
      ok := online && token !in refreshTokens && HasUser(users, userId);
      if ok {
        refreshTokens := refreshTokens[token := NewRefreshToken(userId, expiresAt, now)];
      }
    }

    /** GetUserFromRefreshToken: the owner of the row with that token when the
        row is usable; otherwise no row, which the caller sees as an error. */
    function GetUserFromRefreshToken(token: string, now: Time): (r: Option<Uuid>)
      reads this
      ensures r.Some? <==>
                online && token in refreshTokens && refreshTokens[token].expiresAt > now &&
                refreshTokens[token].revokedAt.None?
      ensures r.Some? ==> r.value == refreshTokens[token].userId
    {
      if online then FindUsable(refreshTokens, token, now) else None
    }

    /** RevokeRefreshToken: an UPDATE by token value, which succeeds whether or
        not a row matches. */
    method RevokeRefreshToken(token: string, now: Time) returns (ok: bool)
      requires Valid()
      modifies this
      ensures Valid()
      ensures ok == old(online)
      ensures refreshTokens == if ok then RevokeRow(old(refreshTokens), token, now) else old(refreshTokens)
      ensures ok ==> refreshTokens == Apply(old(refreshTokens), Revoked(token, now))
      ensures online == old(online) && users == old(users) && messages == old(messages)
    {
      ok := online;
      if ok {
        refreshTokens := RevokeRow(refreshTokens, token, now);
      }
    }

    // --- messages

    /** CreateMessage: inserts one row with a fresh id and returns it. */
    method CreateMessage(body: string, userId: Uuid, newId: Uuid, now: Time) returns (r: Option<Message>)
      requires Valid()
      modifies this
      ensures Valid()
      ensures r.Some? <==> old(online) && !HasMessageId(old(messages), newId)
      ensures r.Some? ==> r.value == Message(newId, now, now, body, userId)
      ensures messages == if r.Some? then old(messages) + [r.value] else old(messages)
      ensures online == old(online) && users == old(users) && refreshTokens == old(refreshTokens)
    {
      if !online || HasMessageId(messages, newId) {
        return None;
      }
      var row := Message(newId, now, now, body, userId);
      messages := messages + [row];
      r := Some(row);
    }

    /** DeleteMessage: removes the row only when both its id and its user_id
        match, and returns the id; otherwise there is no row. */
    method DeleteMessage(id: Uuid, userId: Uuid) returns (r: Option<Uuid>)
      requires Valid()
      modifies this
      ensures Valid()
      ensures r.Some? <==> old(online) && HasOwnedMessage(old(messages), id, userId)
      ensures r.Some? ==> r.value == id
      ensures messages == if r.Some? then RemoveOwned(old(messages), id, userId) else old(messages)
      ensures online == old(online) && users == old(users) && refreshTokens == old(refreshTokens)
    {
      if !online || !HasOwnedMessage(messages, id, userId) {
        return None;
      }
      RemoveOwnedKeepsUnique(messages, id, userId);
      messages := RemoveOwned(messages, id, userId);
      r := Some(id);
    }

    /** GetAllMessages: every row, by created_at ascending. */
    method GetAllMessages() returns (items: Option<seq<Message>>)
      ensures items.Some? <==> online
      ensures items.Some? ==>
                multiset(items.value) == multiset(messages) && SortedBy(items.value, CreatedAt, false)
    {
      if !online {
        return None;
      }
      var rows := Ordered(messages);
      return Some(rows);
    }

    /** GetAllMessagesForAuthor: the author's rows, by created_at ascending. */
    method GetAllMessagesForAuthor(author: Uuid) returns (items: Option<seq<Message>>)
      ensures items.Some? <==> online
      ensures items.Some? ==>
                multiset(items.value) == multiset(ByAuthor(messages, author)) &&
                SortedBy(items.value, CreatedAt, false)
    {
      if !online {
        return None;
      }
      var rows := Ordered(ByAuthor(messages, author));
      return Some(rows);
    }

    /** GetMessage: the row with that id, or no row. */
    function GetMessage(id: Uuid): (r: Option<Message>)
      reads this
      ensures r.Some? <==> online && HasMessageId(messages, id)
      ensures r.Some? ==> r.value in messages && r.value.id == id
    {
      if online then FindMessage(messages, id) else None
    }

    // --- users

    /** CreateUser: inserts a user that is not premium. It fails on an id or an
        email already present. */
    method CreateUser(email: string, hashedPassword: string, newId: Uuid, now: Time) returns (r: Option<User>)
      requires Valid()
      modifies this
      ensures Valid()
      ensures r.Some? <==> old(online) && !HasUser(old(users), newId) && !EmailTaken(old(users), email, None)
      ensures r.Some? ==> r.value == User(newId, now, now, email, hashedPassword, false)
      ensures users == if r.Some? then old(users) + [r.value] else old(users)
      ensures online == old(online) && messages == old(messages) && refreshTokens == old(refreshTokens)
    {
      if !online || HasUser(users, newId) || EmailTaken(users, email, None) {
        return None;
      }
      var row := User(newId, now, now, email, hashedPassword, false);
      users := users + [row];
      r := Some(row);
    }

    /** GetUserByEmail: the user with that email, or no row. */
    function GetUserByEmail(email: string): (r: Option<User>)
      reads this
      ensures r.Some? ==> online && r.value in users && r.value.email == email
      ensures r.None? ==> !online || forall u :: u in users ==> u.email != email
    {
      if online then FindUserByEmail(users, email) else None
    }

    /** CheckUserExists: whether a user has that id; None when the query fails. */
    function CheckUserExists(id: Uuid): (r: Option<bool>)
      reads this
      ensures r.Some? <==> online
      ensures r.Some? ==> (r.value <==> HasUser(users, id))
    {
      if online then Some(HasUser(users, id)) else None
    }

    /** UpdateUser: sets email and password of the user with that id and
        returns the row. It fails when no user has that id or another user has
        that email. */
    method UpdateUser(id: Uuid, email: string, hashedPassword: string, now: Time) returns (r: Option<User>)
      requires Valid()
      modifies this
      ensures Valid()
      ensures r.Some? <==> old(online) && HasUser(old(users), id) && !EmailTaken(old(users), email, Some(id))
      ensures r.Some? ==> r.value in users && r.value.id == id && r.value.email == email &&
                          r.value.hashedPassword == hashedPassword
      ensures users == if r.Some? then UpdateCredentials(old(users), id, email, hashedPassword, now) else old(users)
      ensures online == old(online) && messages == old(messages) && refreshTokens == old(refreshTokens)
    {
      if !online || !HasUser(users, id) || EmailTaken(users, email, Some(id)) {
        return None;
      }
      var k :| 0 <= k < |users| && users[k].id == id;
      var updated := UpdateCredentials(users, id, email, hashedPassword, now);
      users := updated;
      r := Some(updated[k]);
    }

    /** UpgradeToPremium: marks the user with that id premium; an id no user
        has changes nothing and is not an error. */
    method UpgradeToPremium(id: Uuid) returns (ok: bool)
      requires Valid()
      modifies this
      ensures Valid()
      ensures ok == old(online)
      ensures users == if ok then MarkPremium(old(users), id) else old(users)
      ensures online == old(online) && messages == old(messages) && refreshTokens == old(refreshTokens)
    {
      ok := online;
      if ok {
        users := MarkPremium(users, id);
      }
    }
  }

  /** The rows of ms by created_at ascending (the store's ORDER BY). */
  method Ordered(ms: seq<Message>) returns (rows: seq<Message>)
    ensures multiset(rows) == multiset(ms) && SortedBy(rows, CreatedAt, false)
  {
    var a := new Message[|ms|](i requires 0 <= i < |ms| => ms[i]);
    assert a[..] == ms;
    SortBy(a, CreatedAt, false);
    rows := a[..];
  }

  lemma {:induction false} RemoveOwnedKeepsUnique(ms: seq<Message>, id: Uuid, userId: Uuid)
    requires UniqueMessageIds(ms)
    ensures UniqueMessageIds(RemoveOwned(ms, id, userId))
    decreases |ms|
  {
    if ms != [] {
      var tail := ms[1..];
      RemoveOwnedKeepsUnique(tail, id, userId);
      var rest := RemoveOwned(tail, id, userId);
      assert forall m :: m in rest ==> m.id != ms[0].id by {
        forall m | m in rest ensures m.id != ms[0].id {
          var k :| 0 <= k < |tail| && tail[k] == m;
          assert ms[k + 1] == m;
        }
      }
      if !Matches(ms[0], id, userId) {
        var r := [ms[0]] + rest;
        forall i, j | 0 <= i < j < |r| ensures r[i].id != r[j].id {
          if i == 0 { assert r[j] in rest; } else { assert r[i] == rest[i - 1] && r[j] == rest[j - 1]; }
        }
      }
    }
  }
}
