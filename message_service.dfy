/** internal/services/messageService.go: reading, posting and deleting short
    messages, with the length limit and the profanity filter a posted message
    goes through. */
module MessageService {
  import opened Wrappers
  import opened Common
  import opened Text
  import opened Sorting
  import opened Auth
  import opened Database
  import opened Config
  import opened Models

  // ---------------------------------------------------------------------
  // The profanity filter

  /** The words a message may not contain, compared after lower-casing. */
  const ProfanedWords: set<string> := {"kerfuffle", "sharbert", "fornax"}

  /** What a profane word is replaced by. */
  const Mask: string := "****"

  /** One space-separated piece after filtering: masked when its lower-case
      form is a profane word, otherwise kept as it was written. */
  function CensorPiece(w: string): string
  {
    if Lower(w) in ProfanedWords then Mask else w
  }

  function CensorPieces(ws: seq<string>): seq<string>
  {
    seq(|ws|, k requires 0 <= k < |ws| => CensorPiece(ws[k]))
  }

  /** The message the filter makes of msg: split on single spaces, each piece
      filtered, joined back with single spaces. */
  function Censored(msg: string): string
  {
    Join(CensorPieces(Split(msg)))
  }

  /** profanityFix: splits both the message and its lower-case form on " ",
      masks the profane pieces in the slice of original pieces, and joins
      that slice back together. */
  method ProfanityFix(msg: string) returns (fixed: string)
    ensures fixed == Censored(msg)
  {
    var splitted := Split(msg);
    var splittedLowered := Split(Lower(msg));
    SplitLower(msg);
    var pieces := new string[|splitted|](k requires 0 <= k < |splitted| => splitted[k]);
    assert pieces[..] == splitted;
    MaskProfane(pieces, splittedLowered);
    fixed := Join(pieces[..]);
  }

  /** The loop of profanityFix: overwrites, in place, each piece whose
      lower-case twin in `lowered` is a profane word. */
  method MaskProfane(pieces: array<string>, lowered: seq<string>)
    requires lowered == LowerEach(pieces[..])
    modifies pieces
    ensures pieces[..] == CensorPieces(old(pieces[..]))
  {
    for i := 0 to |lowered|
      invariant forall k :: 0 <= k < i ==> pieces[k] == CensorPiece(old(pieces[k]))
      invariant forall k :: i <= k < pieces.Length ==> pieces[k] == old(pieces[k])
    {
      if lowered[i] in ProfanedWords {
        pieces[i] := Mask;
      }
    }
  }

  lemma MaskIsClean()
    ensures NoSpace(Mask)
    ensures Lower(Mask) == Mask && Mask !in ProfanedWords
  {
    assert Lower(Mask) == Mask;
  }

  /** The filtered message has exactly the pieces of the original, each one
      masked when profane and otherwise untouched. */
  lemma CensoredPieces(msg: string)
    ensures |Split(Censored(msg))| == |Split(msg)|
    ensures forall k :: 0 <= k < |Split(msg)| ==>
              Split(Censored(msg))[k] == if Lower(Split(msg)[k]) in ProfanedWords then Mask else Split(msg)[k]
  {
    SplitShape(msg);
    MaskIsClean();
    var pieces := CensorPieces(Split(msg));
    assert AllNoSpace(pieces);
    SplitJoin(pieces);
  }

  /** No piece of a filtered message is a profane word in any letter case. */
  lemma CensoredIsClean(msg: string)
    ensures forall w :: w in Split(Censored(msg)) ==> Lower(w) !in ProfanedWords
  {
    CensoredPieces(msg);
    MaskIsClean();
    forall w | w in Split(Censored(msg)) ensures Lower(w) !in ProfanedWords {
      var k :| 0 <= k < |Split(Censored(msg))| && Split(Censored(msg))[k] == w;
    }
  }

  /** Filtering twice is filtering once. */
  lemma CensorIdempotent(msg: string)
    ensures Censored(Censored(msg)) == Censored(msg)
  {
    CensoredPieces(msg);
    CensoredIsClean(msg);
    var pieces := Split(Censored(msg));
    assert CensorPieces(pieces) == pieces by {
      forall k | 0 <= k < |pieces| ensures CensorPiece(pieces[k]) == pieces[k] {
        assert pieces[k] in pieces;
      }
    }
    JoinSplit(Censored(msg));
  }

  /** A message without profane pieces passes the filter unchanged. */
  lemma CleanMessageUnchanged(msg: string)
    requires forall w :: w in Split(msg) ==> Lower(w) !in ProfanedWords
    ensures Censored(msg) == msg
  {
    var pieces := Split(msg);
    assert CensorPieces(pieces) == pieces by {
      forall k | 0 <= k < |pieces| ensures CensorPiece(pieces[k]) == pieces[k] {
        assert pieces[k] in pieces;
      }
    }
    JoinSplit(msg);
  }

  /** A masked piece is never longer in bytes than the piece it replaces. */
  lemma CensorPieceShorter(w: string)
    ensures ByteLength(CensorPiece(w)) <= ByteLength(w)
  {
    if Lower(w) in ProfanedWords {
      ByteLengthBounds(w);
      ByteLengthBounds(Mask);
      assert |w| == |Lower(w)| >= 6;
    }
  }

  lemma {:induction false} JoinShorter(vs: seq<string>, ws: seq<string>)
    requires |vs| == |ws| >= 1
    requires forall k :: 0 <= k < |ws| ==> ByteLength(vs[k]) <= ByteLength(ws[k])
    ensures ByteLength(Join(vs)) <= ByteLength(Join(ws))
    decreases |ws|
  {
    if |ws| > 1 {
      JoinShorter(vs[1..], ws[1..]);
      ByteLengthAppend(vs[0], " ");
      ByteLengthAppend(vs[0] + " ", Join(vs[1..]));
      ByteLengthAppend(ws[0], " ");
      ByteLengthAppend(ws[0] + " ", Join(ws[1..]));
    }
  }

  /** Filtering never makes a message longer in bytes. */
  lemma CensorShortens(msg: string)
    ensures ByteLength(Censored(msg)) <= ByteLength(msg)
  {
    var pieces := Split(msg);
    forall k | 0 <= k < |pieces|
      ensures ByteLength(CensorPieces(pieces)[k]) <= ByteLength(pieces[k])
    {
      CensorPieceShorter(pieces[k]);
    }
    JoinShorter(CensorPieces(pieces), pieces);
    JoinSplit(msg);
  }

  /** The most bytes a message may have, counted before filtering. */
  const MessageMaxLength: nat := 140

  /** validateMessageText: a message of more than 140 bytes is refused and
      left as it is; any other is accepted and replaced by its filtered form,
      which is then no longer than 140 bytes either. */
  method ValidateMessageText(message: string) returns (valid: bool, fixed: string)
    ensures valid <==> ByteLength(message) <= MessageMaxLength
    ensures valid ==> fixed == Censored(message) && ByteLength(fixed) <= MessageMaxLength
    ensures !valid ==> fixed == message
  {
    if ByteLength(message) > MessageMaxLength {
      return false, message;
    }
    fixed := ProfanityFix(message);
    CensorShortens(message);
    valid := true;
  }

  // ---------------------------------------------------------------------
  // Responses

  /** converDbToMessage: a messages row as the client sees it. */
  function ConvertDbToMessage(m: Message): MessageResponse
  {
    MessageResponse(m.id, m.createdAt, m.updatedAt, m.body, m.userId)
  }

  function Responses(rows: seq<Message>): seq<MessageResponse>
  {
    seq(|rows|, i requires 0 <= i < |rows| => ConvertDbToMessage(rows[i]))
  }

  function ResponseCreatedAt(r: MessageResponse): int { r.createdAt }

  lemma ResponsesAppend(s: seq<Message>, t: seq<Message>)
    ensures Responses(s + t) == Responses(s) + Responses(t)
  {
  }

  /** Converting two arrangements of the same rows gives two arrangements of
      the same responses. */
  lemma {:induction false} ResponsesPermutation(s: seq<Message>, t: seq<Message>)
    requires multiset(s) == multiset(t)
    ensures multiset(Responses(s)) == multiset(Responses(t))
    decreases |s|
  {
    if s == [] {
      assert t == [];
    } else {
      assert s[0] in multiset(t);
      var k :| 0 <= k < |t| && t[k] == s[0];
      var rest := t[..k] + t[k + 1..];
      assert t == t[..k] + [t[k]] + t[k + 1..];
      assert s == [s[0]] + s[1..];
      assert multiset(s) == multiset{s[0]} + multiset(s[1..]);
      assert multiset(t) == multiset(t[..k]) + multiset{t[k]} + multiset(t[k + 1..]);
      assert multiset(rest) == multiset(t[..k]) + multiset(t[k + 1..]);
      assert multiset(s[1..]) == multiset(s) - multiset{s[0]};
      assert multiset(rest) == multiset(t) - multiset{t[k]};
      ResponsesPermutation(s[1..], rest);
      ResponsesAppend([s[0]], s[1..]);
      ResponsesAppend(t[..k] + [t[k]], t[k + 1..]);
      ResponsesAppend(t[..k], [t[k]]);
      ResponsesAppend(t[..k], t[k + 1..]);
    }
  }

  // ---------------------------------------------------------------------
  // The service

  /** GetMessage: 400 for an empty id, 500 for one that is not a UUID, 404
      when no row has that id (or the store fails), otherwise 200 with the
      row. */
  function GetMessage(db: Queries, messageId: string, uuids: UuidCodec): (r: (MessageResponse, int))
    reads db
    ensures messageId == "" ==> r == (NoMessage, StatusBadRequest)
    ensures messageId != "" && uuids.parse(messageId).None? ==> r == (NoMessage, StatusInternalServerError)
    ensures messageId != "" && uuids.parse(messageId).Some? &&
            !(db.online && HasMessageId(db.messages, uuids.parse(messageId).value)) ==>
              r == (NoMessage, StatusNotFound)
    ensures r.1 == StatusOK <==>
              && messageId != ""
              && uuids.parse(messageId).Some?
              && db.online && HasMessageId(db.messages, uuids.parse(messageId).value)
    ensures r.1 == StatusOK ==>
              exists m :: m in db.messages && m.id == uuids.parse(messageId).value && r.0 == ConvertDbToMessage(m)
    ensures r.1 != StatusOK ==> r.0 == NoMessage
    ensures r.1 in {StatusOK, StatusBadRequest, StatusNotFound, StatusInternalServerError}
  {
    if messageId == "" then (NoMessage, StatusBadRequest)
    else
      match uuids.parse(messageId)
      case None => (NoMessage, StatusInternalServerError)
      case Some(messageUuid) =>
        match db.GetMessage(messageUuid)
        case None => (NoMessage, StatusNotFound)
        case Some(dbMessage) => (ConvertDbToMessage(dbMessage), StatusOK)
  }

  /** Any stored message is found again under the string form of its id. */
  lemma GetMessageFindsStored(db: Queries, m: Message, uuids: UuidCodec)
    requires UuidLaws(uuids) && db.Valid() && db.online && m in db.messages
    ensures GetMessage(db, uuids.format(m.id), uuids) == (ConvertDbToMessage(m), StatusOK)
  {
    var s := uuids.format(m.id);
    assert uuids.parse(s) == Some(m.id);
    var j :| 0 <= j < |db.messages| && db.messages[j] == m;
    var found := db.GetMessage(m.id);
    assert found.Some?;
    var i :| 0 <= i < |db.messages| && db.messages[i] == found.value;
    assert i == j;
  }

  /** GetAllMessages: all messages, or the author's when an author id is
      given (400 when it is not a UUID), 404 when the store fails, then
      ordered by creation time ascending ("asc" or no order) or descending
      ("desc"); any other order is 400. */
  method GetAllMessages(db: Queries, authorID: string, order: string, uuids: UuidCodec)
    returns (items: seq<MessageResponse>, status: int)
    ensures authorID != "" && uuids.parse(authorID).None? ==> status == StatusBadRequest
    ensures (authorID == "" || uuids.parse(authorID).Some?) && !db.online ==> status == StatusNotFound
    ensures (authorID == "" || uuids.parse(authorID).Some?) && db.online && order !in {"asc", "", "desc"} ==>
              status == StatusBadRequest
    ensures status == StatusOK <==>
              (authorID == "" || uuids.parse(authorID).Some?) && db.online && order in {"asc", "", "desc"}
    ensures status == StatusOK ==>
              && multiset(items) == multiset(Responses(
                   if authorID == "" then db.messages else ByAuthor(db.messages, uuids.parse(authorID).value)))
              && SortedBy(items, ResponseCreatedAt, order == "desc")
    ensures status != StatusOK ==> items == []
    ensures status in {StatusOK, StatusBadRequest, StatusNotFound}
  {
    var messages: Option<seq<Message>>;
    if authorID != "" {
      var authorUuid := uuids.parse(authorID);
      if authorUuid.None? {
        return [], StatusBadRequest;
      }
      messages := db.GetAllMessagesForAuthor(authorUuid.value);
    } else {
      messages := db.GetAllMessages();
    }
    if messages.None? {
      return [], StatusNotFound;
    }
    var rows := messages.value;
    var responseMessages := new MessageResponse[|rows|](_ => NoMessage);
    for i := 0 to |rows|
      invariant forall k :: 0 <= k < i ==> responseMessages[k] == ConvertDbToMessage(rows[k])
    {
      responseMessages[i] := ConvertDbToMessage(rows[i]);
    }
    assert responseMessages[..] == Responses(rows);
    ResponsesPermutation(rows, if authorID == "" then db.messages else ByAuthor(db.messages, uuids.parse(authorID).value));
    if order == "asc" || order == "" {
      SortBy(responseMessages, ResponseCreatedAt, false);
    } else if order == "desc" {
      SortBy(responseMessages, ResponseCreatedAt, true);
    } else {
      return [], StatusBadRequest;
    }
    return responseMessages[..], StatusOK;
  }

  /** The caller's identity, when the request carries a bearer token that
      validates as an access token. */
  predicate Authenticated(header: Header, cfg: ApiConfig, p: Platform, now: Time)
  {
    GetBearerToken(header).Success? &&
    ValidateJWT(GetBearerToken(header).value, cfg.jwtSecret, now, p.jwt, p.uuids).Success?
  }

  function Caller(header: Header, cfg: ApiConfig, p: Platform, now: Time): Uuid
    requires Authenticated(header, cfg, p, now)
  {
    ValidateJWT(GetBearerToken(header).value, cfg.jwtSecret, now, p.jwt, p.uuids).value
  }

  /** CreateMessage: 400 without a bearer header, 401 for a token that does not
      validate, 500 when the user check fails, 400 for a user that does not
      exist or a message over 140 bytes, 500 when the insert fails, otherwise
      201 with the stored row. The author is always the token's subject, never
      the user id in the request body, and the stored body is the filtered
      one. */
  method CreateMessage(db: Queries, header: Header, request: MessageRequest, cfg: ApiConfig, p: Platform,
                       newId: Uuid, now: Time)
    returns (response: MessageResponse, status: int)
    requires db.Valid()
    modifies db
    ensures db.Valid()
    ensures GetBearerToken(header).Failure? ==> status == StatusBadRequest
    ensures GetBearerToken(header).Success? && !Authenticated(header, cfg, p, now) ==> status == StatusUnauthorized
    ensures Authenticated(header, cfg, p, now) && !old(db.online) ==> status == StatusInternalServerError
    ensures Authenticated(header, cfg, p, now) && old(db.online) &&
            (!HasUser(old(db.users), Caller(header, cfg, p, now)) || ByteLength(request.body) > MessageMaxLength) ==>
              status == StatusBadRequest
    ensures status == StatusCreated <==>
              && Authenticated(header, cfg, p, now)
              && old(db.online)
              && HasUser(old(db.users), Caller(header, cfg, p, now))
              && ByteLength(request.body) <= MessageMaxLength
              && !HasMessageId(old(db.messages), newId)
    ensures && Authenticated(header, cfg, p, now) && old(db.online)
            && HasUser(old(db.users), Caller(header, cfg, p, now)) && ByteLength(request.body) <= MessageMaxLength
            && HasMessageId(old(db.messages), newId) ==>
              status == StatusInternalServerError
    ensures status == StatusCreated ==>
              var row := Message(newId, now, now, Censored(request.body), Caller(header, cfg, p, now));
              response == ConvertDbToMessage(row) && db.messages == old(db.messages) + [row]
    ensures status != StatusCreated ==> response == NoMessage && db.messages == old(db.messages)
    ensures status in {StatusCreated, StatusBadRequest, StatusUnauthorized, StatusInternalServerError}
    ensures db.online == old(db.online) && db.users == old(db.users) && db.refreshTokens == old(db.refreshTokens)
  {
    var token := GetBearerToken(header);
    if token.Failure? {
      return NoMessage, StatusBadRequest;
    }
    var userId := ValidateJWT(token.value, cfg.jwtSecret, now, p.jwt, p.uuids);
    if userId.Failure? {
      return NoMessage, StatusUnauthorized;
    }
    var userExists := db.CheckUserExists(userId.value);
    if userExists.None? {
      return NoMessage, StatusInternalServerError;
    }
    if !userExists.value {
      return NoMessage, StatusBadRequest;
    }
    var valid, messageText := ValidateMessageText(request.body);
    if !valid {
      return NoMessage, StatusBadRequest;
    }
    var dbMessage := db.CreateMessage(messageText, userId.value, newId, now);
    if dbMessage.None? {
      return NoMessage, StatusInternalServerError;
    }
    return ConvertDbToMessage(dbMessage.value), StatusCreated;
  }

  /** With ids unique, deleting an owned message leaves no message with its id. */
  lemma DeletedIsGone(ms: seq<Message>, id: Uuid, userId: Uuid)
    requires UniqueMessageIds(ms) && HasOwnedMessage(ms, id, userId)
    ensures !HasMessageId(RemoveOwned(ms, id, userId), id)
  {
    var k :| 0 <= k < |ms| && Matches(ms[k], id, userId);
    var rest := RemoveOwned(ms, id, userId);
    forall j | 0 <= j < |rest| ensures rest[j].id != id {
      assert rest[j] in ms;
      var i :| 0 <= i < |ms| && ms[i] == rest[j];
      if i != k {
        assert ms[i].id != ms[k].id;
      }
    }
  }

  /** DeleteMessage: 401 unless the caller authenticates, 400 for an id that
      is not a UUID, 404 for a message that does not exist, 403 for one that
      belongs to someone else, otherwise 204 with the message gone and every
      other message kept. */
  method DeleteMessage(db: Queries, header: Header, messageID: string, cfg: ApiConfig, p: Platform, now: Time)
    returns (status: int)
    requires db.Valid()
    modifies db
    ensures db.Valid()
    ensures !Authenticated(header, cfg, p, now) ==> status == StatusUnauthorized
    ensures Authenticated(header, cfg, p, now) && p.uuids.parse(messageID).None? ==> status == StatusBadRequest
    ensures Authenticated(header, cfg, p, now) && p.uuids.parse(messageID).Some? &&
            !(old(db.online) && HasMessageId(old(db.messages), p.uuids.parse(messageID).value)) ==>
              status == StatusNotFound
    ensures status == StatusForbidden <==>
              && Authenticated(header, cfg, p, now)
              && p.uuids.parse(messageID).Some?
              && old(db.online) && HasMessageId(old(db.messages), p.uuids.parse(messageID).value)
              && !HasOwnedMessage(old(db.messages), p.uuids.parse(messageID).value, Caller(header, cfg, p, now))
    ensures status == StatusNoContent <==>
              && Authenticated(header, cfg, p, now)
              && p.uuids.parse(messageID).Some?
              && old(db.online)
              && HasOwnedMessage(old(db.messages), p.uuids.parse(messageID).value, Caller(header, cfg, p, now))
    ensures status == StatusNoContent ==>
              var id := p.uuids.parse(messageID).value;
              && db.messages == RemoveOwned(old(db.messages), id, Caller(header, cfg, p, now))
              && !HasMessageId(db.messages, id)
              && forall m :: m in old(db.messages) && m.id != id ==> m in db.messages
    ensures status != StatusNoContent ==> db.messages == old(db.messages)
    ensures status in {StatusNoContent, StatusBadRequest, StatusUnauthorized, StatusForbidden, StatusNotFound}
    ensures db.online == old(db.online) && db.users == old(db.users) && db.refreshTokens == old(db.refreshTokens)
  {
    var token := GetBearerToken(header);
    if token.Failure? {
      return StatusUnauthorized;
    }
    var userID := ValidateJWT(token.value, cfg.jwtSecret, now, p.jwt, p.uuids);
    if userID.Failure? {
      return StatusUnauthorized;
    }
    var messageUuid := p.uuids.parse(messageID);
    if messageUuid.None? {
      return StatusBadRequest;
    }
    var existing := db.GetMessage(messageUuid.value);
    if existing.None? {
      return StatusNotFound;
    }
    if HasOwnedMessage(db.messages, messageUuid.value, userID.value) {
      DeletedIsGone(db.messages, messageUuid.value, userID.value);
    } else {
      assert !HasOwnedMessage(old(db.messages), messageUuid.value, userID.value);
    }
    var dbMessageId := db.DeleteMessage(messageUuid.value, userID.value);
    if dbMessageId.None? || dbMessageId.value != messageUuid.value {
      return StatusForbidden;
    }
    return StatusNoContent;
  }
}
