/** handlers.go: the older handlers that talk to the store directly. Their
    message text pipeline is a copy of the message service's and is modelled
    by the same members; what differs is the order of their checks, and that
    createMessage takes the author from the request body without any
    authentication. */
module Handlers {
  import opened Wrappers
  import opened Common
  import opened Text
  import opened Sorting
  import opened Database
  import opened Models
  import opened UserService
  import opened MessageService

  /** emailIsCorrect: the same regular expression as validateEmail, so it
      accepts exactly the strings of that shape. */
  function EmailIsCorrect(email: string): (matched: bool)
    ensures matched <==> EmailShape(email)
  {
    ValidateEmailCorrect(email);
    ValidateEmail(email)
  }

  datatype RequestError = EmptyBody | NilUserId

  /** validateMessageRequest: an empty body is reported before a nil user id;
      the request is accepted iff it has both. */
  function ValidateMessageRequest(request: MessageRequest): (r: Option<RequestError>)
    ensures r.None? <==> request.body != "" && request.userId != Nil
    ensures request.body == "" ==> r == Some(EmptyBody)
    ensures request.body != "" && request.userId == Nil ==> r == Some(NilUserId)
  {
    if request.body == "" then Some(EmptyBody)
    else if request.userId == Nil then Some(NilUserId)
    else None
  }

  /** createUser: 400 for an email that is not of the accepted shape, 500
      when the insert fails, otherwise 201 with the stored row. It stores no
      password. */
  method CreateUser(db: Queries, email: string, newId: Uuid, now: Time)
    returns (user: Option<User>, status: int)
    requires db.Valid()
    modifies db
    ensures db.Valid()
    ensures status == StatusBadRequest <==> !EmailShape(email)
    ensures EmailShape(email) && status != StatusCreated ==> status == StatusInternalServerError
    ensures status == StatusCreated <==>
              EmailShape(email) && old(db.online) && !HasUser(old(db.users), newId) &&
              !EmailTaken(old(db.users), email, None)
    ensures status == StatusCreated ==>
              user == Some(User(newId, now, now, email, "", false)) && db.users == old(db.users) + [user.value]
    ensures status != StatusCreated ==> user.None? && db.users == old(db.users)
    ensures status in {StatusCreated, StatusBadRequest, StatusInternalServerError}
    ensures db.online == old(db.online) && db.messages == old(db.messages) &&
            db.refreshTokens == old(db.refreshTokens)
  {
    if !EmailIsCorrect(email) {
      return None, StatusBadRequest;
    }
    var dbUser := db.CreateUser(email, "", newId, now);
    if dbUser.None? {
      return None, StatusInternalServerError;
    }
    return dbUser, StatusCreated;
  }

  /** createMessage: 500 when the user check fails, 400 for a user id that
      is not a user (before the request itself is validated), 400 for an
      empty body, a nil user id or a body over 140 bytes, 500 when the insert
      fails, otherwise 201 with the stored row, whose body is the filtered
      text and whose author is the request's user id. */
  method CreateMessage(db: Queries, request: MessageRequest, newId: Uuid, now: Time)
    returns (message: Option<Message>, status: int)
    requires db.Valid()
    modifies db
    ensures db.Valid()
    ensures !old(db.online) ==> status == StatusInternalServerError
    ensures old(db.online) && !HasUser(old(db.users), request.userId) ==> status == StatusBadRequest
    ensures old(db.online) && HasUser(old(db.users), request.userId) &&
            (ValidateMessageRequest(request).Some? || ByteLength(request.body) > MessageMaxLength) ==>
              status == StatusBadRequest
    ensures && old(db.online) && HasUser(old(db.users), request.userId)
            && ValidateMessageRequest(request).None? && ByteLength(request.body) <= MessageMaxLength
            && HasMessageId(old(db.messages), newId) ==>
              status == StatusInternalServerError
    ensures status == StatusCreated <==>
              && old(db.online)
              && HasUser(old(db.users), request.userId)
              && ValidateMessageRequest(request).None?
              && ByteLength(request.body) <= MessageMaxLength
              && !HasMessageId(old(db.messages), newId)
    ensures status == StatusCreated ==>
              message == Some(Message(newId, now, now, Censored(request.body), request.userId)) &&
              db.messages == old(db.messages) + [message.value]
    ensures status != StatusCreated ==> message.None? && db.messages == old(db.messages)
    ensures status in {StatusCreated, StatusBadRequest, StatusInternalServerError}
    ensures db.online == old(db.online) && db.users == old(db.users) &&
            db.refreshTokens == old(db.refreshTokens)
  {
    var userExists := db.CheckUserExists(request.userId);
    if userExists.None? {
      return None, StatusInternalServerError;
    }
    if !userExists.value {
      return None, StatusBadRequest;
    }
    if ValidateMessageRequest(request).Some? {
      return None, StatusBadRequest;
    }
    var valid, messageText := ValidateMessageText(request.body);
    if !valid {
      return None, StatusBadRequest;
    }
    var dbMessage := db.CreateMessage(messageText, request.userId, newId, now);
    if dbMessage.None? {
      return None, StatusInternalServerError;
    }
    return dbMessage, StatusCreated;
  }

  /** getMessages: every row, by creation time ascending, or 500 when the
      store fails. */
  method GetMessages(db: Queries) returns (messages: seq<Message>, status: int)
    ensures status == StatusOK <==> db.online
    ensures status == StatusOK ==>
              multiset(messages) == multiset(db.messages) && SortedBy(messages, CreatedAt, false)
    ensures status != StatusOK ==> status == StatusInternalServerError && messages == []
  {
    var rows := db.GetAllMessages();
    if rows.None? {
      return [], StatusInternalServerError;
    }
    return rows.value, StatusOK;
  }

  /** getMessage: 400 for an empty id and 500 for one that is not a UUID,
      like the service; unlike the service, a missing message is 500 too. */
  function GetMessage(db: Queries, messageId: string, uuids: UuidCodec): (r: (Option<Message>, int))
    reads db
    ensures messageId == "" ==> r == (None, StatusBadRequest)
    ensures messageId != "" && uuids.parse(messageId).None? ==> r == (None, StatusInternalServerError)
    ensures messageId != "" && uuids.parse(messageId).Some? &&
            !(db.online && HasMessageId(db.messages, uuids.parse(messageId).value)) ==>
              r == (None, StatusInternalServerError)
    ensures r.1 == StatusOK <==>
              messageId != "" && uuids.parse(messageId).Some? &&
              db.online && HasMessageId(db.messages, uuids.parse(messageId).value)
    ensures r.1 == StatusOK ==>
              r.0.Some? && r.0.value in db.messages && r.0.value.id == uuids.parse(messageId).value
    ensures r.1 != StatusOK ==> r.0.None? && r.1 in {StatusBadRequest, StatusInternalServerError}
  {
    if messageId == "" then (None, StatusBadRequest)
    else
      match uuids.parse(messageId)
      case None => (None, StatusInternalServerError)
      case Some(messageUuid) =>
        match db.GetMessage(messageUuid)
        case None => (None, StatusInternalServerError)
        case Some(dbMessage) => (Some(dbMessage), StatusOK)
  }

  /** The handler and the service agree on every request that succeeds, and
      differ only in the status of a missing message (500 against 404). */
  lemma GetMessageAgreesWithService(db: Queries, messageId: string, uuids: UuidCodec)
    ensures GetMessage(db, messageId, uuids).1 == StatusOK <==>
              MessageService.GetMessage(db, messageId, uuids).1 == StatusOK
    ensures GetMessage(db, messageId, uuids).1 == StatusOK ==>
              MessageService.GetMessage(db, messageId, uuids).0 ==
                ConvertDbToMessage(GetMessage(db, messageId, uuids).0.value)
    ensures MessageService.GetMessage(db, messageId, uuids).1 == StatusNotFound ==>
              GetMessage(db, messageId, uuids).1 == StatusInternalServerError
  {
  }
}
