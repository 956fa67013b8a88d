/** internal/services/userService.go: the email check and the create, login
    and update flows, each a sequence of checks with early returns that ends
    in one write to the store. */
module UserService {
  import opened Wrappers
  import opened Common
  import opened Auth
  import opened HexEncoding
  import opened Database
  import opened Config
  import opened Models

  // ---------------------------------------------------------------------
  // The email shape ^[A-Za-z0-9._%+-]+@[A-Za-z0-9.-]+\.[A-Za-z]{2,}$

  predicate IsLetter(c: char) { 'A' <= c <= 'Z' || 'a' <= c <= 'z' }

  /** [A-Za-z0-9._%+-] */
  predicate IsLocalChar(c: char)
  {
    IsLetter(c) || IsDigit(c) || c == '.' || c == '_' || c == '%' || c == '+' || c == '-'
  }

  /** [A-Za-z0-9.-] */
  predicate IsDomainChar(c: char)
  {
    IsLetter(c) || IsDigit(c) || c == '.' || c == '-'
  }

  predicate AllLocal(s: string) { forall i :: 0 <= i < |s| ==> IsLocalChar(s[i]) }

  predicate AllDomain(s: string) { forall i :: 0 <= i < |s| ==> IsDomainChar(s[i]) }

  predicate AllLetters(s: string) { forall i :: 0 <= i < |s| ==> IsLetter(s[i]) }

  /** s = L "@" D "." T with the '@' at `at` and the '.' at `dot`: L one or more
      local characters, D one or more domain characters, T two or more letters. */
  predicate EmailSplit(s: string, at: nat, dot: nat)
  {
    && at < dot < |s|
    && s[at] == '@' && s[dot] == '.'
    && at >= 1 && AllLocal(s[..at])
    && dot >= at + 2 && AllDomain(s[at + 1..dot])
    && |s| - dot - 1 >= 2 && AllLetters(s[dot + 1..])
  }

  /** The language of the regular expression, stated by its split points. */
  ghost predicate EmailShape(s: string)
  {
    exists at: nat, dot: nat :: EmailSplit(s, at, dot)
  }

  /** The first position of c in s. */
  function IndexOf(s: string, c: char): (r: Option<nat>)
    ensures r.None? <==> c !in s
    ensures r.Some? ==> r.value < |s| && s[r.value] == c && c !in s[..r.value]
  {
    if s == [] then None
    else if s[0] == c then Some(0)
    else
      match IndexOf(s[1..], c)
      case None => None
      case Some(i) =>
        assert s[..i + 1] == [s[0]] + s[1..][..i];
        Some(i + 1)
  }

  /** The last position of c in s. */
  function LastIndexOf(s: string, c: char): (r: Option<nat>)
    ensures r.None? <==> c !in s
    ensures r.Some? ==> r.value < |s| && s[r.value] == c && c !in s[r.value + 1..]
  {
    if s == [] then None
    else if s[|s| - 1] == c then Some(|s| - 1)
    else
      var r := LastIndexOf(s[..|s| - 1], c);
      assert s == s[..|s| - 1] + [s[|s| - 1]];
      assert r.Some? ==> s[r.value + 1..] == s[..|s| - 1][r.value + 1..] + [s[|s| - 1]];
      r
  }

  /** validateEmail: a hand-written recogniser for the regular expression.
      Only the first '@' can separate L from D, since neither holds an '@';
      only the last '.' can separate D from T, since T is letters only. */
  function ValidateEmail(email: string): bool
  {
    match (IndexOf(email, '@'), LastIndexOf(email, '.'))
    case (Some(at), Some(dot)) => EmailSplit(email, at, dot)
    case _ => false
  }

  /** The recogniser accepts exactly the strings of the shape L@D.T. */
  lemma ValidateEmailCorrect(email: string)
    ensures ValidateEmail(email) <==> EmailShape(email)
  {
    if EmailShape(email) {
      var at: nat, dot: nat :| EmailSplit(email, at, dot);
      ShapeIsAccepted(email, at, dot);
    }
  }

  lemma ShapeIsAccepted(email: string, at: nat, dot: nat)
    requires EmailSplit(email, at, dot)
    ensures IndexOf(email, '@') == Some(at)
    ensures LastIndexOf(email, '.') == Some(dot)
  {
    var i := IndexOf(email, '@').value;
    AtOnlyAt(email, at, dot, i);
    var j := LastIndexOf(email, '.').value;
    DotNotAfter(email, at, dot, j);
  }

  /** Only position `at` of an address split at `at` holds an '@'. */
  lemma AtOnlyAt(email: string, at: nat, dot: nat, p: nat)
    requires EmailSplit(email, at, dot)
    requires p < |email|
    ensures email[p] == '@' ==> p == at
  {
    if p < at {
      assert email[..at][p] == email[p];
    } else if at < p < dot {
      assert email[at + 1..dot][p - at - 1] == email[p];
    } else if p > dot {
      assert email[dot + 1..][p - dot - 1] == email[p];
    }
  }

  /** No '.' of an address split at `dot` comes after `dot`. */
  lemma DotNotAfter(email: string, at: nat, dot: nat, p: nat)
    requires EmailSplit(email, at, dot)
    requires p < |email|
    ensures email[p] == '.' ==> p <= dot
  {
    if p > dot {
      assert email[dot + 1..][p - dot - 1] == email[p];
    }
  }

  /** An accepted address holds exactly one '@': one, and no two positions. */
  lemma ValidEmailHasOneAt(email: string, i: nat, j: nat)
    requires ValidateEmail(email)
    requires i < j < |email|
    ensures '@' in email
    ensures !(email[i] == '@' && email[j] == '@')
  {
    var at, dot := IndexOf(email, '@').value, LastIndexOf(email, '.').value;
    AtOnlyAt(email, at, dot, i);
    AtOnlyAt(email, at, dot, j);
  }

  // ---------------------------------------------------------------------
  // The flows

  /** 1440 hours, the lifetime of a refresh token. */
  const RefreshTokenTtl: int := 1440 * Hour

  /** convertDBToUser: the public fields of a users row, without tokens. */
  function ConvertDbToUser(u: User): (r: UserResponse)
    ensures r.id == u.id && r.email == u.email && r.isPremium == u.isPremium
    ensures r.createdAt == u.createdAt && r.updatedAt == u.updatedAt
    ensures r.token == "" && r.refreshToken == ""
  {
    UserResponse(u.id, u.createdAt, u.updatedAt, u.email, u.isPremium, "", "")
  }

  /** CreateUser: the password is checked and hashed before the email is
      looked at, so a weak password is a 500 whatever the email. */
  method CreateUser(db: Queries, request: UserRequest, p: Platform, newId: Uuid, now: Time)
    returns (response: UserResponse, status: int)
    requires db.Valid()
    modifies db
    ensures db.Valid()
    ensures !MeetsPolicy(request.password) ==> status == StatusInternalServerError
    ensures MeetsPolicy(request.password) && p.bcrypt.generate(request.password).None? ==>
              status == StatusInternalServerError
    ensures status == StatusBadRequest <==>
              MeetsPolicy(request.password) && p.bcrypt.generate(request.password).Some? &&
              !ValidateEmail(request.email)
    ensures status == StatusCreated <==>
              && MeetsPolicy(request.password) && p.bcrypt.generate(request.password).Some?
              && ValidateEmail(request.email)
              && old(db.online) && !HasUser(old(db.users), newId) && !EmailTaken(old(db.users), request.email, None)
    ensures status == StatusCreated ==>
              var row := User(newId, now, now, request.email, p.bcrypt.generate(request.password).value, false);
              db.users == old(db.users) + [row] && response == ConvertDbToUser(row)
    ensures status == StatusCreated && BcryptLaws(p.bcrypt) ==>
              CheckPasswordHash(request.password, db.users[|db.users| - 1].hashedPassword, p.bcrypt)
    ensures status != StatusCreated ==> db.users == old(db.users) && response == NoUser
    ensures status in {StatusCreated, StatusBadRequest, StatusInternalServerError}
    ensures db.online == old(db.online) && db.messages == old(db.messages) &&
            db.refreshTokens == old(db.refreshTokens)
  {
    var hashed := HashPassword(request.password, p.bcrypt);
    if hashed.Failure? {
      return NoUser, StatusInternalServerError;
    }
    if !ValidateEmail(request.email) {
      return NoUser, StatusBadRequest;
    }
    var dbUser := db.CreateUser(request.email, hashed.value, newId, now);
    if dbUser.None? {
      return NoUser, StatusInternalServerError;
    }
    return ConvertDbToUser(dbUser.value), StatusCreated;
  }

  /** LoginUser: email shape (400), user lookup (500, an unknown email
      included), password (401), access token (500), refresh token
      generation and insertion (500), then 200 with both tokens. */
  method LoginUser(db: Queries, request: UserRequest, cfg: ApiConfig, p: Platform,
                   random: Option<seq<byte>>, now: Time)
    returns (response: UserResponse, status: int)
    requires db.Valid()
    requires random.Some? ==> |random.value| == RefreshTokenBytes
    modifies db
    ensures db.Valid()
    ensures status == StatusBadRequest <==> !ValidateEmail(request.email)
    ensures ValidateEmail(request.email) && old(db.GetUserByEmail(request.email)).None? ==>
              status == StatusInternalServerError
    ensures status == StatusUnauthorized <==>
              && ValidateEmail(request.email) && old(db.GetUserByEmail(request.email)).Some?
              && !CheckPasswordHash(request.password, old(db.GetUserByEmail(request.email)).value.hashedPassword, p.bcrypt)
    ensures status == StatusOK <==>
              && ValidateEmail(request.email)
              && old(db.GetUserByEmail(request.email)).Some?
              && var user := old(db.GetUserByEmail(request.email)).value;
              && CheckPasswordHash(request.password, user.hashedPassword, p.bcrypt)
              && MakeJWT(user.id, cfg.jwtSecret, AccessTokenTtl, now, p.jwt, p.uuids).Success?
              && random.Some? && Hex(random.value) !in old(db.refreshTokens)
    ensures status == StatusOK ==>
              && ValidateEmail(request.email)
              && old(db.GetUserByEmail(request.email)).Some?
              && var user := old(db.GetUserByEmail(request.email)).value;
              && CheckPasswordHash(request.password, user.hashedPassword, p.bcrypt)
              && random.Some? && Unhex(response.refreshToken) == Some(random.value)
              && |response.refreshToken| == 2 * RefreshTokenBytes && IsLowerHex(response.refreshToken)
              && response.refreshToken !in old(db.refreshTokens)
              && db.refreshTokens == old(db.refreshTokens)[response.refreshToken :=
                                       NewRefreshToken(user.id, now + RefreshTokenTtl, now)]
              && Success(response.token) == MakeJWT(user.id, cfg.jwtSecret, AccessTokenTtl, now, p.jwt, p.uuids)
              && response.id == user.id && response.email == user.email
    ensures status == StatusOK && PlatformLaws(p) ==>
              && ValidateJWT(response.token, cfg.jwtSecret, now, p.jwt, p.uuids) == Success(response.id)
              && db.GetUserFromRefreshToken(response.refreshToken, now) == Some(response.id)
    ensures status != StatusOK ==> db.refreshTokens == old(db.refreshTokens) && response == NoUser
    ensures status in {StatusOK, StatusBadRequest, StatusUnauthorized, StatusInternalServerError}
    ensures db.online == old(db.online) && db.users == old(db.users) && db.messages == old(db.messages)
  {
    if !ValidateEmail(request.email) {
      return NoUser, StatusBadRequest;
    }
    var found := db.GetUserByEmail(request.email);
    if found.None? {
      return NoUser, StatusInternalServerError;
    }
    var user := found.value;
    if !CheckPasswordHash(request.password, user.hashedPassword, p.bcrypt) {
      return NoUser, StatusUnauthorized;
    }
    var token := MakeJWT(user.id, cfg.jwtSecret, AccessTokenTtl, now, p.jwt, p.uuids);
    if token.Failure? {
      return NoUser, StatusInternalServerError;
    }
    var refreshToken := MakeRefreshToken(random);
    if refreshToken.Failure? {
      return NoUser, StatusInternalServerError;
    }
    assert HasUser(db.users, user.id) by {
      var k :| 0 <= k < |db.users| && db.users[k] == user;
    }
    var stored := db.CreateRefreshToken(refreshToken.value, user.id, now + RefreshTokenTtl, now);
    if !stored {
      return NoUser, StatusInternalServerError;
    }
    response := ConvertDbToUser(user).(token := token.value, refreshToken := refreshToken.value);
    status := StatusOK;
    if PlatformLaws(p) {
      JwtRoundTrip(user.id, cfg.jwtSecret, AccessTokenTtl, now, now, p.jwt, p.uuids);
    }
  }

  /** UpdateUser: the bearer header and the access token are checked before
      anything else (401); then the email (400), the password policy and hash
      (500), and the update of the token subject's row (500 or 200). */
  method UpdateUser(db: Queries, header: Header, email: string, password: string,
                    cfg: ApiConfig, p: Platform, now: Time)
    returns (user: User, status: int)
    requires db.Valid()
    modifies db
    ensures db.Valid()
    ensures GetBearerToken(header).Failure? ==> status == StatusUnauthorized
    ensures GetBearerToken(header).Success? &&
            ValidateJWT(GetBearerToken(header).value, cfg.jwtSecret, now, p.jwt, p.uuids).Failure? ==>
              status == StatusUnauthorized
    ensures status == StatusUnauthorized <==>
              || GetBearerToken(header).Failure?
              || ValidateJWT(GetBearerToken(header).value, cfg.jwtSecret, now, p.jwt, p.uuids).Failure?
    ensures status == StatusBadRequest <==> status != StatusUnauthorized && !ValidateEmail(email)
    ensures status == StatusOK <==>
              && GetBearerToken(header).Success?
              && var subject := ValidateJWT(GetBearerToken(header).value, cfg.jwtSecret, now, p.jwt, p.uuids);
              && subject.Success?
              && ValidateEmail(email) && MeetsPolicy(password) && p.bcrypt.generate(password).Some?
              && old(db.online) && HasUser(old(db.users), subject.value)
              && !EmailTaken(old(db.users), email, Some(subject.value))
    ensures status == StatusOK ==>
              && MeetsPolicy(password)
              && var subject := ValidateJWT(GetBearerToken(header).value, cfg.jwtSecret, now, p.jwt, p.uuids).value;
              && user.id == subject && user.email == email
              && db.users == UpdateCredentials(old(db.users), subject, email, user.hashedPassword, now)
              && Some(user.hashedPassword) == p.bcrypt.generate(password)
    ensures status != StatusOK ==> db.users == old(db.users)
    ensures status in {StatusOK, StatusBadRequest, StatusUnauthorized, StatusInternalServerError}
    ensures db.online == old(db.online) && db.messages == old(db.messages) &&
            db.refreshTokens == old(db.refreshTokens)
  {
    var token := GetBearerToken(header);
    if token.Failure? {
      return User(Nil, 0, 0, "", "", false), StatusUnauthorized;
    }
    var userID := ValidateJWT(token.value, cfg.jwtSecret, now, p.jwt, p.uuids);
    if userID.Failure? {
      return User(Nil, 0, 0, "", "", false), StatusUnauthorized;
    }
    if !ValidateEmail(email) {
      return User(Nil, 0, 0, "", "", false), StatusBadRequest;
    }
    var hashed := HashPassword(password, p.bcrypt);
    if hashed.Failure? {
      return User(Nil, 0, 0, "", "", false), StatusInternalServerError;
    }
    var updated := db.UpdateUser(userID.value, email, hashed.value, now);
    if updated.None? {
      return User(Nil, 0, 0, "", "", false), StatusInternalServerError;
    }
    return updated.value, StatusOK;
  }
}
