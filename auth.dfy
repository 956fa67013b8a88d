/** The credential helpers of internal/auth: the password policy in front of
    bcrypt, access tokens (JSON Web Tokens with the registered claims of
    section 4.1 of RFC 7519, signed HS256 as in section 3.2 of RFC 7518),
    `Authorization: Bearer` extraction and refresh-token generation.
    bcrypt and the JWT library are given as values whose behaviour the
    model only constrains through the laws stated below. */
module Auth {
  import opened Wrappers
  import opened Common
  import opened Text
  import opened HexEncoding

  // ---------------------------------------------------------------------
  // Password policy and hashing

  const MinPasswordLength: nat := 4
  const MinDigitCount: nat := 2

  /** An ASCII digit: the class [0-9] of a regular expression, and
      unicode.IsDigit restricted to ASCII. */
  predicate IsDigit(c: char)
  {
    '0' <= c <= '9'
  }

  /** The number of digit characters of s, counted from the end so that a
      left-to-right scan extends it one character at a time. */
  function DigitCount(s: string): nat
  {
    if s == [] then 0 else DigitCount(s[..|s| - 1]) + (if IsDigit(s[|s| - 1]) then 1 else 0)
  }

  /** The positions of s that hold a digit: an independent account of DigitCount. */
  function DigitPositions(s: string): set<nat>
  {
    set i: nat | i < |s| && IsDigit(s[i])
  }

  lemma {:induction false} DigitCountIsPositions(s: string)
    ensures DigitCount(s) == |DigitPositions(s)|
    decreases |s|
  {
    if s != [] {
      var init := s[..|s| - 1];
      DigitCountIsPositions(init);
      var last := |s| - 1;
      if IsDigit(s[last]) {
        assert DigitPositions(s) == DigitPositions(init) + {last};
        assert last !in DigitPositions(init);
      } else {
        assert DigitPositions(s) == DigitPositions(init);
      }
    }
  }

  /** The password policy: at least four code points and at least two digits. */
  predicate MeetsPolicy(password: string)
  {
    |password| >= MinPasswordLength && DigitCount(password) >= MinDigitCount
  }

  datatype PolicyViolation = TooShort | TooFewDigits

  /** checkPassword: the length is checked first, counting code points and not
      bytes, then the digits are counted in one pass over the characters. */
  method CheckPassword(password: string) returns (violation: Option<PolicyViolation>)
    ensures violation == Some(TooShort) <==> |password| < MinPasswordLength
    ensures violation == Some(TooFewDigits) <==>
              |password| >= MinPasswordLength && DigitCount(password) < MinDigitCount
    ensures violation == None <==> MeetsPolicy(password)
  {
    if |password| < MinPasswordLength {
      return Some(TooShort);
    }
    var digitCount := 0;
    for i := 0 to |password|
      invariant digitCount == DigitCount(password[..i])
    {
      assert password[..i + 1][..i] == password[..i];
      if IsDigit(password[i]) {
        digitCount := digitCount + 1;
      }
    }
    assert password[..|password|] == password;
    if digitCount < MinDigitCount {
      return Some(TooFewDigits);
    }
    return None;
  }

  /** bcrypt.GenerateFromPassword (None when it fails) and
      bcrypt.CompareHashAndPassword (true when the password matches). */
  datatype Bcrypt = Bcrypt(generate: string -> Option<string>, matches: (string, string) -> bool)

  /** The one property of bcrypt the model relies on: a password matches the
      hash generated from it. */
  ghost predicate BcryptLaws(b: Bcrypt)
  {
    forall password | b.generate(password).Some? :: b.matches(password, b.generate(password).value)
  }

  datatype HashError = WeakPassword(violation: PolicyViolation) | HashingFailure

  /** CheckPasswordHash: true when the password matches the stored hash. */
  function CheckPasswordHash(password: string, hash: string, b: Bcrypt): bool
  {
    b.matches(password, hash)
  }

  /** HashPassword: the policy gate, then bcrypt. bcrypt is never asked to hash
      a password that fails the policy. */
  method HashPassword(password: string, b: Bcrypt) returns (r: Result<string, HashError>)
    ensures !MeetsPolicy(password) ==> r.Failure? && r.error.WeakPassword?
    ensures |password| < MinPasswordLength ==> r == Failure(WeakPassword(TooShort))
    ensures |password| >= MinPasswordLength && DigitCount(password) < MinDigitCount ==>
              r == Failure(WeakPassword(TooFewDigits))
    ensures MeetsPolicy(password) ==>
              if b.generate(password).Some? then r == Success(b.generate(password).value)
              else r == Failure(HashingFailure)
    ensures BcryptLaws(b) && r.Success? ==> CheckPasswordHash(password, r.value, b)
  {
    var violation := CheckPassword(password);
    if violation.Some? {
      return Failure(WeakPassword(violation.value));
    }
    match b.generate(password)
    case Some(hashed) => r := Success(hashed);
    case None => r := Failure(HashingFailure);
  }

  // ---------------------------------------------------------------------
  // Access tokens

  const Issuer: string := "SNserver"

  /** One hour, the lifetime both login and refresh give an access token. */
  const AccessTokenTtl: int := Hour

  /** The signing methods a compact JWT header can name; HS256, HS384 and
      HS512 are the HMAC family. */
  datatype SigningMethod = HS256 | HS384 | HS512 | RS256 | ES256 | EdDSA | Unsigned

  predicate IsHmac(m: SigningMethod)
  {
    m.HS256? || m.HS384? || m.HS512?
  }

  /** The registered claims the service reads or writes (section 4.1 of RFC 7519). */
  datatype Claims = Claims(
    issuer: string,
    issuedAt: Option<Time>,
    notBefore: Option<Time>,
    expiresAt: Option<Time>,
    subject: string)

  datatype Jwt = Jwt(alg: SigningMethod, claims: Claims)

  /** golang-jwt: `sign` serialises and signs with the key (None on failure),
      `parse` reads the header and claims of a compact token (None when it is
      malformed or names an unknown method), `signatureValid` checks the
      signature of a compact token against a key. */
  datatype JwtLibrary = JwtLibrary(
    sign: (Jwt, string) -> Option<string>,
    parse: string -> Option<Jwt>,
    signatureValid: (string, string) -> bool)

  /** What the model relies on: a signed token parses back to what was signed
      and verifies under the key it was signed with. */
  ghost predicate JwtLaws(lib: JwtLibrary)
  {
    forall t, key | lib.sign(t, key).Some? ::
      lib.parse(lib.sign(t, key).value) == Some(t) && lib.signatureValid(lib.sign(t, key).value, key)
  }

  /** The block size of SHA-256 in bytes: HMAC zero-pads a shorter key to it
      and replaces a longer one by its digest (section 2 of RFC 2104). */
  const HmacBlockSize: nat := 64

  /** s without its trailing NUL characters. */
  function TrimNul(s: string): (r: string)
    ensures r <= s && (r == [] || r[|r| - 1] != '\0')
    ensures forall i :: |r| <= i < |s| ==> s[i] == '\0'
  {
    if s != [] && s[|s| - 1] == '\0' then TrimNul(s[..|s| - 1]) else s
  }

  /** Two keys HMAC keeps apart: both fit in a block, so neither is hashed,
      and they still differ once zero padding is taken away. */
  predicate HmacDistinctKeys(key: string, other: string)
  {
    ByteLength(key) <= HmacBlockSize && ByteLength(other) <= HmacBlockSize &&
    TrimNul(key) != TrimNul(other)
  }

  /** HMAC treated as unforgeable: a token signed under one key does not
      verify under a key HMAC keeps apart from it. */
  ghost predicate HmacKeyLaws(lib: JwtLibrary)
  {
    forall t, key, other | lib.sign(t, key).Some? && HmacDistinctKeys(key, other) ::
      !lib.signatureValid(lib.sign(t, key).value, other)
  }

  /** Keys that differ only in trailing NUL bytes are one HMAC key. */
  lemma PaddedKeysAlike(key: string)
    ensures !HmacDistinctKeys(key, key + ['\0'])
  {
    assert (key + ['\0'])[..|key|] == key;
  }

  /** The library's time checks: not expired (now strictly before exp) and
      already valid (now not before nbf); absent claims are not required. */
  predicate TimelyAt(c: Claims, now: Time)
  {
    (c.expiresAt.None? || now < c.expiresAt.value) &&
    (c.notBefore.None? || now >= c.notBefore.value)
  }

  /** The claim set MakeJWT signs. */
  function AccessClaims(userID: Uuid, expiresIn: int, now: Time, uuids: UuidCodec): Claims
  {
    Claims(Issuer, Some(now), None, Some(now + expiresIn), uuids.format(userID))
  }

  datatype JwtError = SigningFailure | TokenNotValid | BadSubject

  /** MakeJWT: signs the access claims with HS256 under the secret. */
  function MakeJWT(userID: Uuid, tokenSecret: string, expiresIn: int, now: Time,
                   lib: JwtLibrary, uuids: UuidCodec): (r: Result<string, JwtError>)
    ensures r.Failure? ==> r.error == SigningFailure
  {
    match lib.sign(Jwt(HS256, AccessClaims(userID, expiresIn, now, uuids)), tokenSecret)
    case Some(signed) => Success(signed)
    case None => Failure(SigningFailure)
  }

  /** ValidateJWT: the key function refuses every method outside the HMAC
      family; a parse failure, a bad signature or a failed time check is one
      error; the subject must then parse as a UUID. */
  function ValidateJWT(tokenString: string, tokenSecret: string, now: Time,
                       lib: JwtLibrary, uuids: UuidCodec): (r: Result<Uuid, JwtError>)
    ensures r.Success? <==>
              && lib.parse(tokenString).Some?
              && IsHmac(lib.parse(tokenString).value.alg)
              && lib.signatureValid(tokenString, tokenSecret)
              && TimelyAt(lib.parse(tokenString).value.claims, now)
              && uuids.parse(lib.parse(tokenString).value.claims.subject).Some?
    ensures r.Success? ==> Some(r.value) == uuids.parse(lib.parse(tokenString).value.claims.subject)
    ensures r.Failure? ==> r.error != SigningFailure
  {
    match lib.parse(tokenString)
    case None => Failure(TokenNotValid)
    case Some(token) =>
      if !IsHmac(token.alg) then Failure(TokenNotValid)
      else if !lib.signatureValid(tokenString, tokenSecret) then Failure(TokenNotValid)
      else if !TimelyAt(token.claims, now) then Failure(TokenNotValid)
      else
        match uuids.parse(token.claims.subject)
        case None => Failure(BadSubject)
        case Some(id) => Success(id)
  }

  /** A minted token carries issuer "SNserver", the user id's string form as
      subject, issued-at now and expiry now + expiresIn, under HS256. */
  lemma MakeJwtClaims(userID: Uuid, tokenSecret: string, expiresIn: int, now: Time,
                      lib: JwtLibrary, uuids: UuidCodec)
    requires JwtLaws(lib)
    requires MakeJWT(userID, tokenSecret, expiresIn, now, lib, uuids).Success?
    ensures var t := MakeJWT(userID, tokenSecret, expiresIn, now, lib, uuids).value;
            && lib.parse(t) == Some(Jwt(HS256, Claims(Issuer, Some(now), None, Some(now + expiresIn), uuids.format(userID))))
            && lib.signatureValid(t, tokenSecret)
  {
  }

  /** Round trip: before it expires, a minted token validates to its user. */
  lemma JwtRoundTrip(userID: Uuid, tokenSecret: string, expiresIn: int, now: Time, later: Time,
                     lib: JwtLibrary, uuids: UuidCodec)
    requires JwtLaws(lib) && UuidLaws(uuids)
    requires MakeJWT(userID, tokenSecret, expiresIn, now, lib, uuids).Success?
    requires later < now + expiresIn
    ensures ValidateJWT(MakeJWT(userID, tokenSecret, expiresIn, now, lib, uuids).value,
                        tokenSecret, later, lib, uuids) == Success(userID)
  {
    MakeJwtClaims(userID, tokenSecret, expiresIn, now, lib, uuids);
  }

  /** From its expiry on, a minted token is refused. */
  lemma JwtExpires(userID: Uuid, tokenSecret: string, expiresIn: int, now: Time, later: Time,
                   lib: JwtLibrary, uuids: UuidCodec)
    requires JwtLaws(lib)
    requires MakeJWT(userID, tokenSecret, expiresIn, now, lib, uuids).Success?
    requires later >= now + expiresIn
    ensures ValidateJWT(MakeJWT(userID, tokenSecret, expiresIn, now, lib, uuids).value,
                        tokenSecret, later, lib, uuids) == Failure(TokenNotValid)
  {
    MakeJwtClaims(userID, tokenSecret, expiresIn, now, lib, uuids);
  }

  /** A token minted under one secret is refused under any secret HMAC
      keeps apart from it. */
  lemma JwtWrongSecret(userID: Uuid, tokenSecret: string, otherSecret: string, expiresIn: int,
                       now: Time, later: Time, lib: JwtLibrary, uuids: UuidCodec)
    requires JwtLaws(lib) && HmacKeyLaws(lib)
    requires MakeJWT(userID, tokenSecret, expiresIn, now, lib, uuids).Success?
    requires HmacDistinctKeys(tokenSecret, otherSecret)
    ensures ValidateJWT(MakeJWT(userID, tokenSecret, expiresIn, now, lib, uuids).value,
                        otherSecret, later, lib, uuids) == Failure(TokenNotValid)
  {
    MakeJwtClaims(userID, tokenSecret, expiresIn, now, lib, uuids);
  }

  // ---------------------------------------------------------------------
  // Bearer tokens

  const AuthorizationHeader: string := "Authorization"

  /** The exact, case-sensitive prefix GetBearerToken cuts: "Bearer" and one space. */
  const BearerPrefix: string := "Bearer "

  datatype BearerError = MissingHeader | WrongStructure

  /** GetBearerToken: the Authorization value without its "Bearer " prefix. */
  function GetBearerToken(headers: Header): (r: Result<string, BearerError>)
    ensures r == Failure(MissingHeader) <==> HeaderGet(headers, AuthorizationHeader) == ""
    ensures r == Failure(WrongStructure) <==>
              var v := HeaderGet(headers, AuthorizationHeader);
              v != "" && !(|BearerPrefix| <= |v| && v[..|BearerPrefix|] == BearerPrefix)
    ensures r.Success? ==> BearerPrefix + r.value == HeaderGet(headers, AuthorizationHeader)
  {
    var bearer := HeaderGet(headers, AuthorizationHeader);
    if bearer == "" then Failure(MissingHeader)
    else
      match CutPrefix(bearer, BearerPrefix)
      case None => Failure(WrongStructure)
      case Some(token) => Success(token)
  }

  /** The request headers of a client presenting `Bearer <token>`. */
  function BearerHeader(token: string): Header
  {
    map[AuthorizationHeader := [BearerPrefix + token]]
  }

  /** Every token, the empty one included, comes back out of its header. */
  lemma BearerRoundTrip(token: string)
    ensures GetBearerToken(BearerHeader(token)) == Success(token)
  {
    assert (BearerPrefix + token)[..|BearerPrefix|] == BearerPrefix;
    assert (BearerPrefix + token)[|BearerPrefix|..] == token;
  }

  // ---------------------------------------------------------------------
  // Refresh tokens

  const RefreshTokenBytes: nat := 32

  datatype EntropyError = EntropyFailure

  /** MakeRefreshToken: the 32 bytes crypto/rand delivered (None when the
      read failed) as 64 lowercase hexadecimal digits. */
  method MakeRefreshToken(random: Option<seq<byte>>) returns (r: Result<string, EntropyError>)
    requires random.Some? ==> |random.value| == RefreshTokenBytes
    ensures random.None? <==> r == Failure(EntropyFailure)
    ensures random.Some? ==>
              && r == Success(Hex(random.value))
              && |r.value| == 2 * RefreshTokenBytes && IsLowerHex(r.value)
              && Unhex(r.value) == Some(random.value)
  {
    if random.None? {
      return Failure(EntropyFailure);
    }
    var token := EncodeToString(random.value);
    return Success(token);
  }
}
