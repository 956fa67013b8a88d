# SNserver core in Dafny

SNserver is a small social-network HTTP server written in Go. Users register with an
email and a password. They log in for a one-hour access token (a JWT) and a
1440-hour refresh token. They post short messages of at most 140 bytes, which pass
through a profanity filter. They read message listings in ascending or descending
order of creation time, and they delete their own messages. A payment provider's
webhook marks users premium.

This project models the part of the server that decides things:

- the credential helpers: the password policy, bearer-header extraction, the hex
  refresh token, and the JWT claim set and its validation;
- the `refresh_tokens` table and its life cycle;
- the `messages` table;
- the email recogniser;
- the message text pipeline (length gate and profanity filter);
- the services and older handlers built on those, with the status code each
  outcome gets.

Modules, one per source file or concept:

- `Wrappers`: `Option` and `Result`.
- `Common`: UUIDs, bytes, the integer clock, HTTP status codes and headers.
- `Text`: `strings.Split`/`Join`/`ToLower`/`CutPrefix` and UTF-8 byte length.
- `HexEncoding`: `hex.EncodeToString` and a decoder used to prove it injective.
- `Auth`: `internal/auth/auth.go`.
- `Sorting`: the in-place sort behind `sort.Slice` and `ORDER BY`.
- `Database`: the store. Its `Queries` class holds the users, messages and
  refresh-token tables. Its methods are the generated queries.
- `TokenLifecycle`: refresh-token histories.
- `Config`, `Models`: configuration and request/response records.
- `UserService`, `TokenService`, `MessageService`, `PaymentService`: the four
  services.
- `Handlers`: `handlers.go`. Its `validateMessageText` and `profanityFix`
  (handlers.go:187-211) are copies of the message service's
  (internal/services/messageService.go:145-169). `MessageService.ValidateMessageText`
  and `MessageService.ProfanityFix` model both copies.

The model works as follows:

- Strings are sequences of code points. A Go `len` on a string is modelled by
  `Text.ByteLength`, the UTF-8 length.
- Time is an integer clock passed in as `now`. `CURRENT_TIMESTAMP` and `time.Now`
  both read it.
- Values the server draws at random are parameters: a new row's id and the 32
  refresh-token bytes, which are `None` when `crypto/rand` fails.
- A store failure is modelled by `Queries.online`. When it is false every query
  fails and nothing changes.
- Library code is passed in as functions in a `Config.Platform`:
  - `uuid.Parse`/`String`;
  - bcrypt;
  - golang-jwt signing, parsing and signature checking;
  - `auth.GetApiKey`.

  The facts the model relies on about them are stated as predicates
  (`UuidLaws`, `BcryptLaws`, `JwtLaws`, `HmacKeyLaws`). Only the lemmas that need those facts
  require them.

## Model

| member | source | states |
|---|---|---|
| Auth.CheckPassword | internal/auth/auth.go:35-49 | TooShort exactly when the password has fewer than 4 code points (not bytes); TooFewDigits exactly when it is long enough but has fewer than 2 digits; accepted exactly when both bounds hold |
| Auth.DigitCountIsPositions | internal/auth/auth.go:39-44 | the digit count is the number of positions holding a digit |
| Auth.HashPassword | internal/auth/auth.go:22-29 | a password failing the policy gives the policy error and bcrypt is not consulted; otherwise the result is bcrypt's hash or its failure, and a returned hash matches the password |
| Auth.MakeJwtClaims | internal/auth/auth.go:51-63 | a minted token parses back to HS256 with issuer "SNserver", issued-at now, expiry now + expiresIn and subject the user id's string form, and verifies under the secret |
| Auth.ValidateJWT | internal/auth/auth.go:65-87 | success exactly when the token parses, names an HMAC method, verifies under the secret, passes the time checks and has a subject that parses as a UUID; the result is that UUID |
| Auth.JwtRoundTrip | internal/auth/auth.go:51-87 | a token from MakeJWT validates, before its expiry, to the user id it was made for |
| Auth.JwtExpires | internal/auth/auth.go:55-75 | from now + expiresIn on, a minted token is refused |
| Auth.JwtWrongSecret | internal/auth/auth.go:66-75 | a token minted under one secret is refused under any secret HMAC keeps apart from it: both keys at most 64 bytes, and different once trailing NUL bytes are dropped |
| Auth.GetBearerToken | internal/auth/auth.go:89-99 | an empty or absent Authorization header is MissingHeader; a value not starting with exactly "Bearer " is WrongStructure; otherwise the token is the value with that prefix cut |
| Auth.BearerRoundTrip | internal/auth/auth.go:89-99 | "Bearer " + t gives back t, for every t including the empty one |
| Auth.MakeRefreshToken | internal/auth/auth.go:101-109 | an entropy failure is an error; otherwise the token is the hex encoding of the 32 bytes: 64 lowercase hex digits that decode to them |
| HexEncoding.EncodeToString | internal/auth/auth.go:107 | the loop's result is the hex encoding of the input: twice as many characters as bytes, all in 0-9a-f, decoding back to the input |
| HexEncoding.HexLength | internal/auth/auth.go:107 | the encoding of n bytes is 2n lowercase hex digits |
| HexEncoding.UnhexHex | internal/auth/auth.go:107 | decoding the encoding gives the bytes back |
| HexEncoding.HexInjective | internal/auth/auth.go:107 | distinct byte strings give distinct refresh tokens |
| Text.CutPrefix | internal/auth/auth.go:94 | present exactly when s starts with the prefix, and then prefix + result == s |
| Text.SplitShape | internal/services/messageService.go:161 | splitting on " " gives one piece more than there are spaces, none holding a space |
| Text.JoinSplit | internal/services/messageService.go:161-168 | joining the pieces with " " gives the string back |
| Text.SplitJoin | internal/services/messageService.go:168 | splitting a join of space-free pieces gives the pieces back |
| Text.SplitLower | internal/services/messageService.go:161-162 | the pieces of the lower-cased message are the lower-cased pieces, so both splits line up index by index |
| Text.ByteLengthBounds | internal/services/messageService.go:147 | a string has between one and four bytes per code point, exactly one for ASCII |
| Text.ByteLengthAppend | internal/services/messageService.go:147 | byte length adds up over concatenation |
| Sorting.SortBy | internal/services/messageService.go:65-73 | the array ends sorted by the key in the requested direction and is a permutation of what it held |
| Database.Queries.CreateRefreshToken | internal/database/refresh_tokens.sql.go:15-34 | inserts one row with the given token, owner and expiry and revoked_at null; fails, changing nothing, on a store failure, an existing token or an owner that is not a user; a success is the Issued step of the token history |
| Database.Queries.GetUserFromRefreshToken | internal/database/refresh_tokens.sql.go:36-46 | the owner exactly when a row with that token has expires_at > now and revoked_at null |
| Database.Queries.RevokeRefreshToken | internal/database/refresh_tokens.sql.go:48-57 | stamps revoked_at on the row with that token, even an already revoked one; no such row is not an error; the other tables are unchanged; a success is the Revoked step of the token history |
| Database.RevokeTouchesOnlyItsRow | internal/database/refresh_tokens.sql.go:48-57 | revoking keeps the same token values, leaves every other row as it was, keeps owner and expiry, and leaves the token unusable at every time |
| Database.ExpiryIsStrict | internal/database/refresh_tokens.sql.go:38 | a row whose expires_at equals now is not usable |
| Database.UsableEarlier | internal/database/refresh_tokens.sql.go:38 | a row usable now was usable at every earlier time, with the same owner |
| TokenLifecycle.ApplyKeepsRows | internal/database/refresh_tokens.sql.go:15-57 | no successful write removes a row, changes its owner or expiry, or clears revoked_at |
| TokenLifecycle.OnceRevokedNeverUsable | internal/database/refresh_tokens.sql.go:38-57 | after any sequence of later inserts and revokes, a revoked token is still revoked, has the same owner and is never usable |
| TokenLifecycle.OnceExpiredNeverUsable | internal/database/refresh_tokens.sql.go:15-38 | after any sequence of later writes, an expired token stays unusable |
| TokenLifecycle.IssuedIsUsable | internal/database/refresh_tokens.sql.go:15-38 | a freshly inserted token is usable by its owner until its expiry |
| Database.Queries.CreateMessage | internal/database/messages.sql.go:14-41 | appends exactly one row with the fresh id, the body, the user id and created_at = updated_at = now, and returns it; fails, changing nothing, on a store failure or a taken id |
| Database.Queries.DeleteMessage | internal/database/messages.sql.go:43-59 | removes the row only when both id and user_id match and returns the id; otherwise there is no row and the table is unchanged |
| Database.RemoveOwned | internal/database/messages.sql.go:44-45 | the remaining rows are exactly those not matching both id and user_id |
| Database.RemoveOwnedKeepsUnique | internal/database/messages.sql.go:43-59 | deleting keeps message ids unique |
| Database.Queries.GetAllMessages | internal/database/messages.sql.go:61-93 | a permutation of all rows ordered by created_at ascending; no rows on a store failure |
| Database.Ordered | internal/database/messages.sql.go:61-64 | the rows in ascending created_at order, as a permutation |
| Database.Queries.GetMessage | internal/database/messages.sql.go:95-111 | a row with the given id exactly when one exists and the store works |
| Database.FindMessage | internal/database/messages.sql.go:95-98 | finds a row with that id exactly when one is present |
| Database.Queries.GetAllMessagesForAuthor | internal/services/messageService.go:52 | a permutation of the author's rows by created_at ascending |
| Database.ByAuthor | internal/services/messageService.go:52 | exactly the rows whose user_id is the author |
| Database.Queries.CreateUser | internal/services/userService.go:31 | appends a non-premium user with the given email and hash; fails on a store failure, a taken id or a taken email |
| Database.Queries.GetUserByEmail | internal/services/userService.go:49 | a user with that email, or none when no user has it or the store fails |
| Database.FindUserByEmail | internal/services/userService.go:49 | a user with that email, or none exactly when no user has it |
| Database.FindUserByEmailUnique | internal/services/userService.go:49-55 | with unique emails, the lookup returns the one user holding the email |
| Database.Queries.UpdateUser | internal/services/userService.go:101 | sets email and hash of the user with that id; fails on an unknown id or an email another user holds |
| Database.UpdateCredentialsKeepsUsers | internal/services/userService.go:101 | an update to an email no other user holds keeps ids and emails unique, keeps every id, premium flag and creation time, and afterwards the lookup by the new email finds that user with the new hash |
| Database.Queries.UpgradeToPremium | internal/services/paymentService.go:38 | marks the user with that id premium; an unknown id is not an error |
| UserService.IndexOf | internal/services/userService.go:111 | the first position of the character, or none exactly when it is absent |
| UserService.LastIndexOf | internal/services/userService.go:111 | the last position of the character, or none exactly when it is absent |
| UserService.ValidateEmailCorrect | internal/services/userService.go:110-113 | the recogniser accepts exactly the strings L@D.T with L over [A-Za-z0-9._%+-], D over [A-Za-z0-9.-], both non-empty, and T two or more ASCII letters |
| UserService.ValidEmailHasOneAt | internal/services/userService.go:110-113 | an accepted address holds exactly one '@' |
| UserService.CreateUser | internal/services/userService.go:20-37 | a weak password or hashing failure is 500 whatever the email; 400 exactly when the password is hashed and the email is bad; then a failed insert is 500; 201 exactly when all pass, with the stored row whose hash matches the password |
| UserService.LoginUser | internal/services/userService.go:44-79 | 400 exactly for a bad email, before the store is consulted; 500 for an unknown email; 401 exactly for a known email with a wrong password; 200 exactly when, in addition, the access token is signed, the random bytes arrive and their hex form is not a stored token; every other case is 500 and stores nothing; on 200, an access token for the user and a new usable refresh row owned by the user expiring at now + 1440h, both of which validate to the user |
| UserService.UpdateUser | internal/services/userService.go:81-108 | 401 exactly for a bad header or JWT, before email and password are looked at; then 400 exactly for a bad email; 200 exactly when the password passes the policy, bcrypt hashes it, the store works, the JWT's subject is a user and no other user holds the email; every other case is 500; on 200 only the subject's row gets the new email and hash |
| TokenService.RefreshAccessToken | internal/services/tokenService.go:18-37 | 400 for a bad bearer header; 401 and no token for an unknown, expired or revoked refresh token; 500 when signing fails; otherwise 200 with a one-hour access token for the row's owner; the store is only read |
| TokenService.RefreshedTokenNamesOwner | internal/services/tokenService.go:25-35 | a refreshed access token validates, during its hour, to the owner of the refresh token |
| TokenService.RefreshIsRepeatable | internal/services/tokenService.go:18-37 | no rotation: a refresh that succeeded succeeds again at any later time before the row's expiry |
| TokenService.RevokeRefreshToken | internal/services/tokenService.go:39-49 | 400 for a bad bearer header with the table untouched; 400 on a store failure; otherwise 204, even for a token that never existed, with that row stamped revoked |
| TokenService.RevokeThenRefresh | internal/services/tokenService.go:25-28 | a refresh after a revoke answered 204 is answered 401 |
| MessageService.ProfanityFix | internal/services/messageService.go:155-169 | the result is the censored message |
| MessageService.MaskProfane | internal/services/messageService.go:163-167 | in place, each piece whose lower-cased twin is profane becomes "****" and every other piece is kept |
| MessageService.CensoredPieces | internal/services/messageService.go:155-169 | the censored message has as many space-separated pieces as the original, empty ones included; a piece becomes "****" exactly when its lower-case form is kerfuffle, sharbert or fornax, and otherwise keeps its text and case |
| MessageService.CensoredIsClean | internal/services/messageService.go:155-169 | no piece of a censored message is a profane word in any case |
| MessageService.CensorIdempotent | internal/services/messageService.go:155-169 | censoring twice is censoring once |
| MessageService.CleanMessageUnchanged | internal/services/messageService.go:155-169 | a message with no profane piece, such as one where the word carries punctuation, is returned unchanged |
| MessageService.CensorShortens | internal/services/messageService.go:145-169 | censoring never adds bytes |
| MessageService.ValidateMessageText | internal/services/messageService.go:145-152 | more than 140 bytes is refused with the message unchanged; otherwise accepted and replaced by its censored form, which is at most 140 bytes too |
| MessageService.ResponsesPermutation | internal/services/messageService.go:60-63 | converting two arrangements of the same rows gives two arrangements of the same responses |
| MessageService.GetMessage | internal/services/messageService.go:21-38 | 400 for an empty id, 500 for one that is not a UUID, 404 when no row has it or the store fails, otherwise 200 with that row |
| MessageService.GetMessageFindsStored | internal/services/messageService.go:21-38 | every stored message is found under its id's string form |
| MessageService.GetAllMessages | internal/services/messageService.go:40-78 | 400 for an author id that is not a UUID before any fetch; 404 on a store failure; 400 and no result for an order other than "asc", "" or "desc"; otherwise 200 with a permutation of the rows, or of the author's rows, sorted by creation time in that direction |
| MessageService.CreateMessage | internal/services/messageService.go:80-114 | 400 for a bad header, 401 for a bad JWT, 500 when the user check fails, 400 for a user that does not exist or a body over 140 bytes, 500 when the insert fails; on 201 exactly one row is added, holding the censored body under the JWT's subject |
| MessageService.DeletedIsGone | internal/database/messages.sql.go:43-46 | with unique ids, after an owner's delete no message has that id |
| MessageService.DeleteMessage | internal/services/messageService.go:116-143 | 401 for a bad header or JWT, then 400 for a bad UUID, then 404 for an absent message, then 403 when the caller does not own it; on 204 the message is gone and every other message is kept |
| PaymentService.UpgradeToPremium | internal/services/paymentService.go:17-44 | 401 when the API key is missing or not the configured one, whatever the event; 204 and nobody upgraded for another event; 404 for a user id that is not a UUID, without touching the store; 500 on a store failure; otherwise 204 with that user marked premium and no other user changed |
| PaymentService.MarkPremiumIdempotent | internal/services/paymentService.go:38 | a webhook delivered twice has the effect of one |
| Handlers.EmailIsCorrect | handlers.go:92-95 | accepts exactly the strings validateEmail accepts |
| Handlers.ValidateMessageRequest | handlers.go:177-185 | an empty body is reported before a nil user id; accepted exactly when both are present |
| Handlers.CreateUser | handlers.go:97-122 | 400 exactly for an invalid email; for a valid one, 201 with the stored row when the insert succeeds and 500 otherwise |
| Handlers.CreateMessage | handlers.go:130-175 | 500 when the user check fails; a user that does not exist is 400 before the request is validated; then 400 for an empty body, a nil id or a body over 140 bytes; then 500 when the insert fails; on 201 the row holds the censored body under the request's user id |
| Handlers.GetMessages | handlers.go:213-222 | 500 on a store failure; otherwise 200 with all rows by created_at ascending |
| Handlers.GetMessage | handlers.go:224-244 | 400 for an empty id and 500 for one that is not a UUID; a missing message is 500 too; otherwise 200 with that row |
| Handlers.GetMessageAgreesWithService | handlers.go:224-244 | the handler and the service succeed on the same requests with the same message; they differ only in answering a missing message with 500 instead of 404 |

## Left out

- HTTP plumbing: the router, `respondWithError`, `respondWithJson`, `handleHealthz` and JSON decoding. These are I/O. The services are modelled by their own signatures. The router calls some of them with other names and arities.
- The admin endpoints `middlewareMetrics`, `serveMetrics` and `resetApp`, the atomic hit counter, and `UserService.DeleteUsers`. These are concurrency and admin plumbing.
- Cryptography is not modelled, only the laws above. Consequences:
  - HMAC is treated as unforgeable between keys it keeps apart (`HmacKeyLaws`).
  - bcrypt is an abstract hash. Its 72-byte input limit and its cost are not modelled.
  - The bytes from `crypto/rand` are a parameter.
- golang-jwt's own checks beyond expiry and not-before are not modelled: issued-at, audience, and malformed numeric dates all fold into the abstract `parse`.
- The "subject is unknown" branch of ValidateJWT is not modelled. `GetSubject` on registered claims cannot fail, so a missing subject reaches `uuid.Parse` as "" and fails there.
- Auth.MakeJWT reads the clock twice in Go, for issued-at and for the expiry. The model reads it once.
- `uuid.Parse`, `UUID.String` and `auth.GetApiKey` are abstract: `auth.GetApiKey` is not defined in the auth file shown, and the uuid functions are library code.
- The users-table queries are not part of this model's sources: CreateUser, GetUserByEmail, UpdateUser, UpgradeToPremium, CheckUserExists and GetAllMessagesForAuthor. They are modelled with the evident semantics of their names and of the schema: unique id and email, and a foreign key from refresh tokens to users.
- Auth.JwtWrongSecret: holds only for secrets that HMAC-SHA256 keeps apart, that is both at most 64 bytes and different once trailing NUL bytes are dropped. HMAC zero-pads a key to 64 bytes and replaces a longer key by its SHA-256 digest, so some distinct secrets sign alike (`Auth.PaddedKeysAlike`). The model does not define which longer keys collide with a digest.
- Handlers.CreateUser: handlers.go calls the users insert with the email alone. The model stores an empty password hash.
- Unicode: `unicode.IsDigit` and `strings.ToLower` are ASCII-only in the model. In Go, non-ASCII digits count toward the password policy, and characters such as the Kelvin sign lower-case to ASCII letters. Invalid UTF-8 is not modelled, because strings are sequences of code points.
- Header keys are matched exactly. Go canonicalises them.
- The order of messages with equal creation times is not specified, just as `sort.Slice` is not stable.
- Concurrent requests, such as a refresh racing a revoke, are not modelled.
- `validateMessageText` writes through a `*string`. The model returns the new string instead.
