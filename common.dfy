/** Values shared by every layer: identifiers, bytes, the clock, HTTP status
    codes, request headers and the UUID library seen from outside. */
module Common {
  import opened Wrappers

  /** A 128-bit UUID, as github.com/google/uuid stores it. */
  newtype Uuid = x: int | 0 <= x < 0x1_0000_0000_0000_0000_0000_0000_0000_0000

  /** uuid.Nil, the all-zero UUID. */
  const Nil: Uuid := 0

  newtype byte = x: int | 0 <= x < 256

  /** Instants and durations are whole seconds on an integer clock that the
      caller passes in (time.Now and CURRENT_TIMESTAMP). */
  type Time = int

  const Hour: int := 3600

  // net/http status codes used by the services and handlers.
  const StatusOK: int := 200
  const StatusCreated: int := 201
  const StatusNoContent: int := 204
  const StatusBadRequest: int := 400
  const StatusUnauthorized: int := 401
  const StatusForbidden: int := 403
  const StatusNotFound: int := 404
  const StatusInternalServerError: int := 500

  /** http.Header after canonicalisation: canonical key to its values. */
  type Header = map<string, seq<string>>

  /** http.Header.Get: the first value under the key, or "" when there is none. */
  function HeaderGet(h: Header, key: string): (v: string)
    ensures key !in h || h[key] == [] ==> v == ""
    ensures key in h && h[key] != [] ==> v == h[key][0]
  {
    if key in h && |h[key]| > 0 then h[key][0] else ""
  }

  /** uuid.Parse and UUID.String, which are library code outside the model. */
  datatype UuidCodec = UuidCodec(parse: string -> Option<Uuid>, format: Uuid -> string)

  /** What the model relies on: the string form of a UUID parses back to it,
      and the empty string is not a UUID. */
  ghost predicate UuidLaws(c: UuidCodec)
  {
    && (forall u: Uuid :: c.parse(c.format(u)) == Some(u))
    && c.parse("") == None
  }
}
