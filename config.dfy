/** What every service receives besides the store: the configured secrets
    (config.ApiConfig) and the library code outside the model. */
module Config {
  import opened Wrappers
  import opened Common
  import opened Auth

  /** The JWT signing secret and the payment provider's API key. */
  datatype ApiConfig = ApiConfig(jwtSecret: string, paymentKey: string)

  /** uuid, bcrypt, golang-jwt, and auth.GetApiKey (the key a request
      presents, None when it presents none). */
  datatype Platform = Platform(
    uuids: UuidCodec,
    bcrypt: Bcrypt,
    jwt: JwtLibrary,
    getApiKey: Header -> Option<string>)

  ghost predicate PlatformLaws(p: Platform)
  {
    UuidLaws(p.uuids) && BcryptLaws(p.bcrypt) && JwtLaws(p.jwt)
  }
}
