/**
 * Token issuing and parsing (utils/token.go). HS256 signing and verification, in
 * the sense of section 3.2 of RFC 7518 as used by RFC 7519 JSON Web Tokens, are not
 * modelled: they are an oracle passed in as a pair of functions, and `SoundOracle`
 * states the one property of it the proofs rely on.
 */
module Token {
  import opened Wrappers
  import opened Models
  import Decimal

  /** The signing key: one constant, used both to sign and to verify. */
  const JwtKey: string := "golangapplication"

  /** How long an issued token is valid, in seconds: 72 hours. */
  const TokenLifetime: int := 72 * 60 * 60

  /** The claims a token carries: the user-ID claim as a string and the Unix-seconds expiry. */
  datatype Claims = Claims(userId: string, exp: int)

  /** What `jwt.Parse` gives back: an error, or the token's claims and its `Valid` flag. */
  datatype Parsed = ParseError(err: string) | Parsed(claims: Claims, valid: bool)

  /** Signing claims under a key (`SignedString`): a token, or an error. */
  type Signer = (string, Claims) -> Result<string, string>

  /** `jwt.Parse` under a key at a given Unix time: checks the signature and the expiry. */
  type Verifier = (string, string, int) -> Parsed

  /**
   * The oracle's contract: a token signed under a key verifies under the same key,
   * giving back its claims, until the expiry second has passed (jwt-go accepts
   * while `now <= exp`), and fails to verify after that.
   */
  ghost predicate SoundOracle(sign: Signer, verify: Verifier) {
    && (forall key, c, now :: sign(key, c).Success? && now <= c.exp ==>
          verify(key, sign(key, c).value, now) == Parsed(c, true))
    && (forall key, c, now :: sign(key, c).Success? && c.exp < now ==>
          verify(key, sign(key, c).value, now).ParseError?)
  }

  /** The claims `GenerateJWT` signs for a user at Unix time `now`. */
  function NewClaims(userId: nat, now: int): (c: Claims)
    ensures Decimal.Canonical(c.userId)
    ensures userId <= MaxUint64 ==> Decimal.ParseUint(c.userId) == Some(userId)
    ensures c.exp - now == 72 * 3600
  {
    Claims(Decimal.FormatUint(userId), now + TokenLifetime)
  }

  /**
   * `GenerateJWT(userID)`, issued at Unix time `now`: the claims of `NewClaims`,
   * signed under the one key; `IssuedTokenParses` is the round trip.
   */
  function GenerateJwt(userId: nat, now: int, sign: Signer): (r: Result<string, string>)
    ensures r == sign(JwtKey, NewClaims(userId, now))
  {
    sign(JwtKey, NewClaims(userId, now))
  }

  /** `ParseJWT`'s two results: the user-ID string and the error, Go style. */
  datatype ParseResult = ParseResult(userId: string, err: Option<string>)

  /**
   * `ParseJWT(token)`: a verification error is passed on with an empty user ID; a
   * valid token gives its user-ID claim unchanged; a token that parsed without error
   * but is not marked valid gives an empty user ID and no error.
   */
  function ParseJwt(token: string, verify: Verifier, now: int): (r: ParseResult)
    ensures r.err.Some? ==> r.userId == ""
    ensures r.err.Some? <==> verify(JwtKey, token, now).ParseError?
    ensures r.userId != "" ==> verify(JwtKey, token, now) == Parsed(Claims(r.userId, verify(JwtKey, token, now).claims.exp), true)
    ensures verify(JwtKey, token, now).Parsed? ==>
      r == ParseResult(if verify(JwtKey, token, now).valid then verify(JwtKey, token, now).claims.userId else "", None)
  {
    match verify(JwtKey, token, now)
    case ParseError(e) => ParseResult("", Some(e))
    case Parsed(c, valid) => if valid then ParseResult(c.userId, None) else ParseResult("", None)
  }

  /**
   * Round trip through the oracle: a token issued for a user parses, under the same
   * key, back to the decimal rendering of that user's ID until it expires.
   */
  lemma IssuedTokenParses(userId: nat, issued: int, now: int, sign: Signer, verify: Verifier, t: string)
    requires SoundOracle(sign, verify)
    requires GenerateJwt(userId, issued, sign) == Success(t)
    requires now <= issued + TokenLifetime
    ensures ParseJwt(t, verify, now) == ParseResult(Decimal.FormatUint(userId), None)
  {
  }

  /** Once 72 hours have passed, the issued token no longer parses. */
  lemma IssuedTokenExpires(userId: nat, issued: int, now: int, sign: Signer, verify: Verifier, t: string)
    requires SoundOracle(sign, verify)
    requires GenerateJwt(userId, issued, sign) == Success(t)
    requires issued + TokenLifetime < now
    ensures ParseJwt(t, verify, now).err.Some?
  {
  }
}
