/**
 * The auth gate in front of every `/api` subroute (middlewares/auth.go): four
 * checks in a fixed order, each rejecting with 401 and its own message, and
 * otherwise a forward to the next handler carrying the parsed user ID.
 */
module Middleware {
  import opened Wrappers
  import opened Models
  import Decimal
  import Token

  const BearerPrefix := "Bearer "
  const MsgHeaderRequired := "Authorization header is required"
  const MsgBearerRequired := "Bearer token required"
  const MsgInvalidToken := "Invalid token"
  const MsgInvalidUserId := "Invalid user ID in token"

  /** The gate's verdict: a 401 with a message, or the next handler run as `userId`. */
  datatype Decision = Reject(message: string) | Forward(userId: nat)

  /** `http.Header.Get` for one header: its first value, "" when it is absent. */
  function HeaderGet(values: seq<string>): string {
    if values == [] then "" else values[0]
  }

  /** `strings.TrimPrefix`: drop one leading `prefix`, if there is one. */
  function TrimPrefix(s: string, prefix: string): string {
    if prefix <= s then s[|prefix|..] else s
  }

  /** Checks three and four: the token verifies, and its user-ID claim is a base-10 `uint64`. */
  function CheckToken(token: string, verify: Token.Verifier, now: int): (d: Decision)
    ensures Token.ParseJwt(token, verify, now).err.Some? ==> d == Reject(MsgInvalidToken)
    ensures Token.ParseJwt(token, verify, now).err.None? ==>
      var claim := Token.ParseJwt(token, verify, now).userId;
      if |claim| > 0 && Decimal.AllDigits(claim) && Decimal.Value(claim) <= MaxUint64
      then d == Forward(Decimal.Value(claim))
      else d == Reject(MsgInvalidUserId)
  {
    var parsed := Token.ParseJwt(token, verify, now);
    if parsed.err.Some? then Reject(MsgInvalidToken)
    else
      match Decimal.ParseUint(parsed.userId)
      case None => Reject(MsgInvalidUserId)
      case Some(id) => Forward(id)
  }

  /** `AuthMiddleware` on a request whose `Authorization` header has the given values. */
  function Authenticate(authValues: seq<string>, verify: Token.Verifier, now: int): (d: Decision)
    ensures HeaderGet(authValues) == "" ==> d == Reject(MsgHeaderRequired)
    ensures HeaderGet(authValues) != "" && !(BearerPrefix <= HeaderGet(authValues)) ==>
      d == Reject(MsgBearerRequired)
    ensures BearerPrefix <= HeaderGet(authValues) ==>
      d == CheckToken(HeaderGet(authValues)[|BearerPrefix|..], verify, now)
    ensures d.Forward? ==> d.userId <= MaxUint64
  {
    var header := HeaderGet(authValues);
    if header == "" then Reject(MsgHeaderRequired)
    else
      var token := TrimPrefix(header, BearerPrefix);
      assert BearerPrefix <= header ==> |token| < |header|;
      if token == header then Reject(MsgBearerRequired)
      else CheckToken(token, verify, now)
  }

  /** A request is forwarded as `u` exactly when all four checks pass and the claim parses to `u`. */
  lemma ForwardedExactly(authValues: seq<string>, verify: Token.Verifier, now: int, u: nat)
    ensures Authenticate(authValues, verify, now) == Forward(u) <==>
      var header := HeaderGet(authValues);
      && BearerPrefix <= header
      && Token.ParseJwt(header[|BearerPrefix|..], verify, now).err.None?
      && Decimal.ParseUint(Token.ParseJwt(header[|BearerPrefix|..], verify, now).userId) == Some(u)
  {
  }

  /** The prefix is matched case-sensitively: `bearer ` is not `Bearer `. */
  lemma LowerCaseBearerRejected(t: string, verify: Token.Verifier, now: int)
    ensures Authenticate(["bearer " + t], verify, now) == Reject(MsgBearerRequired)
  {
  }

  /** A header of exactly `Bearer ` passes the prefix check and hands an empty token on. */
  lemma BareBearerChecksEmptyToken(verify: Token.Verifier, now: int)
    ensures Authenticate([BearerPrefix], verify, now) == CheckToken("", verify, now)
  {
  }

  /** Only one prefix is stripped: `Bearer Bearer t` verifies the token `Bearer t`. */
  lemma PrefixStrippedOnce(t: string, verify: Token.Verifier, now: int)
    ensures Authenticate([BearerPrefix + BearerPrefix + t], verify, now) ==
            CheckToken(BearerPrefix + t, verify, now)
  {
    var h := BearerPrefix + BearerPrefix + t;
    assert BearerPrefix <= h;
    assert h[|BearerPrefix|..] == BearerPrefix + t;
  }

  /** A token that parses without error but is not valid gives an empty claim, rejected as a bad user ID. */
  lemma UnmarkedTokenBadUserId(token: string, verify: Token.Verifier, now: int)
    requires verify(Token.JwtKey, token, now).Parsed? && !verify(Token.JwtKey, token, now).valid
    ensures CheckToken(token, verify, now) == Reject(MsgInvalidUserId)
  {
  }

  /**
   * End to end: a token `GenerateJWT` issued for a user, sent as `Bearer <token>`
   * before it expires, is forwarded with that user's ID.
   */
  lemma IssuedTokenAuthenticates(userId: nat, issued: int, now: int,
                                 sign: Token.Signer, verify: Token.Verifier, t: string)
    requires Token.SoundOracle(sign, verify)
    requires Token.GenerateJwt(userId, issued, sign) == Success(t)
    requires now <= issued + Token.TokenLifetime
    requires userId <= MaxUint64
    ensures Authenticate([BearerPrefix + t], verify, now) == Forward(userId)
  {
  }

  /** After 72 hours the same header is rejected as an invalid token. */
  lemma ExpiredTokenRejected(userId: nat, issued: int, now: int,
                             sign: Token.Signer, verify: Token.Verifier, t: string)
    requires Token.SoundOracle(sign, verify)
    requires Token.GenerateJwt(userId, issued, sign) == Success(t)
    requires issued + Token.TokenLifetime < now
    ensures Authenticate([BearerPrefix + t], verify, now) == Reject(MsgInvalidToken)
  {
  }
}
