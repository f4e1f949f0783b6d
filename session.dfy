/** `getUserFromRequest` (auth.ts): the session user named by the `token` cookie. */
module Session {
  import opened Wrappers
  import opened Http
  import opened Jwt

  /** `None` when there is no cookie header or no `token` cookie; otherwise what `verifyToken` makes of the cookie. */
  function GetUserFromRequest(mac: Mac, codec: JsonCodec, r: Request, nowMs: int): (u: Option<Claims>)
    ensures Cookie(r, "token") == "" ==> u == None
    ensures u.Some? ==> !Expired(u.value, nowMs)
  {
    var token := Cookie(r, "token");
    if token == "" then None else VerifyToken(mac, codec, token, nowMs)
  }

  /**
   * A request whose `token` cookie is a token from `generateToken` identifies
   * that user until the token's expiry.
   */
  lemma SessionIdentifiesUser(mac: Mac, codec: JsonCodec, r: Request, user: UserPayload, nowMs1: int, nowMs2: int, nowMs: int)
    requires IsHmac(mac) && IsJson(codec)
    requires Header(r, "cookie") != "" && "token" in r.cookies
    requires r.cookies["token"] == GenerateToken(mac, codec, user, nowMs1, nowMs2)
    requires nowMs <= Issue(user, nowMs1, nowMs2).exp.value * 1000
    ensures GetUserFromRequest(mac, codec, r, nowMs) == Some(Issue(user, nowMs1, nowMs2))
  {
    GenerateTokenShape(mac, codec, user, nowMs1, nowMs2);
    RoundTrip(mac, codec, user, nowMs1, nowMs2, nowMs);
  }
}
