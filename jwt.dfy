/**
 * The session token of auth.ts: a JWS compact serialisation (section 7.1 of
 * RFC 7515) signed with HS256 (section 3.2 of RFC 7518), whose payload is the
 * user's identity plus `iat` and `exp` claims.
 *
 * HMAC-SHA256 under the server secret and JSON text (as UTF-8 bytes) are
 * parameters: `mac` stands for `crypto.subtle.sign` with the imported key,
 * and `crypto.subtle.verify` is equality with what `mac` computes.
 */
module Jwt {
  import opened Wrappers
  import opened Text
  import opened Base64

  /** Seven days in seconds, the token lifetime. */
  const WEEK: nat := 60 * 60 * 24 * 7

  /**
   * The user object handed to `generateToken`: what the token identifies.
   * `avatar` is `None` where the caller's object has no `avatar` property.
   */
  datatype UserPayload = UserPayload(id: int, username: string, email: string, avatar: Option<string>)

  /**
   * The payload object `{...user, iat, exp}`. `exp` is `None` when the parsed
   * object has no numeric `exp`: JavaScript's `undefined < now` is false.
   */
  datatype Claims = Claims(id: int, username: string, email: string, avatar: Option<string>, iat: int, exp: Option<int>)

  /** `JSON.stringify` followed by UTF-8 encoding, and UTF-8 decoding followed by `JSON.parse` (`None` when it throws). */
  datatype JsonCodec = JsonCodec(stringify: Claims -> seq<byte>, parse: seq<byte> -> Option<Claims>)

  /** HMAC-SHA256 under the server secret, over the UTF-8 bytes of its input. */
  type Mac = string -> seq<byte>

  /** HMAC-SHA256 always yields 32 bytes. */
  ghost predicate IsHmac(mac: Mac) {
    forall data :: |mac(data)| == 32
  }

  /** JSON text is never empty, and parsing gives back what was serialised. */
  ghost predicate IsJson(codec: JsonCodec) {
    forall c :: |codec.stringify(c)| > 0 && codec.parse(codec.stringify(c)) == Some(c)
  }

  /** The text of `JSON.stringify({ alg: 'HS256', typ: 'JWT' })`. */
  const HEADER_TEXT: string := "{\"alg\":\"HS256\",\"typ\":\"JWT\"}"

  /** UTF-8 bytes of a string whose characters are all ASCII (`new TextEncoder().encode`). */
  function Ascii(s: string): (b: seq<byte>)
    requires forall i :: 0 <= i < |s| ==> s[i] as int < 128
    ensures |b| == |s| && forall i :: 0 <= i < |s| ==> b[i] == s[i] as int
  {
    seq(|s|, i requires 0 <= i < |s| => s[i] as int)
  }

  /** The encoded header object. */
  const HEADER: seq<byte> := Ascii(HEADER_TEXT)

  /** The claims `generateToken` signs. `Date.now()` is read twice, once for `iat` and once for `exp`. */
  function Issue(user: UserPayload, nowMs1: int, nowMs2: int): (c: Claims)
    ensures c.id == user.id && c.username == user.username && c.email == user.email && c.avatar == user.avatar
    ensures c.exp.Some?
    ensures c.iat * 1000 <= nowMs1 < (c.iat + 1) * 1000
    ensures nowMs2 / 1000 == nowMs1 / 1000 ==> c.exp.value == c.iat + WEEK
    ensures nowMs1 <= nowMs2 ==> c.exp.value >= c.iat + WEEK
  {
    Claims(user.id, user.username, user.email, user.avatar, nowMs1 / 1000, Some(nowMs2 / 1000 + WEEK))
  }

  /** The signing input `H.P` and the signed token `H.P.S`. */
  function Signed(mac: Mac, h: string, p: string): string {
    var data := h + "." + p;
    data + "." + UrlEncode(mac(data))
  }

  /**
   * `generateToken` (auth.ts): the encoded header, the encoded claims and
   * the encoded MAC of the first two joined by `.`, as three `.`-separated segments.
   */
  function GenerateToken(mac: Mac, codec: JsonCodec, user: UserPayload, nowMs1: int, nowMs2: int): (t: string)
    ensures var h, p := UrlEncode(HEADER), UrlEncode(codec.stringify(Issue(user, nowMs1, nowMs2)));
      Split(t, '.') == [h, p, UrlEncode(mac(h + "." + p))]
  {
    var h, p := UrlEncode(HEADER), UrlEncode(codec.stringify(Issue(user, nowMs1, nowMs2)));
    NoDotInSegment(HEADER);
    NoDotInSegment(codec.stringify(Issue(user, nowMs1, nowMs2)));
    SignedShape(mac, h, p);
    Signed(mac, h, p)
  }

  /** `payload.exp < Date.now() / 1000` with the clock in whole milliseconds. */
  predicate Expired(c: Claims, nowMs: int) {
    c.exp.Some? && c.exp.value * 1000 < nowMs
  }

  /**
   * `verifyToken` (auth.ts): `None` for JavaScript's `null`. The header
   * segment is never decoded; it only takes part in the signing input.
   */
  function VerifyToken(mac: Mac, codec: JsonCodec, token: string, nowMs: int): (r: Option<Claims>)
    ensures r.Some? ==> var parts := Split(token, '.');
      |parts| >= 3 && parts[0] != "" && parts[1] != "" && parts[2] != ""
      && UrlDecode(parts[2]) == Some(mac(parts[0] + "." + parts[1]))
      && UrlDecode(parts[1]).Some? && codec.parse(UrlDecode(parts[1]).value) == r
      && !Expired(r.value, nowMs)
  {
    var parts := Split(token, '.');
    if |parts| < 3 || parts[0] == "" || parts[1] == "" || parts[2] == "" then None
    else
      var data := parts[0] + "." + parts[1];
      match UrlDecode(parts[2])
      case None => None
      case Some(signature) =>
        if signature != mac(data) then None
        else
          match UrlDecode(parts[1])
          case None => None
          case Some(payload) =>
            match codec.parse(payload)
            case None => None
            case Some(c) => if Expired(c, nowMs) then None else Some(c)
  }

  /** A token with fewer than two `.` has fewer than three segments and is refused. */
  lemma FewerThanTwoDotsRejected(mac: Mac, codec: JsonCodec, token: string, nowMs: int)
    requires Occurrences(token, '.') < 2
    ensures VerifyToken(mac, codec, token, nowMs) == None
  {
    SplitCount(token, '.');
  }

  /** A token beginning with `.` has an empty header segment and is refused. */
  lemma EmptyHeaderRejected(mac: Mac, codec: JsonCodec, rest: string, nowMs: int)
    ensures VerifyToken(mac, codec, "." + rest, nowMs) == None
  {
    SplitConcat("", '.', rest);
    assert "" + ['.'] + rest == "." + rest;
  }

  /** Splitting `h.p.rest` with `h` and `p` free of `.`: those two segments, then the pieces of `rest`. */
  lemma SplitSegments(h: string, p: string, rest: string)
    requires '.' !in h && '.' !in p
    ensures Split(h + "." + p + "." + rest, '.') == [h, p] + Split(rest, '.')
  {
    SplitConcat(p, '.', rest);
    SplitConcat(h, '.', p + "." + rest);
    assert h + "." + p + "." + rest == h + "." + (p + "." + rest);
  }

  /** Whatever follows a third `.` is ignored: `h.p.s.x` verifies exactly as `h.p.s` does. */
  lemma ExtraSegmentsIgnored(mac: Mac, codec: JsonCodec, h: string, p: string, s: string, x: string, nowMs: int)
    requires '.' !in h && '.' !in p && '.' !in s
    ensures VerifyToken(mac, codec, h + "." + p + "." + s + "." + x, nowMs)
         == VerifyToken(mac, codec, h + "." + p + "." + s, nowMs)
  {
    SplitSegments(h, p, s + "." + x);
    assert h + "." + p + "." + s + "." + x == h + "." + p + "." + (s + "." + x);
    SplitConcat(s, '.', x);
    SplitSegments(h, p, s);
    SplitNoSeparator(s, '.');
  }

  /** Segments written by `b64UrlEncode` hold no `.`. */
  lemma NoDotInSegment(b: seq<byte>)
    ensures '.' !in UrlEncode(b)
    ensures |b| > 0 ==> UrlEncode(b) != ""
  {
    UrlEncodeAlphabet(b);
    var e := UrlEncode(b);
    assert forall i :: 0 <= i < |e| ==> e[i] != '.';
  }

  /** A token signed over `h.p` splits back into `h`, `p` and the encoded signature. */
  lemma SignedShape(mac: Mac, h: string, p: string)
    requires '.' !in h && '.' !in p
    ensures Split(Signed(mac, h, p), '.') == [h, p, UrlEncode(mac(h + "." + p))]
  {
    var s := UrlEncode(mac(h + "." + p));
    NoDotInSegment(mac(h + "." + p));
    SplitSegments(h, p, s);
    SplitNoSeparator(s, '.');
  }

  /** `generateToken` writes three non-empty segments, the third being the MAC of the first two joined by `.`. */
  lemma GenerateTokenShape(mac: Mac, codec: JsonCodec, user: UserPayload, nowMs1: int, nowMs2: int)
    requires IsHmac(mac) && IsJson(codec)
    ensures var h, p := UrlEncode(HEADER), UrlEncode(codec.stringify(Issue(user, nowMs1, nowMs2)));
      var parts := Split(GenerateToken(mac, codec, user, nowMs1, nowMs2), '.');
      parts == [h, p, UrlEncode(mac(h + "." + p))] && h != "" && p != "" && parts[2] != ""
  {
    var payload := codec.stringify(Issue(user, nowMs1, nowMs2));
    var h, p := UrlEncode(HEADER), UrlEncode(payload);
    NoDotInSegment(HEADER);
    NoDotInSegment(payload);
    NoDotInSegment(mac(h + "." + p));
    SignedShape(mac, h, p);
  }

  /**
   * Round trip: a token from `generateToken` verifies, at any instant up to
   * and including its expiry, to the claims it was issued with.
   */
  lemma RoundTrip(mac: Mac, codec: JsonCodec, user: UserPayload, nowMs1: int, nowMs2: int, nowMs: int)
    requires IsHmac(mac) && IsJson(codec)
    requires nowMs <= Issue(user, nowMs1, nowMs2).exp.value * 1000
    ensures VerifyToken(mac, codec, GenerateToken(mac, codec, user, nowMs1, nowMs2), nowMs)
         == Some(Issue(user, nowMs1, nowMs2))
  {
    var c := Issue(user, nowMs1, nowMs2);
    var h, p := UrlEncode(HEADER), UrlEncode(codec.stringify(c));
    GenerateTokenShape(mac, codec, user, nowMs1, nowMs2);
    UrlRoundTrip(mac(h + "." + p));
    UrlRoundTrip(codec.stringify(c));
  }

  /**
   * The identity survives the round trip. The token is still accepted at the
   * instant `exp` itself, where section 4.1.4 of RFC 7519 requires it to be
   * refused.
   */
  lemma AcceptedAtExpiryInstant(mac: Mac, codec: JsonCodec, user: UserPayload, nowMs1: int, nowMs2: int)
    requires IsHmac(mac) && IsJson(codec)
    ensures var c := Issue(user, nowMs1, nowMs2);
      var r := VerifyToken(mac, codec, GenerateToken(mac, codec, user, nowMs1, nowMs2), c.exp.value * 1000);
      r.Some? && r.value.id == user.id && r.value.username == user.username && r.value.email == user.email
      && r.value.avatar == user.avatar
  {
    RoundTrip(mac, codec, user, nowMs1, nowMs2, Issue(user, nowMs1, nowMs2).exp.value * 1000);
  }

  /** After its expiry instant, a token from `generateToken` is refused. */
  lemma ExpiredTokenRejected(mac: Mac, codec: JsonCodec, user: UserPayload, nowMs1: int, nowMs2: int, nowMs: int)
    requires IsHmac(mac) && IsJson(codec)
    requires nowMs > Issue(user, nowMs1, nowMs2).exp.value * 1000
    ensures VerifyToken(mac, codec, GenerateToken(mac, codec, user, nowMs1, nowMs2), nowMs) == None
  {
    var c := Issue(user, nowMs1, nowMs2);
    var h, p := UrlEncode(HEADER), UrlEncode(codec.stringify(c));
    GenerateTokenShape(mac, codec, user, nowMs1, nowMs2);
    UrlRoundTrip(mac(h + "." + p));
    UrlRoundTrip(codec.stringify(c));
  }

  /** A signature segment that is not the encoded MAC of `h.p` is refused, whatever `h` and `p` are. */
  lemma ForgedSignatureRejected(mac: Mac, codec: JsonCodec, h: string, p: string, sig: seq<byte>, nowMs: int)
    requires '.' !in h && '.' !in p
    requires sig != mac(h + "." + p)
    ensures VerifyToken(mac, codec, h + "." + p + "." + UrlEncode(sig), nowMs) == None
  {
    var s := UrlEncode(sig);
    NoDotInSegment(sig);
    SplitSegments(h, p, s);
    SplitNoSeparator(s, '.');
    UrlRoundTrip(sig);
  }

  /** What `verifyToken` makes of a payload segment once the signature has been accepted. */
  function PayloadClaims(codec: JsonCodec, p: string, nowMs: int): Option<Claims> {
    match UrlDecode(p)
    case None => None
    case Some(payload) =>
      match codec.parse(payload)
      case None => None
      case Some(c) => if Expired(c, nowMs) then None else Some(c)
  }

  /** A correctly signed token is judged on its payload segment alone. */
  lemma VerifySigned(mac: Mac, codec: JsonCodec, h: string, p: string, nowMs: int)
    requires IsHmac(mac)
    requires '.' !in h && '.' !in p && h != "" && p != ""
    ensures VerifyToken(mac, codec, Signed(mac, h, p), nowMs) == PayloadClaims(codec, p, nowMs)
  {
    SignedShape(mac, h, p);
    NoDotInSegment(mac(h + "." + p));
    UrlRoundTrip(mac(h + "." + p));
  }

  /**
   * The header segment is never decoded: with the same payload, any two
   * non-empty headers signed under the key verify alike, so `alg` and `typ`
   * are never checked.
   */
  lemma HeaderNeverInspected(mac: Mac, codec: JsonCodec, h1: string, h2: string, p: string, nowMs: int)
    requires IsHmac(mac)
    requires '.' !in h1 && '.' !in h2 && '.' !in p && h1 != "" && h2 != "" && p != ""
    ensures VerifyToken(mac, codec, Signed(mac, h1, p), nowMs) == VerifyToken(mac, codec, Signed(mac, h2, p), nowMs)
  {
    VerifySigned(mac, codec, h1, p, nowMs);
    VerifySigned(mac, codec, h2, p, nowMs);
  }
}
