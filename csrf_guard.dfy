/**
 * The server side of the CSRF double-submit check in auth.ts: token
 * generation, the candidate-token lookups, and the two validators
 * `validateCsrfForRequest` and `validateCsrfMiddleware`, which decide
 * differently.
 */
module CsrfGuard {
  import opened Wrappers
  import opened Text
  import opened Base64
  import opened Http

  /** Lower-case hexadecimal digit of `d`. */
  function HexDigit(d: int): (c: char)
    requires 0 <= d < 16
    ensures HexValue(c) == d
  {
    if d < 10 then ('0' as int + d) as char else ('a' as int + d - 10) as char
  }

  /** Value of a lower-case hexadecimal digit, or -1. */
  function HexValue(c: char): int {
    if '0' <= c <= '9' then c as int - '0' as int
    else if 'a' <= c <= 'f' then c as int - 'a' as int + 10
    else -1
  }

  predicate IsHex(c: char) {
    0 <= HexValue(c) < 16
  }

  /** `Buffer#toString('hex')`: two lower-case digits per byte, high nibble first. */
  function HexEncode(b: seq<byte>): (s: string)
    ensures |s| == 2 * |b|
    ensures forall i :: 0 <= i < |s| ==> IsHex(s[i])
  {
    if |b| == 0 then "" else [HexDigit(b[0] / 16), HexDigit(b[0] % 16)] + HexEncode(b[1..])
  }

  /** Reads pairs of hexadecimal digits back into bytes. */
  function HexDecode(s: string): Option<seq<byte>>
    decreases |s|
  {
    if |s| == 0 then Some([])
    else if |s| == 1 || !IsHex(s[0]) || !IsHex(s[1]) then None
    else match HexDecode(s[2..])
      case None => None
      case Some(rest) => Some([HexValue(s[0]) * 16 + HexValue(s[1])] + rest)
  }

  lemma {:induction false} HexRoundTrip(b: seq<byte>)
    ensures HexDecode(HexEncode(b)) == Some(b)
    decreases |b|
  {
    if |b| > 0 {
      var s := HexEncode(b);
      assert s[2..] == HexEncode(b[1..]);
      HexRoundTrip(b[1..]);
      assert [b[0]] + b[1..] == b;
    }
  }

  /** `generateCsrfToken`: 32 random bytes as 64 lower-case hexadecimal digits. */
  function GenerateCsrfToken(random: seq<byte>): (t: string)
    requires |random| == 32
    ensures |t| == 64 && forall i :: 0 <= i < |t| ==> IsHex(t[i])
    ensures HexDecode(t) == Some(random)
  {
    HexRoundTrip(random);
    HexEncode(random)
  }

  /** Methods the validators guard. */
  const MUTATING: set<string> := {"POST", "PUT", "PATCH", "DELETE"}

  /** `skipCsrfPaths`: login and registration are never checked. */
  predicate Skipped(path: string) {
    StartsWith(path, "/api/auth/login") || StartsWith(path, "/api/auth/register")
  }

  /** A request both validators check: a mutating method on a path outside the skip list. */
  predicate Guarded(r: Request) {
    r.verb in MUTATING && !Skipped(r.path)
  }

  /** `getCsrfTokenFromRequest`: the `x-csrf-token` header, else the `csrf_token` cookie itself. */
  function FromRequest(r: Request): (t: string)
    ensures Header(r, "x-csrf-token") != "" ==> t == Header(r, "x-csrf-token")
    ensures Header(r, "x-csrf-token") == "" ==> t == Cookie(r, "csrf_token")
  {
    var header := Header(r, "x-csrf-token");
    if header != "" then header
    else
      var cookieHeader := Header(r, "cookie");
      if cookieHeader != "" && "csrf_token" in r.cookies && r.cookies["csrf_token"] != "" then r.cookies["csrf_token"]
      else ""
  }

  /** `getCsrfTokenFromBody`: the body's `csrf_token`, looked at only for JSON requests. */
  function FromBody(r: Request): (t: string)
    ensures !IsJsonRequest(r) ==> t == ""
    ensures t != "" ==> t == r.bodyCsrf
  {
    var contentType := Header(r, "content-type");
    if Contains(contentType, "application/json") then r.bodyCsrf else ""
  }

  /**
   * `validateCsrfToken`: the candidate must be non-empty and equal to the
   * `csrf_token` cookie. The length test before `timingSafeEqual` never
   * changes the answer.
   */
  function ValidateCsrfToken(r: Request, provided: string): (ok: bool)
    ensures ok <==> provided != "" && provided == Cookie(r, "csrf_token")
  {
    if provided == "" then false
    else if Header(r, "cookie") == "" then false
    else
      var session := if "csrf_token" in r.cookies then r.cookies["csrf_token"] else "";
      if session == "" then false
      else if |provided| != |session| then false
      else provided == session
  }

  /** `{ valid, error? }`. */
  datatype Verdict = Valid | Invalid(error: string)

  const REQUIRED := "CSRF token is required"
  const INVALID := "Invalid CSRF token"

  /**
   * `validateCsrfForRequest`. A guarded request passes exactly when the
   * `csrf_token` cookie is present and the header is absent or equal to it:
   * with no header, the cookie is compared with itself, and the body token
   * is consulted only when there is no cookie to compare it with.
   */
  function ValidateCsrfForRequest(r: Request): (v: Verdict)
    ensures v == Valid <==>
      !Guarded(r) || (Cookie(r, "csrf_token") != "" && Header(r, "x-csrf-token") in {"", Cookie(r, "csrf_token")})
    ensures v == Invalid(REQUIRED) <==>
      Guarded(r) && Header(r, "x-csrf-token") == "" && Cookie(r, "csrf_token") == "" && FromBody(r) == ""
    ensures v.Invalid? ==> v.error in {REQUIRED, INVALID}
  {
    if r.verb !in MUTATING then Valid
    else if Skipped(r.path) then Valid
    else
      var token := FromRequest(r);
      var token := if token == "" then FromBody(r) else token;
      if token == "" then Invalid(REQUIRED)
      else if !ValidateCsrfToken(r, token) then Invalid(INVALID)
      else Valid
  }

  /**
   * `validateCsrfMiddleware`, the check the server hook runs. JSON requests
   * always pass; the others pass under the same rule as
   * `validateCsrfForRequest`, and a failure always reads "Invalid CSRF token".
   */
  function ValidateCsrfMiddleware(r: Request): (v: Verdict)
    ensures v == Valid <==>
      !Guarded(r) || IsJsonRequest(r)
      || (Cookie(r, "csrf_token") != "" && Header(r, "x-csrf-token") in {"", Cookie(r, "csrf_token")})
    ensures v.Invalid? ==> v.error == INVALID
  {
    if r.verb !in MUTATING then Valid
    else if Skipped(r.path) then Valid
    else if !IsJsonRequest(r) && (FromRequest(r) == "" || !ValidateCsrfToken(r, FromRequest(r))) then Invalid(INVALID)
    else Valid
  }

  /** Whatever `validateCsrfForRequest` accepts, the middleware accepts; on non-JSON requests they agree. */
  lemma ForRequestImpliesMiddleware(r: Request)
    ensures ValidateCsrfForRequest(r) == Valid ==> ValidateCsrfMiddleware(r) == Valid
    ensures !IsJsonRequest(r) ==> (ValidateCsrfForRequest(r) == Valid <==> ValidateCsrfMiddleware(r) == Valid)
  {
  }

  /** A request carrying the `csrf_token` cookie and no `x-csrf-token` header passes both validators, whatever it is. */
  lemma CookieAlonePasses(r: Request)
    requires Header(r, "cookie") != "" && "csrf_token" in r.cookies && r.cookies["csrf_token"] != ""
    requires "x-csrf-token" !in r.headers
    ensures ValidateCsrfForRequest(r) == Valid && ValidateCsrfMiddleware(r) == Valid
  {
  }

  /** The middleware lets any JSON request through, even one carrying no token at all. */
  lemma JsonBypassesMiddleware(r: Request)
    requires IsJsonRequest(r)
    ensures ValidateCsrfMiddleware(r) == Valid
  {
  }

  /** A guarded request without the cookie fails `validateCsrfForRequest`, even with a body token. */
  lemma BodyTokenNeverSuffices(r: Request)
    requires Guarded(r) && Cookie(r, "csrf_token") == ""
    ensures ValidateCsrfForRequest(r).Invalid?
  {
  }
}
