/**
 * `handle` of hooks.server.ts: the per-request driver that initialises the
 * database schema once, issues the `csrf_token` cookie when the browser has
 * none, and refuses requests the CSRF middleware rejects.
 */
module Hooks {
  import opened Wrappers
  import opened Base64
  import opened Http
  import opened CsrfGuard

  /** The options `event.cookies.set` is given. */
  datatype CookieOptions = CookieOptions(path: string, httpOnly: bool, sameSite: string, secure: bool, maxAge: int)

  datatype SetCookie = SetCookie(name: string, value: string, options: CookieOptions)

  /** 403 with the JSON body `{ error }`, or whatever `resolve(event)` answers. */
  datatype Outcome = Forbidden(status: int, error: string) | Resolved

  /** `event.cookies`: the cookies the response will set. */
  class ResponseCookies {
    var issued: seq<SetCookie>

    constructor()
      ensures issued == []
    {
      issued := [];
    }
  }

  /** The Worker instance, holding the module-level `databaseInitialized` flag. */
  class Server {
    var databaseInitialized: bool
    /** How many times `initDatabase` has been called. */
    ghost var initCalls: nat

    constructor()
      ensures !databaseInitialized && initCalls == 0
    {
      databaseInitialized := false;
      initCalls := 0;
    }

    /**
     * One request. `hasDb` says whether `platform.env.DB` is bound,
     * `initSucceeds` whether `initDatabase` would resolve rather than throw,
     * `production` whether `NODE_ENV` is "production", and `random` the
     * bytes `crypto.randomBytes(32)` would yield.
     */
    method Handle(r: Request, cookies: ResponseCookies, hasDb: bool, initSucceeds: bool, production: bool, random: seq<byte>)
      returns (outcome: Outcome)
      requires |random| == 32
      modifies this, cookies
      ensures initCalls == old(initCalls) + (if !old(databaseInitialized) && hasDb then 1 else 0)
      ensures databaseInitialized == (old(databaseInitialized) || (hasDb && initSucceeds))
      ensures cookies.issued == old(cookies.issued) + (if Cookie(r, "csrf_token") == "" then [CsrfCookie(random, production)] else [])
      ensures outcome == Decide(r)
    {
      if !databaseInitialized && hasDb {
        initCalls := initCalls + 1;
        if initSucceeds {
          databaseInitialized := true;
        }
      }

      var cookieHeader := Header(r, "cookie");
      var present := if cookieHeader != "" && "csrf_token" in r.cookies then r.cookies["csrf_token"] else "";
      if present == "" {
        var csrfToken := GenerateCsrfToken(random);
        cookies.issued := cookies.issued + [SetCookie("csrf_token", csrfToken, CookieOptions("/", false, "lax", production, 60 * 60 * 24 * 7))];
      }

      var validation := ValidateCsrfMiddleware(r);
      if validation.Invalid? {
        return Forbidden(403, if validation.error != "" then validation.error else "CSRF validation failed");
      }
      return Resolved;
    }
  }

  /** The cookie `handle` issues: readable by scripts, same-site lax, a week long, secure in production. */
  function CsrfCookie(random: seq<byte>, production: bool): (c: SetCookie)
    requires |random| == 32
    ensures c.name == "csrf_token" && |c.value| == 64 && HexDecode(c.value) == Some(random)
    ensures c.options == CookieOptions("/", false, "lax", production, 604800)
  {
    SetCookie("csrf_token", GenerateCsrfToken(random), CookieOptions("/", false, "lax", production, 60 * 60 * 24 * 7))
  }

  /** The response decided from the request as it arrived: 403 "Invalid CSRF token" or on to the route. */
  function Decide(r: Request): (o: Outcome)
    ensures o.Forbidden? <==> ValidateCsrfMiddleware(r).Invalid?
    ensures o.Forbidden? ==> o.status == 403 && o.error == INVALID
  {
    match ValidateCsrfMiddleware(r)
    case Valid => Resolved
    case Invalid(e) => Forbidden(403, e)
  }

  /**
   * The cookie issued while handling a request cannot satisfy that request's
   * own check: a guarded, non-JSON request that arrives without the cookie
   * is refused although the response sets one.
   */
  lemma FirstMutationRefused(r: Request)
    requires Guarded(r) && !IsJsonRequest(r) && Cookie(r, "csrf_token") == ""
    ensures Decide(r) == Forbidden(403, INVALID)
  {
  }

  /** The browser's next request, carrying the issued cookie and no header, is let through. */
  lemma IssuedCookieAdmitsNextRequest(r: Request, random: seq<byte>, production: bool)
    requires |random| == 32 && Header(r, "cookie") != "" && "x-csrf-token" !in r.headers
    ensures var c := CsrfCookie(random, production);
      Decide(r.(cookies := r.cookies[c.name := c.value])) == Resolved
  {
    var c := CsrfCookie(random, production);
    CookieAlonePasses(r.(cookies := r.cookies[c.name := c.value]));
  }
}
