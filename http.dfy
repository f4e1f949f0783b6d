/**
 * The parts of a SvelteKit `RequestEvent` that the request guards read.
 * An absent header or cookie reads as "", which every guard treats as
 * JavaScript treats `null`: as false.
 */
module Http {
  import opened Text

  /** `verb` is `event.request.method`. */
  datatype Request = Request(
    verb: string,
    /** `event.url.pathname` */
    path: string,
    /** Header values by lower-case name, as `headers.get` finds them. */
    headers: map<string, string>,
    /** What the `cookie` library's `parse` makes of the `cookie` header. */
    cookies: map<string, string>,
    /** The `csrf_token` field of the JSON body; "" when the body has none or is not JSON. */
    bodyCsrf: string)

  /** `event.request.headers.get(name)`, "" standing for `null`. */
  function Header(r: Request, name: string): (v: string)
    ensures name !in r.headers ==> v == ""
    ensures name in r.headers ==> v == r.headers[name]
  {
    if name in r.headers then r.headers[name] else ""
  }

  /** `parse(cookieHeader)[name]` guarded by `if (cookieHeader)`; "" when either is missing. */
  function Cookie(r: Request, name: string): (v: string)
    ensures Header(r, "cookie") == "" ==> v == ""
    ensures v != "" ==> name in r.cookies && r.cookies[name] == v
  {
    if Header(r, "cookie") == "" then ""
    else if name in r.cookies then r.cookies[name]
    else ""
  }

  /** `contentType.includes('application/json')`, with a missing content type read as "". */
  predicate IsJsonRequest(r: Request) {
    Contains(Header(r, "content-type"), "application/json")
  }
}
