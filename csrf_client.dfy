/**
 * The browser side of the CSRF double submit (csrf.ts): reading the
 * `csrf_token` cookie from `document.cookie`, and copying it into the
 * `X-CSRF-Token` header and the JSON body of an outgoing `fetch`.
 */
module CsrfClient {
  import opened Wrappers
  import opened Text

  /** A JavaScript value as far as this code tells values apart; `Opaque` is any other value, by its JSON text. */
  datatype Value = Undefined | Null | Str(s: string) | Opaque(json: string)

  /** `if (token)`: only a non-empty string is truthy among the values `getCsrfToken` returns. */
  predicate Truthy(v: Value) {
    v.Str? && v.s != ""
  }

  /** `const [name, value] = piece.trim().split('=')`: `value` is `undefined` when there is no `=`. */
  function NameOf(piece: string): string {
    Split(Trim(piece), '=')[0]
  }

  function ValueOf(piece: string): Value {
    var pair := Split(Trim(piece), '=');
    if |pair| > 1 then Str(pair[1]) else Undefined
  }

  /** Index of the first piece named exactly `csrf_token`; `|pieces|` when there is none. */
  function FirstNamed(pieces: seq<string>): (k: nat)
    ensures k <= |pieces|
    ensures forall j :: 0 <= j < k ==> NameOf(pieces[j]) != "csrf_token"
    ensures k < |pieces| ==> NameOf(pieces[k]) == "csrf_token"
  {
    if |pieces| == 0 then 0
    else if NameOf(pieces[0]) == "csrf_token" then 0
    else 1 + FirstNamed(pieces[1..])
  }

  /** The value of the first piece named exactly `csrf_token`, or `null`. */
  function Lookup(pieces: seq<string>): Value {
    var k := FirstNamed(pieces);
    if k == |pieces| then Null else ValueOf(pieces[k])
  }

  /** The lookup stops at the first piece named `csrf_token`. */
  lemma LookupAt(pieces: seq<string>, i: nat)
    requires i < |pieces| && NameOf(pieces[i]) == "csrf_token"
    requires forall j :: 0 <= j < i ==> NameOf(pieces[j]) != "csrf_token"
    ensures Lookup(pieces) == ValueOf(pieces[i])
  {
  }

  /** What `getCsrfToken` returns: `null` without a `document`, else the lookup over `document.cookie.split(';')`. */
  function CsrfTokenOf(document: Option<string>): Value {
    match document
    case None => Null
    case Some(cookie) => Lookup(Split(cookie, ';'))
  }

  /** `getCsrfToken` (csrf.ts); `document` is `None` where `typeof document === 'undefined'`. */
  method GetCsrfToken(document: Option<string>) returns (token: Value)
    ensures token == CsrfTokenOf(document)
  {
    if document.None? {
      return Null;
    }
    var cookies := Split(document.value, ';');
    for i := 0 to |cookies|
      invariant forall j :: 0 <= j < i ==> NameOf(cookies[j]) != "csrf_token"
    {
      var pair := Split(Trim(cookies[i]), '=');
      var name := pair[0];
      if name == "csrf_token" {
        LookupAt(cookies, i);
        return if |pair| > 1 then Str(pair[1]) else Undefined;
      }
    }
    return Null;
  }

  /** A token free of `;`, `=` and surrounding white space, such as the 64 hexadecimal digits the server issues. */
  predicate PlainToken(t: string) {
    t != "" && ';' !in t && '=' !in t && !IsJsSpace(t[|t| - 1])
  }

  lemma TokenPieceTrim(t: string)
    requires PlainToken(t)
    ensures Trim("csrf_token=" + t) == "csrf_token=" + t
    ensures Trim(" csrf_token=" + t) == "csrf_token=" + t
  {
    var piece := "csrf_token=" + t;
    TrimUnchanged(piece);
    TrimSkipsLeadingSpace(' ', piece);
    assert " csrf_token=" + t == [' '] + piece;
  }

  lemma TokenPieceSplit(t: string)
    requires PlainToken(t)
    ensures Split("csrf_token=" + t, '=') == ["csrf_token", t]
  {
    assert "csrf_token=" + t == "csrf_token" + ['='] + t;
    SplitConcat("csrf_token", '=', t);
    SplitNoSeparator(t, '=');
  }

  /** The piece `csrf_token=<t>` is named `csrf_token` and holds `t`, with or without one leading space. */
  lemma TokenPiece(t: string)
    requires PlainToken(t)
    ensures NameOf("csrf_token=" + t) == "csrf_token" && ValueOf("csrf_token=" + t) == Str(t)
    ensures NameOf(" csrf_token=" + t) == "csrf_token" && ValueOf(" csrf_token=" + t) == Str(t)
  {
    TokenPieceTrim(t);
    TokenPieceSplit(t);
  }

  /** The cookie string `csrf_token=<t>` alone yields `t`. */
  lemma ReadsSoleCookie(t: string)
    requires PlainToken(t)
    ensures CsrfTokenOf(Some("csrf_token=" + t)) == Str(t)
  {
    var piece := "csrf_token=" + t;
    SplitNoSeparator(piece, ';');
    TokenPiece(t);
    LookupAt([piece], 0);
  }

  lemma SplitAfterAnother(other: string, t: string)
    requires ';' !in other && ';' !in t
    ensures Split(other + "; csrf_token=" + t, ';') == [other, " csrf_token=" + t]
  {
    var piece := " csrf_token=" + t;
    assert other + "; csrf_token=" + t == other + [';'] + piece by {
      assert "; csrf_token=" == [';'] + " csrf_token=";
    }
    SplitConcat(other, ';', piece);
    SplitNoSeparator(piece, ';');
  }

  /** Of two pieces, only the second named `csrf_token`, the lookup yields the second. */
  lemma LookupSecond(first: string, second: string)
    requires NameOf(first) != "csrf_token" && NameOf(second) == "csrf_token"
    ensures Lookup([first, second]) == ValueOf(second)
  {
    LookupAt([first, second], 1);
  }

  /** Behind another cookie, as browsers join them with `"; "`, the token is still found. */
  lemma ReadsCookieAfterAnother(other: string, t: string)
    requires PlainToken(t) && ';' !in other && NameOf(other) != "csrf_token"
    ensures CsrfTokenOf(Some(other + "; csrf_token=" + t)) == Str(t)
  {
    var piece := " csrf_token=" + t;
    var cookie := other + "; csrf_token=" + t;
    SplitAfterAnother(other, t);
    TokenPiece(t);
    LookupSecond(other, piece);
    calc {
      CsrfTokenOf(Some(cookie));
      Lookup(Split(cookie, ';'));
      Lookup([other, piece]);
      ValueOf(piece);
    }
  }

  /** A plain object, which JavaScript passes by reference. */
  class Dict {
    var entries: map<string, string>

    constructor(m: map<string, string>)
      ensures entries == m
    {
      entries := m;
    }
  }

  /** An object body the caller hands in; `addCsrfToken` writes into it. */
  class JsObject {
    var fields: map<string, Value>

    constructor(m: map<string, Value>)
      ensures fields == m
    {
      fields := m;
    }
  }

  /** `HeadersInit`: absent, a `Headers` instance, an array of pairs, or a plain record. */
  datatype HeadersInit = NoHeaders | FetchHeaders(entries: seq<(string, string)>) | Pairs(entries: seq<(string, string)>) | Record(dict: Dict)

  /** The `body` argument: absent or `null`, a string, a `FormData`, a number or boolean, or any other object. */
  datatype Body = NoBody | Text(text: string) | Form | Scalar(json: string) | Object(obj: JsObject)

  /** The returned body: the argument itself, or `JSON.stringify` of an object with these fields. */
  datatype BodyOut = Same(body: Body) | Json(fields: map<string, Value>)

  /** `Object.fromEntries`: later pairs overwrite earlier ones. */
  function FromEntries(entries: seq<(string, string)>): (m: map<string, string>)
    ensures forall k :: k in m <==> exists i :: 0 <= i < |entries| && entries[i].0 == k
  {
    if |entries| == 0 then map[]
    else
      var last := entries[|entries| - 1];
      var m := FromEntries(entries[..|entries| - 1]);
      assert forall i :: 0 <= i < |entries| - 1 ==> entries[..|entries| - 1][i] == entries[i];
      m[last.0 := last.1]
  }

  /** The header entries before the token is added: copied from a `Headers` or a pair list, or the record itself. */
  function InitialEntries(headers: HeadersInit): map<string, string>
    reads if headers.Record? then {headers.dict} else {}
  {
    match headers
    case NoHeaders => map[]
    case FetchHeaders(entries) => FromEntries(entries)
    case Pairs(entries) => FromEntries(entries)
    case Record(dict) => dict.entries
  }

  /** `body && typeof body === 'object' && !(body instanceof FormData)`. */
  predicate IsJsonBody(body: Body) {
    body.Object?
  }

  /** `headersObj`: a fresh record copied from a `Headers` or a pair list, an empty one, or the caller's own record. */
  method HeadersObject(headers: HeadersInit) returns (d: Dict)
    ensures headers.Record? ==> d == headers.dict
    ensures !headers.Record? ==> fresh(d)
    ensures d.entries == InitialEntries(headers)
  {
    match headers {
      case Record(dict) => d := dict;
      case FetchHeaders(entries) => d := new Dict(FromEntries(entries));
      case Pairs(entries) => d := new Dict(FromEntries(entries));
      case NoHeaders => d := new Dict(map[]);
    }
  }

  /**
   * `addCsrfToken` (csrf.ts). The token is written into the header object
   * only when it is truthy, but into an object body always, `null` or
   * `undefined` included. A record of headers and an object body are the
   * caller's own objects and are changed in place.
   */
  method AddCsrfToken(document: Option<string>, headers: HeadersInit, body: Body) returns (outHeaders: Dict, outBody: BodyOut)
    modifies if headers.Record? then {headers.dict} else {}
    modifies if body.Object? then {body.obj} else {}
    ensures headers.Record? ==> outHeaders == headers.dict
    ensures !headers.Record? ==> fresh(outHeaders)
    ensures var token := CsrfTokenOf(document);
      outHeaders.entries == (if Truthy(token) then old(InitialEntries(headers))["X-CSRF-Token" := token.s] else old(InitialEntries(headers)))
    ensures body.Object? ==> body.obj.fields == old(body.obj.fields)["csrf_token" := CsrfTokenOf(document)]
    ensures outBody == if body.Object? then Json(body.obj.fields) else Same(body)
  {
    ghost var initial := InitialEntries(headers);
    var token := GetCsrfToken(document);
    outHeaders := HeadersObject(headers);
    assert outHeaders.entries == initial;
    if Truthy(token) {
      outHeaders.entries := outHeaders.entries["X-CSRF-Token" := token.s];
    }

    ghost var entries := outHeaders.entries;
    if IsJsonBody(body) {
      var bodyObj := body.obj;
      ghost var before := bodyObj.fields;
      bodyObj.fields := bodyObj.fields["csrf_token" := token];
      assert bodyObj.fields == before["csrf_token" := CsrfTokenOf(document)];
      assert outHeaders.entries == entries;
      outBody := Json(bodyObj.fields);
    } else {
      outBody := Same(body);
    }
  }
}
