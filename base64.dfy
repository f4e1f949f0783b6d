/**
 * Base64 as Node's `Buffer` writes and reads it (section 4 of RFC 4648),
 * and the padding-free base64url form (section 5 of RFC 4648) that
 * `b64UrlEncode` / `b64UrlDecode` in auth.ts derive from it by string
 * substitution.
 */
module Base64 {
  import opened Wrappers
  import opened Text

  type byte = b: int | 0 <= b < 256

  /** The standard alphabet: `A`–`Z`, `a`–`z`, `0`–`9`, `+`, `/`. */
  function Symbol(i: int): (c: char)
    requires 0 <= i < 64
    ensures IndexOf(c) == i
  {
    if i < 26 then ('A' as int + i) as char
    else if i < 52 then ('a' as int + i - 26) as char
    else if i < 62 then ('0' as int + i - 52) as char
    else if i == 62 then '+'
    else '/'
  }

  /** Position of `c` in the standard alphabet, or -1. */
  function IndexOf(c: char): int {
    if 'A' <= c <= 'Z' then c as int - 'A' as int
    else if 'a' <= c <= 'z' then c as int - 'a' as int + 26
    else if '0' <= c <= '9' then c as int - '0' as int + 52
    else if c == '+' then 62
    else if c == '/' then 63
    else -1
  }

  predicate IsSymbol(c: char) {
    0 <= IndexOf(c) < 64
  }

  /** The symbols of an encoding without its `=` padding: 4 per full group of 3 bytes, 2 or 3 for a tail. */
  function Body(b: seq<byte>): (s: string)
    ensures |s| == |b| / 3 * 4 + (if |b| % 3 == 0 then 0 else |b| % 3 + 1)
    ensures forall i :: 0 <= i < |s| ==> IsSymbol(s[i])
    decreases |b|
  {
    if |b| == 0 then ""
    else if |b| == 1 then [Symbol(b[0] / 4), Symbol(b[0] % 4 * 16)]
    else if |b| == 2 then [Symbol(b[0] / 4), Symbol(b[0] % 4 * 16 + b[1] / 16), Symbol(b[1] % 16 * 4)]
    else Group(b[0], b[1], b[2]) + Body(b[3..])
  }

  function Group(b0: byte, b1: byte, b2: byte): (g: string)
    ensures |g| == 4 && forall i :: 0 <= i < 4 ==> IsSymbol(g[i])
  {
    [Symbol(b0 / 4), Symbol(b0 % 4 * 16 + b1 / 16), Symbol(b1 % 16 * 4 + b2 / 64), Symbol(b2 % 64)]
  }

  function Padding(n: nat): string {
    if n % 3 == 1 then "==" else if n % 3 == 2 then "=" else ""
  }

  /** `Buffer.from(b).toString('base64')`. */
  function Encode(b: seq<byte>): string {
    Body(b) + Padding(|b|)
  }

  /** The first byte of a group: all six bits of the first symbol, the top two of the second. */
  function Join1(a: int, b: int): byte
    requires 0 <= a < 64 && 0 <= b < 64
  {
    a * 4 + b / 16
  }

  /** The second byte: the low four bits of the second symbol, the top four of the third. */
  function Join2(b: int, c: int): byte
    requires 0 <= b < 64 && 0 <= c < 64
  {
    b % 16 * 16 + c / 4
  }

  /** The third byte: the low two bits of the third symbol, all six of the fourth. */
  function Join3(c: int, d: int): byte
    requires 0 <= c < 64 && 0 <= d < 64
  {
    c % 4 * 64 + d
  }

  /**
   * `Buffer.from(s, 'base64')` on the strings this model feeds it: groups of
   * four symbols, the last one possibly ending in `==` or `=`. Anything else
   * is `None`.
   */
  function Decode(s: string): Option<seq<byte>>
    decreases |s|
  {
    if |s| == 0 then Some([])
    else if |s| < 4 || !IsSymbol(s[0]) || !IsSymbol(s[1]) then None
    else
      var a, b := IndexOf(s[0]), IndexOf(s[1]);
      if |s| == 4 && s[2] == '=' && s[3] == '=' then Some([Join1(a, b)])
      else if !IsSymbol(s[2]) then None
      else
        var c := IndexOf(s[2]);
        if |s| == 4 && s[3] == '=' then Some([Join1(a, b), Join2(b, c)])
        else if !IsSymbol(s[3]) then None
        else
          var d := IndexOf(s[3]);
          match Decode(s[4..])
          case None => None
          case Some(rest) => Some([Join1(a, b), Join2(b, c), Join3(c, d)] + rest)
  }

  /** Splitting three bytes into four symbols and joining them again gives the bytes back. */
  lemma JoinSplit(b0: byte, b1: byte, b2: byte)
    ensures var x0, x1, x2, x3 := b0 / 4, b0 % 4 * 16 + b1 / 16, b1 % 16 * 4 + b2 / 64, b2 % 64;
      Join1(x0, x1) == b0 && Join2(x1, x2) == b1 && Join3(x2, x3) == b2
  {
    var x1, x2 := b0 % 4 * 16 + b1 / 16, b1 % 16 * 4 + b2 / 64;
    assert x1 / 16 == b0 % 4 && x1 % 16 == b1 / 16;
    assert x2 / 4 == b1 % 16 && x2 % 4 == b2 / 64;
  }

  /** A group of four symbols decodes to the three bytes it was made from, then decoding goes on. */
  lemma DecodeGroup(b0: byte, b1: byte, b2: byte, rest: string, r: seq<byte>)
    requires Decode(rest) == Some(r)
    ensures Decode(Group(b0, b1, b2) + rest) == Some([b0, b1, b2] + r)
  {
    var x0, x1, x2, x3 := b0 / 4, b0 % 4 * 16 + b1 / 16, b1 % 16 * 4 + b2 / 64, b2 % 64;
    JoinSplit(b0, b1, b2);
    var s := Group(b0, b1, b2) + rest;
    assert s[4..] == rest;
    assert IndexOf(s[0]) == x0 && IndexOf(s[1]) == x1 && IndexOf(s[2]) == x2 && IndexOf(s[3]) == x3;
  }

  /** A final group holding one byte, `xx==`, decodes to that byte. */
  lemma DecodeOne(b0: byte)
    ensures Decode(Encode([b0])) == Some([b0])
  {
    var x0, x1 := b0 / 4, b0 % 4 * 16;
    assert Join1(x0, x1) == b0;
    var s := Encode([b0]);
    assert s == [Symbol(x0), Symbol(x1), '=', '='];
    assert IndexOf(s[0]) == x0 && IndexOf(s[1]) == x1;
  }

  /** A final group holding two bytes, `xxx=`, decodes to those bytes. */
  lemma DecodeTwo(b0: byte, b1: byte)
    ensures Decode(Encode([b0, b1])) == Some([b0, b1])
  {
    var x0, x1, x2 := b0 / 4, b0 % 4 * 16 + b1 / 16, b1 % 16 * 4;
    JoinSplit(b0, b1, 0);
    var s := Encode([b0, b1]);
    assert s == [Symbol(x0), Symbol(x1), Symbol(x2), '='];
    assert IndexOf(s[0]) == x0 && IndexOf(s[1]) == x1 && IndexOf(s[2]) == x2;
  }

  /** Decoding undoes `Buffer`'s base64 encoding. */
  lemma {:induction false} DecodeEncode(b: seq<byte>)
    ensures Decode(Encode(b)) == Some(b)
    decreases |b|
  {
    if |b| < 3 {
      DecodeShort(b);
    } else {
      var rest := b[3..];
      EncodeStep(b);
      DecodeEncode(rest);
      DecodeGroup(b[0], b[1], b[2], Encode(rest), rest);
      assert [b[0], b[1], b[2]] + rest == b;
    }
  }

  /** Fewer than three bytes: nothing, `xx==` or `xxx=`. */
  lemma DecodeShort(b: seq<byte>)
    requires |b| < 3
    ensures Decode(Encode(b)) == Some(b)
  {
    if |b| == 1 {
      DecodeOne(b[0]);
      assert [b[0]] == b;
    } else if |b| == 2 {
      DecodeTwo(b[0], b[1]);
      assert [b[0], b[1]] == b;
    }
  }

  /** Three bytes or more: the first group, then the encoding of the rest. */
  lemma EncodeStep(b: seq<byte>)
    requires |b| >= 3
    ensures Encode(b) == Group(b[0], b[1], b[2]) + Encode(b[3..])
  {
    assert |b[3..]| % 3 == |b| % 3 by {
      assert |b| == |b[3..]| + 3;
    }
    assert Padding(|b|) == Padding(|b[3..]|);
  }

  /** Characters of the base64url alphabet. */
  predicate IsUrlSymbol(c: char) {
    ('A' <= c <= 'Z') || ('a' <= c <= 'z') || ('0' <= c <= '9') || c == '-' || c == '_'
  }

  /** `b64UrlEncode` (auth.ts): base64, then `+` → `-`, `/` → `_`, and every `=` dropped. */
  function UrlEncode(b: seq<byte>): (e: string)
    ensures e == MapChars(Body(b), UrlSymbol)
  {
    UrlReplaceChain(Encode(b));
    MapCharsConcat(Body(b), Padding(|b|), UrlSymbol);
    PaddingVanishes(|b|);
    ReplaceAll(ReplaceAll(ReplaceAll(Encode(b), '+', "-"), '/', "_"), '=', "")
  }

  /** The three substitutions of `UrlEncode`, as one per-character rewrite. */
  function UrlSymbol(c: char): string {
    if c == '+' then "-" else if c == '/' then "_" else if c == '=' then "" else [c]
  }

  /** The first two substitutions of `UrlEncode`. */
  function PlusSlash(c: char): string {
    if c == '+' then "-" else if c == '/' then "_" else [c]
  }

  lemma PaddingVanishes(n: nat)
    ensures MapChars(Padding(n), UrlSymbol) == ""
  {
    MapCharsSingle('=', UrlSymbol);
    if n % 3 == 1 {
      assert Padding(n) == "=" + "=";
      MapCharsConcat("=", "=", UrlSymbol);
    }
  }

  lemma PlusSlashChar(c: char)
    ensures MapChars(Replacing('+', "-")(c), Replacing('/', "_")) == PlusSlash(c)
  {
    if c == '+' {
      MapCharsSingle('-', Replacing('/', "_"));
    } else {
      MapCharsSingle(c, Replacing('/', "_"));
    }
  }

  lemma UrlSymbolChar(c: char)
    ensures MapChars(PlusSlash(c), Replacing('=', "")) == UrlSymbol(c)
  {
    var d := PlusSlash(c)[0];
    assert PlusSlash(c) == [d];
    MapCharsSingle(d, Replacing('=', ""));
  }

  /** The first two `replace` calls of `b64UrlEncode` are the rewrite `PlusSlash`. */
  lemma PlusSlashChain(e: string)
    ensures ReplaceAll(ReplaceAll(e, '+', "-"), '/', "_") == MapChars(e, PlusSlash)
  {
    forall i | 0 <= i < |e| ensures MapChars(Replacing('+', "-")(e[i]), Replacing('/', "_")) == PlusSlash(e[i]) {
      PlusSlashChar(e[i]);
    }
    ReplaceChain(e, '+', "-", '/', "_", PlusSlash);
  }

  /** Dropping `=` after `PlusSlash` is the rewrite `UrlSymbol`. */
  lemma DropEquals(e: string)
    ensures ReplaceAll(MapChars(e, PlusSlash), '=', "") == MapChars(e, UrlSymbol)
  {
    MapCharsCompose(e, PlusSlash, Replacing('=', ""));
    forall i | 0 <= i < |e| ensures MapChars(PlusSlash(e[i]), Replacing('=', "")) == UrlSymbol(e[i]) {
      UrlSymbolChar(e[i]);
    }
    MapCharsPointwise(e, x => MapChars(PlusSlash(x), Replacing('=', "")), UrlSymbol);
  }

  /** The three `replace` calls of `b64UrlEncode` are the rewrite `UrlSymbol`. */
  lemma UrlReplaceChain(e: string)
    ensures ReplaceAll(ReplaceAll(ReplaceAll(e, '+', "-"), '/', "_"), '=', "") == MapChars(e, UrlSymbol)
  {
    PlusSlashChain(e);
    DropEquals(e);
  }

  /** What `b64UrlEncode` writes is plain base64url: no `+`, `/` or `=`, and so no `.` either. */
  lemma UrlEncodeAlphabet(b: seq<byte>)
    ensures forall i :: 0 <= i < |UrlEncode(b)| ==> IsUrlSymbol(UrlEncode(b)[i])
    ensures |UrlEncode(b)| == |Body(b)| && (|b| > 0 ==> |UrlEncode(b)| > 0)
  {
    var body := Body(b);
    forall i, j | 0 <= i < |body| && 0 <= j < |UrlSymbol(body[i])|
      ensures IsUrlSymbol(UrlSymbol(body[i])[j])
    {
      assert IsSymbol(body[i]);
    }
    MapCharsAll(body, UrlSymbol, IsUrlSymbol);
    UrlSymbolLength(body);
  }

  lemma {:induction false} UrlSymbolLength(s: string)
    requires forall i :: 0 <= i < |s| ==> IsSymbol(s[i])
    ensures |MapChars(s, UrlSymbol)| == |s|
    decreases |s|
  {
    if |s| > 0 {
      UrlSymbolLength(s[1..]);
    }
  }

  /** The `=` characters `b64UrlDecode` appends: as many as make the length a multiple of 4. */
  function Repad(s: string): (r: string)
    ensures |r| % 4 == 0 && |r| - |s| < 4
  {
    s + seq((4 - |s| % 4) % 4, _ => '=')
  }

  /** The substitutions of `b64UrlDecode` that undo those of `b64UrlEncode`. */
  function UrlToStandard(s: string): string {
    ReplaceAll(ReplaceAll(s, '-', "+"), '_', "/")
  }

  /** `b64UrlDecode` (auth.ts), returning exactly the decoded bytes. */
  function UrlDecode(s: string): Option<seq<byte>> {
    Decode(Repad(UrlToStandard(s)))
  }

  /** `n` padding characters, `n` below 4, complete a block exactly when `n` is the count `Repad` appends. */
  lemma PadCount(len: nat, n: nat)
    requires n < 4
    ensures (len + n) % 4 == 0 <==> n == (4 - len % 4) % 4
  {
    var q, r := len / 4, len % 4;
    assert len + n == 4 * q + (r + n);
    assert (len + n) % 4 == (r + n) % 4;
  }

  lemma AppendPad(t: string, n: nat)
    ensures t + seq(n, _ => '=') + "=" == t + seq(n + 1, _ => '=')
  {
  }

  /** `b64UrlDecode` as written: substitute, then append `=` while the length is not a multiple of 4. */
  method B64UrlDecode(input: string) returns (r: Option<seq<byte>>)
    ensures r == UrlDecode(input)
  {
    var s := ReplaceAll(ReplaceAll(input, '-', "+"), '_', "/");
    ghost var t := s;
    ghost var n := 0;
    ghost var k := (4 - |t| % 4) % 4;
    while |s| % 4 != 0
      invariant s == t + seq(n, _ => '=') && n <= k
      decreases k - n
    {
      PadCount(|t|, n);
      AppendPad(t, n);
      s := s + "=";
      n := n + 1;
    }
    PadCount(|t|, n);
    assert t == UrlToStandard(input) && s == Repad(t);
    r := Decode(s);
  }

  /** The two substitutions of `b64UrlDecode`, as one per-character rewrite. */
  function StandardSymbol(c: char): string {
    if c == '-' then "+" else if c == '_' then "/" else [c]
  }

  lemma UrlToStandardRewrite(u: string)
    ensures UrlToStandard(u) == MapChars(u, StandardSymbol)
  {
    forall i | 0 <= i < |u| ensures MapChars(Replacing('-', "+")(u[i]), Replacing('_', "/")) == StandardSymbol(u[i]) {
      if u[i] == '-' {
        MapCharsSingle('+', Replacing('_', "/"));
      } else {
        MapCharsSingle(u[i], Replacing('_', "/"));
      }
    }
    ReplaceChain(u, '-', "+", '_', "/", StandardSymbol);
  }

  lemma SymbolRoundTrip(c: char)
    requires IsSymbol(c)
    ensures MapChars(UrlSymbol(c), StandardSymbol) == [c]
  {
    if c == '+' {
      MapCharsSingle('-', StandardSymbol);
    } else if c == '/' {
      MapCharsSingle('_', StandardSymbol);
    } else {
      MapCharsSingle(c, StandardSymbol);
    }
  }

  lemma {:induction false} StandardUndoesUrl(s: string)
    requires forall i :: 0 <= i < |s| ==> IsSymbol(s[i])
    ensures MapChars(MapChars(s, UrlSymbol), StandardSymbol) == s
    decreases |s|
  {
    if |s| > 0 {
      MapCharsConcat(UrlSymbol(s[0]), MapChars(s[1..], UrlSymbol), StandardSymbol);
      SymbolRoundTrip(s[0]);
      StandardUndoesUrl(s[1..]);
      assert [s[0]] + s[1..] == s;
    }
  }

  lemma UrlToStandardUndoes(s: string)
    requires forall i :: 0 <= i < |s| ==> IsSymbol(s[i])
    ensures UrlToStandard(MapChars(s, UrlSymbol)) == s
  {
    StandardUndoesUrl(s);
    UrlToStandardRewrite(MapChars(s, UrlSymbol));
  }

  lemma QuadMod(q: nat, k: nat)
    requires k < 4
    ensures (4 * q + k) % 4 == k
  {
  }

  /** Re-padding the unpadded symbols restores the padded encoding. */
  /** The padding `Repad` computes from the body's length is as long as `Buffer`'s. */
  lemma PadLength(n: nat)
    ensures var len := n / 3 * 4 + (if n % 3 == 0 then 0 else n % 3 + 1);
      (4 - len % 4) % 4 == |Padding(n)|
  {
    var r := n % 3;
    QuadMod(n / 3, if r == 0 then 0 else r + 1);
  }

  lemma PaddingIsEquals(n: nat)
    ensures Padding(n) == seq(|Padding(n)|, _ => '=')
  {
  }

  lemma RepadBody(b: seq<byte>)
    ensures Repad(Body(b)) == Encode(b)
  {
    PadLength(|b|);
    PaddingIsEquals(|b|);
  }

  /** Round trip of the token segments: `b64UrlDecode(b64UrlEncode(b))` gives back `b`. */
  lemma UrlRoundTrip(b: seq<byte>)
    ensures UrlDecode(UrlEncode(b)) == Some(b)
  {
    UrlToStandardUndoes(Body(b));
    RepadBody(b);
    DecodeEncode(b);
  }
}
