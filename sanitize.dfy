/**
 * The string sanitizers of utils.ts: file names, HTML text on the server,
 * user input, and SQL `LIKE` patterns.
 */
module Sanitize {
  import opened Text

  /** The characters `/[^a-z0-9._-]/gi` leaves alone: ASCII letters of either case, digits, `.`, `_` and `-`. */
  predicate FilenameSafe(c: char) {
    ('a' <= c <= 'z') || ('A' <= c <= 'Z') || ('0' <= c <= '9') || c == '.' || c == '_' || c == '-'
  }

  function FilenameChar(c: char): string {
    if FilenameSafe(c) then [c] else "_"
  }

  /** What `sanitizeFilename` may return: lower-case ASCII letters, digits, `.`, `_` and `-`. */
  predicate FilenameOutput(c: char) {
    ('a' <= c <= 'z') || ('0' <= c <= '9') || c == '.' || c == '_' || c == '-'
  }

  /** `sanitizeFilename`: every other character becomes `_`, then ASCII letters are lowered. */
  function SanitizeFilename(name: string): (r: string)
    ensures |r| == |name|
    ensures forall i :: 0 <= i < |r| ==> FilenameOutput(r[i])
    ensures forall i :: 0 <= i < |r| ==> r[i] == if FilenameSafe(name[i]) then LowerChar(name[i]) else '_'
  {
    FilenameMapped(name);
    ToLowerAscii(MapChars(name, FilenameChar))
  }

  lemma {:induction false} FilenameMapped(name: string)
    ensures var m := MapChars(name, FilenameChar);
      |m| == |name| && forall i :: 0 <= i < |m| ==> m[i] == if FilenameSafe(name[i]) then name[i] else '_'
    decreases |name|
  {
    if |name| > 0 {
      FilenameMapped(name[1..]);
    }
  }

  /** Sanitizing a sanitized name changes nothing. */
  lemma SanitizeFilenameIdempotent(name: string)
    ensures SanitizeFilename(SanitizeFilename(name)) == SanitizeFilename(name)
  {
    var once := SanitizeFilename(name);
    var twice := SanitizeFilename(once);
    assert forall i :: 0 <= i < |once| ==> FilenameSafe(once[i]) && LowerChar(once[i]) == once[i];
    assert twice == once;
  }

  /** The entity the server-side fallback of `sanitizeHtml` writes for each character. */
  function EscapeHtmlChar(c: char): string {
    if c == '&' then "&amp;"
    else if c == '<' then "&lt;"
    else if c == '>' then "&gt;"
    else if c == '"' then "&quot;"
    else if c == '\'' then "&#039;"
    else [c]
  }

  /** The five chained `replace` calls of the fallback, `&` first. */
  function EscapeChain(s: string): string {
    ReplaceAll(ReplaceAll(ReplaceAll(ReplaceAll(ReplaceAll(s, '&', "&amp;"), '<', "&lt;"), '>', "&gt;"), '"', "&quot;"), '\'', "&#039;")
  }

  /** `sanitizeHtml` where there is no `document`: the empty string stays empty, everything else goes through the chain. */
  function SanitizeHtml(text: string): (r: string)
    ensures r == MapChars(text, EscapeHtmlChar)
    ensures forall j :: 0 <= j < |r| ==> NotMarkup(r[j])
  {
    EscapeChainIsPerChar(text);
    EscapedHasNoMarkup(text);
    if text == "" then "" else EscapeChain(text)
  }

  lemma EscapeChainConcat(a: string, b: string)
    ensures EscapeChain(a + b) == EscapeChain(a) + EscapeChain(b)
  {
    var f1, f2, f3, f4, f5 := Replacing('&', "&amp;"), Replacing('<', "&lt;"), Replacing('>', "&gt;"), Replacing('"', "&quot;"), Replacing('\'', "&#039;");
    MapCharsConcat(a, b, f1);
    var a1, b1 := MapChars(a, f1), MapChars(b, f1);
    MapCharsConcat(a1, b1, f2);
    var a2, b2 := MapChars(a1, f2), MapChars(b1, f2);
    MapCharsConcat(a2, b2, f3);
    var a3, b3 := MapChars(a2, f3), MapChars(b2, f3);
    MapCharsConcat(a3, b3, f4);
    var a4, b4 := MapChars(a3, f4), MapChars(b3, f4);
    MapCharsConcat(a4, b4, f5);
  }

  /** Replacing a character absent from a literal leaves the literal alone. */
  lemma Untouched(s: string, c: char, r: string)
    requires c !in s
    ensures ReplaceAll(s, c, r) == s
  {
    ReplaceAllAbsent(s, c, r);
  }

  lemma Replaced(c: char, r: string)
    ensures ReplaceAll([c], c, r) == r
  {
    MapCharsSingle(c, Replacing(c, r));
  }

  lemma Kept(x: char, c: char, r: string)
    requires x != c
    ensures ReplaceAll([x], c, r) == [x]
  {
    MapCharsSingle(x, Replacing(c, r));
  }

  /** The five characters the chain replaces. */
  predicate Special(c: char) {
    c == '&' || c == '<' || c == '>' || c == '"' || c == '\''
  }

  /** The last four steps leave alone a text without `<`, `>`, `"` and `'`. */
  lemma LaterStepsUntouched(e: string)
    requires '<' !in e && '>' !in e && '"' !in e && '\'' !in e
    ensures ReplaceAll(ReplaceAll(ReplaceAll(ReplaceAll(e, '<', "&lt;"), '>', "&gt;"), '"', "&quot;"), '\'', "&#039;") == e
  {
    Untouched(e, '<', "&lt;");
    Untouched(e, '>', "&gt;");
    Untouched(e, '"', "&quot;");
    Untouched(e, '\'', "&#039;");
  }

  /** `&` becomes `&amp;`, and no later step finds anything in it. */
  lemma EscapeAmp()
    ensures EscapeChain("&") == "&amp;"
  {
    var e := "&amp;";
    Replaced('&', e);
    assert ReplaceAll("&", '&', e) == e;
    assert '<' !in e && '>' !in e && '"' !in e && '\'' !in e;
    LaterStepsUntouched(e);
  }

  /** `<` becomes `&lt;`, and no later step finds anything in it. */
  lemma EscapeLt()
    ensures EscapeChain("<") == "&lt;"
  {
    Kept('<', '&', "&amp;");
    Replaced('<', "&lt;");
    Untouched("&lt;", '>', "&gt;");
    Untouched("&lt;", '"', "&quot;");
    Untouched("&lt;", '\'', "&#039;");
  }

  /** `>` becomes `&gt;`, and no later step finds anything in it. */
  lemma EscapeGt()
    ensures EscapeChain(">") == "&gt;"
  {
    Kept('>', '&', "&amp;");
    Kept('>', '<', "&lt;");
    Replaced('>', "&gt;");
    Untouched("&gt;", '"', "&quot;");
    Untouched("&gt;", '\'', "&#039;");
  }

  /** `"` becomes `&quot;`, and the last step finds nothing in it. */
  lemma EscapeQuot()
    ensures EscapeChain("\"") == "&quot;"
  {
    Kept('"', '&', "&amp;");
    Kept('"', '<', "&lt;");
    Kept('"', '>', "&gt;");
    Replaced('"', "&quot;");
    Untouched("&quot;", '\'', "&#039;");
  }

  /** `'` becomes `&#039;` in the last step. */
  lemma EscapeApos()
    ensures EscapeChain("'") == "&#039;"
  {
    Kept('\'', '&', "&amp;");
    Kept('\'', '<', "&lt;");
    Kept('\'', '>', "&gt;");
    Kept('\'', '"', "&quot;");
    Replaced('\'', "&#039;");
  }

  /** Any other character passes the chain unchanged. */
  lemma EscapeOther(c: char)
    requires !Special(c)
    ensures EscapeChain([c]) == [c]
  {
    Kept(c, '&', "&amp;");
    Kept(c, '<', "&lt;");
    Kept(c, '>', "&gt;");
    Kept(c, '"', "&quot;");
    Kept(c, '\'', "&#039;");
  }

  /** On one character the chain writes exactly its entity: no later `replace` touches an earlier one's output. */
  lemma EscapeChainChar(c: char)
    ensures EscapeChain([c]) == EscapeHtmlChar(c)
  {
    if c == '&' {
      EscapeAmp();
    } else if c == '<' {
      EscapeLt();
    } else if c == '>' {
      EscapeGt();
    } else if c == '"' {
      EscapeQuot();
    } else if c == '\'' {
      EscapeApos();
    } else {
      EscapeOther(c);
    }
  }

  /** The chained replacements are the character-by-character escape: escaping `&` first never double-escapes. */
  lemma {:induction false} EscapeChainIsPerChar(s: string)
    ensures EscapeChain(s) == MapChars(s, EscapeHtmlChar)
    decreases |s|
  {
    if |s| > 0 {
      assert s == [s[0]] + s[1..];
      EscapeChainConcat([s[0]], s[1..]);
      EscapeChainChar(s[0]);
      EscapeChainIsPerChar(s[1..]);
    }
  }

  predicate NotMarkup(c: char) {
    c != '<' && c != '>' && c != '"' && c != '\''
  }

  /** No entity, and no other character's copy, holds markup. */
  lemma EntityNoMarkup(c: char)
    ensures forall j :: 0 <= j < |EscapeHtmlChar(c)| ==> NotMarkup(EscapeHtmlChar(c)[j])
  {
    var e := EscapeHtmlChar(c);
    if Special(c) {
      assert '<' !in e && '>' !in e && '"' !in e && '\'' !in e;
    }
  }

  /** The escaped text holds no `<`, `>`, `"` or `'`, so it cannot open a tag or close an attribute value. */
  lemma EscapedHasNoMarkup(text: string)
    ensures forall j :: 0 <= j < |MapChars(text, EscapeHtmlChar)| ==> NotMarkup(MapChars(text, EscapeHtmlChar)[j])
  {
    forall i | 0 <= i < |text|
      ensures forall j :: 0 <= j < |EscapeHtmlChar(text[i])| ==> NotMarkup(EscapeHtmlChar(text[i])[j])
    {
      EntityNoMarkup(text[i]);
    }
    MapCharsAll(text, EscapeHtmlChar, NotMarkup);
  }

  /** A browser's reading of the five entities, every other character standing for itself. */
  function UnescapeHtml(s: string): string
    decreases |s|
  {
    if |s| == 0 then ""
    else if StartsWith(s, "&amp;") then "&" + UnescapeHtml(s[5..])
    else if StartsWith(s, "&lt;") then "<" + UnescapeHtml(s[4..])
    else if StartsWith(s, "&gt;") then ">" + UnescapeHtml(s[4..])
    else if StartsWith(s, "&quot;") then "\"" + UnescapeHtml(s[6..])
    else if StartsWith(s, "&#039;") then "'" + UnescapeHtml(s[6..])
    else [s[0]] + UnescapeHtml(s[1..])
  }

  lemma Mismatch(s: string, p: string, k: nat)
    requires k < |s| && k < |p| && s[k] != p[k]
    ensures !StartsWith(s, p)
  {
    if |p| <= |s| {
      assert s[..|p|][k] == s[k];
    }
  }

  lemma Entity(e: string, rest: string)
    ensures (e + rest)[..|e|] == e && (e + rest)[|e|..] == rest
  {
  }

  lemma UnescapeAmp(rest: string)
    ensures UnescapeHtml("&amp;" + rest) == "&" + UnescapeHtml(rest)
  {
    Entity("&amp;", rest);
  }

  lemma UnescapeLt(rest: string)
    ensures UnescapeHtml("&lt;" + rest) == "<" + UnescapeHtml(rest)
  {
    var s := "&lt;" + rest;
    Entity("&lt;", rest);
    Mismatch(s, "&amp;", 1);
  }

  lemma UnescapeGt(rest: string)
    ensures UnescapeHtml("&gt;" + rest) == ">" + UnescapeHtml(rest)
  {
    var s := "&gt;" + rest;
    Entity("&gt;", rest);
    Mismatch(s, "&amp;", 1);
    Mismatch(s, "&lt;", 1);
  }

  lemma UnescapeQuot(rest: string)
    ensures UnescapeHtml("&quot;" + rest) == "\"" + UnescapeHtml(rest)
  {
    var s := "&quot;" + rest;
    Entity("&quot;", rest);
    Mismatch(s, "&amp;", 1);
    Mismatch(s, "&lt;", 1);
    Mismatch(s, "&gt;", 1);
  }

  lemma UnescapeApos(rest: string)
    ensures UnescapeHtml("&#039;" + rest) == "'" + UnescapeHtml(rest)
  {
    var s := "&#039;" + rest;
    Entity("&#039;", rest);
    Mismatch(s, "&amp;", 1);
    Mismatch(s, "&lt;", 1);
    Mismatch(s, "&gt;", 1);
    Mismatch(s, "&quot;", 1);
  }

  lemma UnescapePlain(c: char, rest: string)
    requires c != '&'
    ensures UnescapeHtml([c] + rest) == [c] + UnescapeHtml(rest)
  {
    var s := [c] + rest;
    assert s[1..] == rest;
    Mismatch(s, "&amp;", 0);
    Mismatch(s, "&lt;", 0);
    Mismatch(s, "&gt;", 0);
    Mismatch(s, "&quot;", 0);
    Mismatch(s, "&#039;", 0);
  }

  lemma UnescapeStep(c: char, rest: string)
    ensures UnescapeHtml(EscapeHtmlChar(c) + rest) == [c] + UnescapeHtml(rest)
  {
    if c == '&' {
      UnescapeAmp(rest);
    } else if c == '<' {
      UnescapeLt(rest);
    } else if c == '>' {
      UnescapeGt(rest);
    } else if c == '"' {
      UnescapeQuot(rest);
    } else if c == '\'' {
      UnescapeApos(rest);
    } else {
      UnescapePlain(c, rest);
    }
  }

  /** The escaped text reads back as the original: escaping loses nothing. */
  lemma {:induction false} SanitizeHtmlRoundTrip(text: string)
    ensures UnescapeHtml(SanitizeHtml(text)) == text
    decreases |text|
  {
    if text != "" {
      EscapeChainIsPerChar(text);
      EscapeChainIsPerChar(text[1..]);
      UnescapeStep(text[0], MapChars(text[1..], EscapeHtmlChar));
      SanitizeHtmlRoundTrip(text[1..]);
      assert text == [text[0]] + text[1..];
    }
  }

  /** The characters the regular expression `/[\x00-\x08\x0B-\x0C\x0E-\x1F\x7F]/g` removes; tab, line feed and carriage return stay. */
  predicate IsControl(c: char) {
    c as int <= 0x08 || c as int == 0x0B || c as int == 0x0C || (0x0E <= c as int <= 0x1F) || c as int == 0x7F
  }

  function DropControl(c: char): string {
    if IsControl(c) then "" else [c]
  }

  /** The input with its control characters removed, the others kept in order. */
  function RemoveControls(s: string): (r: string)
    ensures |r| <= |s|
    ensures forall j :: 0 <= j < |r| ==> !IsControl(r[j])
    ensures (forall i :: 0 <= i < |s| ==> !IsControl(s[i])) ==> r == s
    decreases |s|
  {
    if |s| == 0 then "" else DropControl(s[0]) + RemoveControls(s[1..])
  }

  /** Removal works piece by piece: the clean text of `a + b` is that of `a`, then that of `b`. */
  lemma {:induction false} RemoveControlsConcat(a: string, b: string)
    ensures RemoveControls(a + b) == RemoveControls(a) + RemoveControls(b)
    decreases |a|
  {
    if |a| > 0 {
      assert (a + b)[1..] == a[1..] + b;
      RemoveControlsConcat(a[1..], b);
    } else {
      assert a + b == b;
    }
  }

  /** One character: a control character vanishes, any other stays. */
  lemma RemoveControlsChar(c: char)
    ensures RemoveControls([c]) == if IsControl(c) then "" else [c]
  {
    assert [c][1..] == "";
  }

  /** Every character other than a control character is kept as often as it occurs; control characters never remain. */
  lemma {:induction false} RemoveControlsCounts(s: string, c: char)
    ensures Occurrences(RemoveControls(s), c) == if IsControl(c) then 0 else Occurrences(s, c)
    decreases |s|
  {
    if |s| > 0 {
      RemoveControlsCounts(s[1..], c);
      OccurrencesConcat(DropControl(s[0]), RemoveControls(s[1..]), c);
      assert [s[0]][1..] == "";
    }
  }

  /** `s.substring(0, n)`: the end clamped into `[0, |s|]`. */
  function Prefix(s: string, n: int): (r: string)
    ensures |r| == if n < 0 then 0 else if n > |s| then |s| else n
    ensures r == s[..|r|]
  {
    if n < 0 then "" else if n > |s| then s else s[..n]
  }

  /** `sanitizeInput`: trimmed, cut to `maxLength` characters, then stripped of control characters. */
  function SanitizeInput(input: string, maxLength: int := 5000): (r: string)
    ensures |r| <= |Trim(input)| && (maxLength >= 0 ==> |r| <= maxLength)
    ensures forall j :: 0 <= j < |r| ==> !IsControl(r[j])
  {
    if input == "" then ""
    else
      var cut := Prefix(Trim(input), maxLength);
      RemoveControls(cut)
  }

  /**
   * The three steps in order: trim, cut to `maxLength`, remove the control
   * characters; the `!input` guard changes nothing. Every other character of
   * the cut text survives as often as it occurs there.
   */
  lemma SanitizeInputSteps(input: string, maxLength: int, c: char)
    ensures SanitizeInput(input, maxLength) == RemoveControls(Prefix(Trim(input), maxLength))
    ensures Occurrences(SanitizeInput(input, maxLength), c)
      == if IsControl(c) then 0 else Occurrences(Prefix(Trim(input), maxLength), c)
  {
    RemoveControlsCounts(Prefix(Trim(input), maxLength), c);
  }

  /** Clean input already trimmed and within the bound comes back unchanged. */
  lemma SanitizeInputKeepsCleanInput(input: string, maxLength: int)
    requires input == "" || (!IsJsSpace(input[0]) && !IsJsSpace(input[|input| - 1]))
    requires |input| <= maxLength
    requires forall i :: 0 <= i < |input| ==> !IsControl(input[i])
    ensures SanitizeInput(input, maxLength) == input
  {
    TrimUnchanged(input);
  }

  /**
   * Trimming comes before the control characters go, so the result can still
   * end in a space: a character, a space and a control character that is not
   * white space come back as the character and the space.
   */
  lemma SanitizeInputMayEndInSpace(x: char, c: char)
    requires !IsJsSpace(x) && !IsControl(x) && IsControl(c) && !IsJsSpace(c)
    ensures SanitizeInput([x, ' ', c]) == [x, ' ']
  {
    var input := [x, ' ', c];
    TrimUnchanged(input);
    assert Prefix(Trim(input), 5000) == input;
    assert input[1..] == [' ', c];
    var tail := [' ', c];
    assert tail[1..] == [c] && [c][1..] == [];
    assert RemoveControls([c]) == "";
    assert RemoveControls(tail) == [' '];
    assert RemoveControls(input) == [x] + [' '];
  }

  /** The `LIKE` escape of `sanitizeSqlLike` for one character: `\`, `%` and `_` get a backslash. */
  function EscapeLikeChar(c: char): string {
    if c == '\\' || c == '%' || c == '_' then ['\\', c] else [c]
  }

  /** The three chained `replace` calls of `sanitizeSqlLike`, backslash first. */
  function LikeChain(s: string): string {
    ReplaceAll(ReplaceAll(ReplaceAll(s, '\\', "\\\\"), '%', "\\%"), '_', "\\_")
  }

  /** `sanitizeSqlLike`: the empty string stays empty, everything else goes through the chain. */
  function SanitizeSqlLike(input: string): (r: string)
    ensures r == MapChars(input, EscapeLikeChar)
  {
    LikeChainIsPerChar(input);
    if input == "" then "" else LikeChain(input)
  }

  lemma LikeChainConcat(a: string, b: string)
    ensures LikeChain(a + b) == LikeChain(a) + LikeChain(b)
  {
    var f1, f2, f3 := Replacing('\\', "\\\\"), Replacing('%', "\\%"), Replacing('_', "\\_");
    MapCharsConcat(a, b, f1);
    var a1, b1 := MapChars(a, f1), MapChars(b, f1);
    MapCharsConcat(a1, b1, f2);
    var a2, b2 := MapChars(a1, f2), MapChars(b1, f2);
    MapCharsConcat(a2, b2, f3);
  }

  /** On one character the chain writes exactly its escape: no later `replace` touches an earlier one's output. */
  lemma LikeChainChar(c: char)
    ensures LikeChain([c]) == EscapeLikeChar(c)
  {
    var e := EscapeLikeChar(c);
    var s1 := ReplaceAll([c], '\\', "\\\\");
    if c == '\\' { Replaced(c, e); } else { Kept(c, '\\', "\\\\"); }
    var s2 := ReplaceAll(s1, '%', "\\%");
    if c == '%' { Replaced(c, e); } else if c == '\\' { Untouched(s1, '%', "\\%"); } else { Kept(c, '%', "\\%"); }
    var s3 := ReplaceAll(s2, '_', "\\_");
    if c == '_' { Replaced(c, e); } else if c in "\\%" { Untouched(s2, '_', "\\_"); } else { Kept(c, '_', "\\_"); }
  }

  /** The chained replacements escape character by character: escaping `\` first never doubles a backslash added later. */
  lemma {:induction false} LikeChainIsPerChar(input: string)
    ensures LikeChain(input) == MapChars(input, EscapeLikeChar)
    decreases |input|
  {
    if |input| > 0 {
      assert input == [input[0]] + input[1..];
      LikeChainConcat([input[0]], input[1..]);
      LikeChainChar(input[0]);
      LikeChainIsPerChar(input[1..]);
    }
  }

  /** One element of a `LIKE` pattern read with `ESCAPE '\'`. */
  datatype LikeToken = Literal(c: char) | AnyOne | AnyRun

  /** How SQL reads a `LIKE` pattern whose escape character is `\`; a trailing lone `\` stands for itself. */
  function ParseLike(p: string): seq<LikeToken>
    decreases |p|
  {
    if |p| == 0 then []
    else if p[0] == '\\' && |p| >= 2 then [Literal(p[1])] + ParseLike(p[2..])
    else if p[0] == '%' then [AnyRun] + ParseLike(p[1..])
    else if p[0] == '_' then [AnyOne] + ParseLike(p[1..])
    else [Literal(p[0])] + ParseLike(p[1..])
  }

  /** The pattern that matches exactly the text itself. */
  function Literally(s: string): (t: seq<LikeToken>)
    ensures |t| == |s| && forall i :: 0 <= i < |t| ==> t[i] == Literal(s[i])
  {
    seq(|s|, i requires 0 <= i < |s| => Literal(s[i]))
  }

  /**
   * Under `ESCAPE '\'` the sanitized text is a pattern without wildcards: it
   * stands for the input character for character.
   */
  lemma {:induction false} SanitizeSqlLikeLiteral(input: string)
    ensures ParseLike(SanitizeSqlLike(input)) == Literally(input)
    decreases |input|
  {
    if input != "" {
      var c, rest := input[0], input[1..];
      var p := MapChars(input, EscapeLikeChar);
      assert p == EscapeLikeChar(c) + MapChars(rest, EscapeLikeChar);
      SanitizeSqlLikeLiteral(rest);
      if c == '\\' || c == '%' || c == '_' {
        assert p[2..] == MapChars(rest, EscapeLikeChar);
      } else {
        assert p[1..] == MapChars(rest, EscapeLikeChar);
      }
      assert Literally(input) == [Literal(c)] + Literally(rest);
    }
  }
}
