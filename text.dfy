/**
 * The JavaScript string operations the server and client code rely on
 * (`trim`, `split`, `replace(/c/g, …)`, `startsWith`, `includes`,
 * `toLowerCase` on ASCII, number formatting and `parseInt`), written as
 * functions over `seq<char>`.
 */
module Text {
  import opened Wrappers

  /** JavaScript's WhiteSpace and LineTerminator characters: what `trim` removes and what `\s` matches. */
  predicate IsJsSpace(c: char) {
    || c == ' ' || c == '\t' || c == '\n' || c == '\r' || c == '\U{000B}' || c == '\U{000C}'
    || c == '\U{00A0}' || c == '\U{1680}' || ('\U{2000}' <= c <= '\U{200A}')
    || c == '\U{2028}' || c == '\U{2029}' || c == '\U{202F}' || c == '\U{205F}'
    || c == '\U{3000}' || c == '\U{FEFF}'
  }

  function TrimStart(s: string): (r: string)
    ensures |r| <= |s| && r == s[|s| - |r|..]
    ensures r == "" || !IsJsSpace(r[0])
    ensures forall i :: 0 <= i < |s| - |r| ==> IsJsSpace(s[i])
    decreases |s|
  {
    if |s| > 0 && IsJsSpace(s[0]) then TrimStart(s[1..]) else s
  }

  function TrimEnd(s: string): (r: string)
    ensures |r| <= |s| && r == s[..|r|]
    ensures r == "" || !IsJsSpace(r[|r| - 1])
    ensures forall i :: |r| <= i < |s| ==> IsJsSpace(s[i])
    decreases |s|
  {
    if |s| > 0 && IsJsSpace(s[|s| - 1]) then TrimEnd(s[..|s| - 1]) else s
  }

  /** `String.prototype.trim`. */
  function Trim(s: string): string {
    TrimEnd(TrimStart(s))
  }

  /** `trim` leaves alone a string that neither begins nor ends with white space. */
  lemma TrimUnchanged(s: string)
    requires s == "" || (!IsJsSpace(s[0]) && !IsJsSpace(s[|s| - 1]))
    ensures Trim(s) == s
  {
  }

  /** Leading white space does not change what `trim` yields. */
  lemma TrimSkipsLeadingSpace(c: char, s: string)
    requires IsJsSpace(c)
    ensures Trim([c] + s) == Trim(s)
  {
    assert ([c] + s)[1..] == s;
  }

  /** A string is blank (`!s.trim()`) exactly when it consists of white space only. */
  lemma TrimEmptyIff(s: string)
    ensures Trim(s) == "" <==> forall i :: 0 <= i < |s| ==> IsJsSpace(s[i])
  {
    var t := TrimStart(s);
    if !forall i :: 0 <= i < |s| ==> IsJsSpace(s[i]) {
      var k :| 0 <= k < |s| && !IsJsSpace(s[k]);
      assert t[k - (|s| - |t|)] == s[k];
    }
  }

  /** `s.startsWith(p)`. */
  predicate StartsWith(s: string, p: string) {
    |p| <= |s| && s[..|p|] == p
  }

  /** `s.includes(sub)`. */
  predicate Contains(s: string, sub: string)
    decreases |s|
  {
    StartsWith(s, sub) || (|s| > 0 && Contains(s[1..], sub))
  }

  /** `s.split(sep)` for a one-character separator: the pieces between separators, in order. */
  function Split(s: string, sep: char): (parts: seq<string>)
    ensures |parts| >= 1
    ensures forall i :: 0 <= i < |parts| ==> sep !in parts[i]
    decreases |s|
  {
    if |s| == 0 then [""]
    else
      var rest := Split(s[1..], sep);
      if s[0] == sep then [""] + rest
      else [[s[0]] + rest[0]] + rest[1..]
  }

  lemma {:induction false} SplitNoSeparator(a: string, sep: char)
    requires sep !in a
    ensures Split(a, sep) == [a]
    decreases |a|
  {
    if |a| > 0 {
      SplitNoSeparator(a[1..], sep);
      assert [a[0]] + a[1..] == a;
    }
  }

  /** Splitting `a + sep + b`, where `a` holds no separator, yields `a` followed by the pieces of `b`. */
  lemma {:induction false} SplitConcat(a: string, sep: char, b: string)
    requires sep !in a
    ensures Split(a + [sep] + b, sep) == [a] + Split(b, sep)
    decreases |a|
  {
    var s := a + [sep] + b;
    if |a| == 0 {
      assert s[1..] == b;
    } else {
      assert s[1..] == a[1..] + [sep] + b;
      SplitConcat(a[1..], sep, b);
      assert [a[0]] + a[1..] == a;
    }
  }

  /** Number of occurrences of `c` in `s`. */
  function Occurrences(s: string, c: char): nat
    decreases |s|
  {
    if |s| == 0 then 0 else (if s[0] == c then 1 else 0) + Occurrences(s[1..], c)
  }

  /** Occurrences add up over a concatenation. */
  lemma {:induction false} OccurrencesConcat(a: string, b: string, c: char)
    ensures Occurrences(a + b, c) == Occurrences(a, c) + Occurrences(b, c)
    decreases |a|
  {
    if |a| == 0 {
      assert a + b == b;
    } else {
      assert (a + b)[1..] == a[1..] + b;
      OccurrencesConcat(a[1..], b, c);
    }
  }

  /** A character that does not appear is counted zero times. */
  lemma {:induction false} OccurrencesAbsent(s: string, c: char)
    requires c !in s
    ensures Occurrences(s, c) == 0
    decreases |s|
  {
    if |s| > 0 {
      assert s[0] != c;
      OccurrencesAbsent(s[1..], c);
    }
  }

  /** `s.split(sep)` has one piece more than `s` has separators. */
  lemma {:induction false} SplitCount(s: string, sep: char)
    ensures |Split(s, sep)| == Occurrences(s, sep) + 1
    decreases |s|
  {
    if |s| > 0 {
      SplitCount(s[1..], sep);
    }
  }

  /**
   * The last piece of `s.split(sep)` is the end of `s` after its last
   * separator, or all of `s` when there is none.
   */
  lemma {:induction false} SplitLast(s: string, sep: char)
    ensures var parts := Split(s, sep); var l := parts[|parts| - 1];
      (|parts| == 1 <==> sep !in s) && (|parts| == 1 ==> l == s)
      && |l| <= |s| && s[|s| - |l|..] == l
      && (sep in s ==> |l| < |s| && s[|s| - |l| - 1] == sep)
    decreases |s|
  {
    if |s| > 0 {
      var t := s[1..];
      SplitLast(t, sep);
      var rest := Split(t, sep);
      var l := rest[|rest| - 1];
      assert s == [s[0]] + t;
      assert sep in s <==> s[0] == sep || sep in t;
      assert s[|s| - |l|..] == t[|t| - |l|..];
      if s[0] == sep {
        assert Split(s, sep) == [""] + rest;
        if |rest| > 1 {
          assert s[|s| - |l| - 1] == t[|t| - |l| - 1];
        }
      } else if |rest| == 1 {
        assert Split(s, sep) == [[s[0]] + rest[0]];
      } else {
        assert Split(s, sep)[|Split(s, sep)| - 1] == l;
        assert s[|s| - |l| - 1] == t[|t| - |l| - 1];
      }
    }
  }

  /** `parts.pop()` as a value: the last piece. */
  function Last(parts: seq<string>): string
    requires |parts| > 0
  {
    parts[|parts| - 1]
  }

  /** Concatenation of `f(c)` over the characters `c` of `s`: a per-character rewrite. */
  function MapChars(s: string, f: char -> string): string
    decreases |s|
  {
    if |s| == 0 then "" else f(s[0]) + MapChars(s[1..], f)
  }

  lemma {:induction false} MapCharsConcat(a: string, b: string, f: char -> string)
    ensures MapChars(a + b, f) == MapChars(a, f) + MapChars(b, f)
    decreases |a|
  {
    if |a| > 0 {
      assert (a + b)[1..] == a[1..] + b;
      MapCharsConcat(a[1..], b, f);
    } else {
      assert a + b == b;
    }
  }

  lemma MapCharsSingle(c: char, f: char -> string)
    ensures MapChars([c], f) == f(c)
  {
    assert [c][1..] == [];
  }

  /** Two rewrites in a row are one rewrite by the composed per-character function. */
  lemma {:induction false} MapCharsCompose(s: string, f: char -> string, g: char -> string)
    ensures MapChars(MapChars(s, f), g) == MapChars(s, x => MapChars(f(x), g))
    decreases |s|
  {
    if |s| > 0 {
      MapCharsConcat(f(s[0]), MapChars(s[1..], f), g);
      MapCharsCompose(s[1..], f, g);
    }
  }

  lemma {:induction false} MapCharsPointwise(s: string, f: char -> string, g: char -> string)
    requires forall i :: 0 <= i < |s| ==> f(s[i]) == g(s[i])
    ensures MapChars(s, f) == MapChars(s, g)
    decreases |s|
  {
    if |s| > 0 {
      MapCharsPointwise(s[1..], f, g);
    }
  }

  /** A rewrite that leaves each character of `s` as it is leaves `s` as it is. */
  lemma {:induction false} MapCharsIdentity(s: string, f: char -> string)
    requires forall i :: 0 <= i < |s| ==> f(s[i]) == [s[i]]
    ensures MapChars(s, f) == s
    decreases |s|
  {
    if |s| > 0 {
      MapCharsIdentity(s[1..], f);
      assert [s[0]] + s[1..] == s;
    }
  }

  /** A property of every character that `f` produces holds of every character of the rewrite. */
  lemma {:induction false} MapCharsAll(s: string, f: char -> string, p: char -> bool)
    requires forall i, j :: 0 <= i < |s| && 0 <= j < |f(s[i])| ==> p(f(s[i])[j])
    ensures forall j :: 0 <= j < |MapChars(s, f)| ==> p(MapChars(s, f)[j])
    decreases |s|
  {
    if |s| > 0 {
      MapCharsAll(s[1..], f, p);
      var head, tail := f(s[0]), MapChars(s[1..], f);
      assert forall j :: 0 <= j < |head| ==> p(head[j]);
      assert forall j :: |head| <= j < |head + tail| ==> (head + tail)[j] == tail[j - |head|];
    }
  }

  /** The per-character function of `s.replace(/c/g, r)`. */
  function Replacing(c: char, r: string): char -> string {
    x => if x == c then r else [x]
  }

  /** `s.replace(/c/g, r)`: every occurrence of the character `c` replaced by `r`. */
  function ReplaceAll(s: string, c: char, r: string): string {
    MapChars(s, Replacing(c, r))
  }

  /** Two `replace` calls in a row are the per-character rewrite `h` when they agree with it on each character. */
  lemma ReplaceChain(s: string, c1: char, r1: string, c2: char, r2: string, h: char -> string)
    requires forall i :: 0 <= i < |s| ==> MapChars(Replacing(c1, r1)(s[i]), Replacing(c2, r2)) == h(s[i])
    ensures ReplaceAll(ReplaceAll(s, c1, r1), c2, r2) == MapChars(s, h)
  {
    MapCharsCompose(s, Replacing(c1, r1), Replacing(c2, r2));
    MapCharsPointwise(s, x => MapChars(Replacing(c1, r1)(x), Replacing(c2, r2)), h);
  }

  lemma ReplaceAllAbsent(s: string, c: char, r: string)
    requires c !in s
    ensures ReplaceAll(s, c, r) == s
  {
    forall i | 0 <= i < |s| ensures Replacing(c, r)(s[i]) == [s[i]] {
      assert s[i] in s;
    }
    MapCharsIdentity(s, Replacing(c, r));
  }

  function LowerChar(c: char): char {
    if 'A' <= c <= 'Z' then (c as int + 32) as char else c
  }

  /** `toLowerCase` restricted to ASCII letters. */
  function ToLowerAscii(s: string): string {
    seq(|s|, i requires 0 <= i < |s| => LowerChar(s[i]))
  }

  /** `s.padStart(n, fill)` for a one-character fill. */
  function PadStart(s: string, n: nat, fill: char): string {
    if |s| >= n then s else seq(n - |s|, _ => fill) + s
  }

  predicate IsDigit(c: char) {
    '0' <= c <= '9'
  }

  function DigitChar(d: int): char
    requires 0 <= d < 10
  {
    ('0' as int + d) as char
  }

  /** The value of `c` as a digit of any radix up to 36, or 36 when it is no digit at all. */
  function DigitValue(c: char): nat {
    if '0' <= c <= '9' then c as int - '0' as int
    else if 'a' <= c <= 'z' then c as int - 'a' as int + 10
    else if 'A' <= c <= 'Z' then c as int - 'A' as int + 10
    else 36
  }

  predicate AllDigits(s: string, radix: nat) {
    forall i :: 0 <= i < |s| ==> DigitValue(s[i]) < radix
  }

  /** The number a string of digits denotes in the given radix. */
  function ValueOf(s: string, radix: nat): nat
    requires AllDigits(s, radix)
    decreases |s|
  {
    if |s| == 0 then 0 else ValueOf(s[..|s| - 1], radix) * radix + DigitValue(s[|s| - 1])
  }

  /** Decimal rendering of a natural number (`String(n)`), most significant digit first. */
  function NatToString(n: nat): (s: string)
    ensures |s| >= 1 && forall i :: 0 <= i < |s| ==> IsDigit(s[i])
    ensures n >= 10 ==> s[0] != '0'
    decreases n
  {
    if n < 10 then [DigitChar(n)] else NatToString(n / 10) + [DigitChar(n % 10)]
  }

  /** `String(i)` / template interpolation of an integer. */
  function IntToString(i: int): string {
    if i < 0 then "-" + NatToString(-i) else NatToString(i)
  }

  /** Printing `10 * q + d` prints `q`, then the digit `d`. */
  lemma NatToStringStep(q: nat, d: nat)
    requires q > 0 && d < 10
    ensures NatToString(q * 10 + d) == NatToString(q) + [DigitChar(d)]
  {
    var n := q * 10 + d;
    assert n / 10 == q && n % 10 == d;
  }

  lemma {:induction false} NatToStringValue(n: nat)
    ensures AllDigits(NatToString(n), 10) && ValueOf(NatToString(n), 10) == n
    decreases n
  {
    var s := NatToString(n);
    if n >= 10 {
      NatToStringValue(n / 10);
      assert s[..|s| - 1] == NatToString(n / 10);
    }
  }

  /** Number of leading characters of `s` that are digits of `radix`. */
  function DigitPrefix(s: string, radix: nat): (k: nat)
    ensures k <= |s| && AllDigits(s[..k], radix)
    ensures k < |s| ==> DigitValue(s[k]) >= radix
    decreases |s|
  {
    if |s| > 0 && DigitValue(s[0]) < radix then 1 + DigitPrefix(s[1..], radix) else 0
  }

  lemma {:induction false} DigitPrefixAll(s: string, radix: nat)
    requires AllDigits(s, radix)
    ensures DigitPrefix(s, radix) == |s|
    decreases |s|
  {
    if |s| > 0 {
      DigitPrefixAll(s[1..], radix);
    }
  }

  /** The digits part of `parseInt`: an optional `0x`/`0X` prefix, then the longest run of digits. */
  function ParseMagnitude(u: string): Option<nat> {
    var hex := |u| >= 2 && u[0] == '0' && (u[1] == 'x' || u[1] == 'X');
    var radix := if hex then 16 else 10;
    var digits := if hex then u[2..] else u;
    var k := DigitPrefix(digits, radix);
    if k == 0 then None else Some(ValueOf(digits[..k], radix))
  }

  /**
   * `parseInt(s)` without a radix: leading white space is skipped, one sign
   * is read, and the magnitude follows; `None` stands for `NaN` (no digit at all).
   */
  function ParseInt(s: string): Option<int> {
    var t := TrimStart(s);
    var negative := |t| > 0 && t[0] == '-';
    var u := if |t| > 0 && (t[0] == '-' || t[0] == '+') then t[1..] else t;
    match ParseMagnitude(u)
    case None => None
    case Some(v) => Some(if negative then -(v as int) else v as int)
  }

  /** A plain decimal numeral is read back in full. */
  lemma DecimalMagnitude(n: nat)
    ensures ParseMagnitude(NatToString(n)) == Some(n)
  {
    var d := NatToString(n);
    NatToStringValue(n);
    DigitPrefixAll(d, 10);
    assert d[..|d|] == d;
  }

  /** With no leading white space and no sign, `parseInt` is the magnitude alone. */
  lemma ParseIntUnsigned(s: string, v: nat)
    requires s != "" && !IsJsSpace(s[0]) && s[0] != '-' && s[0] != '+'
    requires ParseMagnitude(s) == Some(v)
    ensures ParseInt(s) == Some(v)
  {
    assert TrimStart(s) == s;
  }

  /** Behind a minus sign, `parseInt` is the negated magnitude. */
  lemma ParseIntMinus(u: string, v: nat)
    requires ParseMagnitude(u) == Some(v)
    ensures ParseInt(['-'] + u) == Some(-(v as int))
  {
    var s := ['-'] + u;
    var t := TrimStart(s);
    assert !IsJsSpace(s[0]);
    assert t == s;
    assert t[1..] == u;
  }

  /** `parseInt` reads back what `String` prints. */
  lemma ParseIntRoundTrip(i: int)
    ensures ParseInt(IntToString(i)) == Some(i)
  {
    var n: nat := if i < 0 then -i else i;
    var digits := NatToString(n);
    DecimalMagnitude(n);
    if i < 0 {
      assert IntToString(i) == ['-'] + digits;
      ParseIntMinus(digits, n);
    } else {
      assert IsDigit(digits[0]);
      ParseIntUnsigned(digits, n);
    }
  }
}
