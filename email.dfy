/**
 * The email rule of the registration and profile routes, the regular
 * expression `^[^\s@]+@[^\s@]+\.[^\s@]+$`, and the scan that decides it.
 */
module Email {
  import opened Text

  /** A character of `[^\s@]`. */
  predicate Plain(c: char) {
    !IsJsSpace(c) && c != '@'
  }

  /** A match of `[^\s@]+`. */
  predicate PlainRun(t: string) {
    t != "" && forall k :: 0 <= k < |t| ==> Plain(t[k])
  }

  /**
   * What the regular expression accepts: an `@` at `i` and a dot at `j`
   * cut the whole text into three non-empty runs without white space or `@`.
   */
  ghost predicate MatchesEmailPattern(s: string) {
    exists i, j :: 0 < i && i + 1 < j && j + 1 < |s| && s[i] == '@' && s[j] == '.'
      && PlainRun(s[..i]) && PlainRun(s[i + 1..j]) && PlainRun(s[j + 1..])
  }

  /** Index of the first `c` in `s`, or `|s|`. */
  function Find(s: string, c: char): (k: nat)
    ensures k <= |s| && c !in s[..k]
    ensures forall m :: 0 <= m < k ==> s[m] != c
    ensures k < |s| ==> s[k] == c
    decreases |s|
  {
    if |s| == 0 then 0
    else if s[0] == c then 0
    else
      var k := 1 + Find(s[1..], c);
      assert s[..k] == [s[0]] + s[1..][..k - 1];
      k
  }

  /** The scan: text before the first `@`, then a domain free of `@` and white space with a dot strictly inside it. */
  predicate IsValidEmail(s: string) {
    var at := Find(s, '@');
    at < |s| && PlainRun(s[..at])
    && var domain := s[at + 1..];
    |domain| >= 3 && PlainRun(domain) && '.' in domain[1..|domain| - 1]
  }

  lemma PlainRunSlices(t: string, a: nat, b: nat)
    requires PlainRun(t) && a < b <= |t|
    ensures PlainRun(t[a..b])
  {
  }

  /** The scan accepts exactly the texts the regular expression matches. */
  lemma ValidEmailIffPattern(s: string)
    ensures IsValidEmail(s) <==> MatchesEmailPattern(s)
  {
    if IsValidEmail(s) {
      var at := Find(s, '@');
      var domain := s[at + 1..];
      var inner := domain[1..|domain| - 1];
      var m :| 0 <= m < |inner| && inner[m] == '.';
      var j := at + 2 + m;
      assert s[j] == '.';
      assert s[at + 1..j] == domain[..m + 1];
      assert s[j + 1..] == domain[m + 2..];
      PlainRunSlices(domain, 0, m + 1);
      PlainRunSlices(domain, m + 2, |domain|);
    }
    if MatchesEmailPattern(s) {
      var i, j :| 0 < i && i + 1 < j && j + 1 < |s| && s[i] == '@' && s[j] == '.'
        && PlainRun(s[..i]) && PlainRun(s[i + 1..j]) && PlainRun(s[j + 1..]);
      PatternScan(s, i, j);
    }
  }

  lemma PatternScan(s: string, i: nat, j: nat)
    requires 0 < i && i + 1 < j && j + 1 < |s| && s[i] == '@' && s[j] == '.'
    requires PlainRun(s[..i]) && PlainRun(s[i + 1..j]) && PlainRun(s[j + 1..])
    ensures IsValidEmail(s)
  {
    assert forall k :: 0 <= k < i ==> s[..i][k] == s[k];
    var at := Find(s, '@');
    assert at == i;
    var domain := s[i + 1..];
    assert forall k :: 0 <= k < |domain| ==> Plain(domain[k]) by {
      forall k | 0 <= k < |domain| ensures Plain(domain[k]) {
        if k < j - i - 1 {
          assert domain[k] == s[i + 1..j][k];
        } else if k > j - i - 1 {
          assert domain[k] == s[j + 1..][k - (j - i)];
        }
      }
    }
    assert domain[1..|domain| - 1][j - i - 2] == '.';
  }

  /** An address as users type it, a name, `@`, a host, a dot and a top-level domain, is accepted. */
  lemma AcceptsNameAtHostDotDomain(name: string, host: string, tld: string)
    requires PlainRun(name) && PlainRun(host) && PlainRun(tld)
    ensures IsValidEmail(name + "@" + host + "." + tld)
  {
    var s := name + "@" + host + "." + tld;
    var i, j := |name|, |name| + 1 + |host|;
    assert s[..i] == name && s[i] == '@';
    assert s[i + 1..j] == host && s[j] == '.';
    assert s[j + 1..] == tld;
    PatternScan(s, i, j);
  }

  /** A second `@` is refused: `[^\s@]` excludes it on both sides. */
  lemma RejectsTwoAts(a: string, b: string, c: string)
    ensures !MatchesEmailPattern(a + "@" + b + "@" + c)
  {
    var s := a + "@" + b + "@" + c;
    var p, q := |a|, |a| + 1 + |b|;
    assert s[p] == '@' && s[q] == '@';
    forall i, j | 0 < i && i + 1 < j && j + 1 < |s| && s[i] == '@' && s[j] == '.'
      ensures !(PlainRun(s[..i]) && PlainRun(s[i + 1..j]) && PlainRun(s[j + 1..]))
    {
      if p < i {
        assert s[..i][p] == '@';
      } else if p == i {
        if q < j {
          assert s[i + 1..j][q - i - 1] == '@';
        } else {
          assert s[j + 1..][q - j - 1] == '@';
        }
      } else if p < j {
        assert s[i + 1..j][p - i - 1] == '@';
      } else {
        assert s[j + 1..][p - j - 1] == '@';
      }
    }
  }
}
