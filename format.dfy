/**
 * The display helpers of utils.ts: `formatDuration`, the bucketing of
 * `formatTimeAgo` (given the difference in whole seconds), and the Russian
 * plural rule shared by the six `getRussian*Word` helpers.
 */
module TimeFormat {
  import opened Wrappers
  import opened Text

  /** JavaScript's `a % b` for a positive divisor: the remainder takes the sign of `a`. */
  function JsRem(a: int, b: int): (r: int)
    requires b > 0
    ensures a >= 0 ==> r == a % b
    ensures a < 0 ==> r == -((-a) % b)
    ensures -b < r < b && (a < 0 ==> r <= 0)
  {
    if a >= 0 then a % b else -((-a) % b)
  }

  /** `n.toString().padStart(2, '0')`. */
  function Pad2(n: int): string {
    PadStart(IntToString(n), 2, '0')
  }

  /** Hours, minutes and seconds as `formatDuration` computes them (`Math.floor` and `%`). */
  function DurationParts(seconds: int): (p: (int, int, int))
    ensures seconds >= 0 ==> p.0 >= 0 && 0 <= p.1 < 60 && 0 <= p.2 < 60 && p.0 * 3600 + p.1 * 60 + p.2 == seconds
  {
    (seconds / 3600, JsRem(seconds, 3600) / 60, JsRem(seconds, 60))
  }

  /**
   * `formatDuration` (utils.ts): from one hour on `H:MM:SS`, below `M:SS`;
   * every field after the first is exactly two digits.
   */
  function FormatDuration(seconds: int): (t: string)
    ensures seconds >= 0 ==> var parts := Split(t, ':');
      |parts| == (if seconds >= 3600 then 3 else 2)
      && AllDigits(parts[0], 10) && parts[0] != ""
      && forall i :: 1 <= i < |parts| ==> |parts[i]| == 2 && AllDigits(parts[i], 10)
  {
    var (hours, minutes, secs) := DurationParts(seconds);
    LongShape(hours, minutes, secs);
    ShortShape(minutes, secs);
    if hours > 0 then IntToString(hours) + ":" + Pad2(minutes) + ":" + Pad2(secs)
    else IntToString(minutes) + ":" + Pad2(secs)
  }

  /** `H:MM:SS` splits into the hours numeral and two two-digit fields. */
  lemma LongShape(h: int, m: int, s: int)
    ensures h >= 0 && 0 <= m < 60 && 0 <= s < 60 ==>
      Split(IntToString(h) + ":" + Pad2(m) + ":" + Pad2(s), ':') == [IntToString(h), Pad2(m), Pad2(s)]
      && IntToString(h) != "" && AllDigits(IntToString(h), 10)
      && |Pad2(m)| == 2 && AllDigits(Pad2(m), 10) && |Pad2(s)| == 2 && AllDigits(Pad2(s), 10)
  {
    if h >= 0 && 0 <= m < 60 && 0 <= s < 60 {
      NumeralValue(h);
      Pad2Value(m);
      Pad2Value(s);
      SplitThree(IntToString(h), Pad2(m), Pad2(s));
    }
  }

  /** `M:SS` splits into the minutes numeral and one two-digit field. */
  lemma ShortShape(m: int, s: int)
    ensures m >= 0 && 0 <= s < 60 ==>
      Split(IntToString(m) + ":" + Pad2(s), ':') == [IntToString(m), Pad2(s)]
      && IntToString(m) != "" && AllDigits(IntToString(m), 10) && |Pad2(s)| == 2 && AllDigits(Pad2(s), 10)
  {
    if m >= 0 && 0 <= s < 60 {
      NumeralValue(m);
      Pad2Value(s);
      SplitTwo(IntToString(m), Pad2(s));
    }
  }

  /** A non-empty run of decimal digits. */
  predicate Field(p: string) {
    p != "" && AllDigits(p, 10)
  }

  /** Reads `H:MM:SS` or `M:SS` back into seconds; the partner of `FormatDuration`. */
  function ParseDuration(text: string): Option<int> {
    ParseFields(Split(text, ':'))
  }

  /** Two or three digit fields, read as minutes and seconds or as hours, minutes and seconds. */
  function ParseFields(parts: seq<string>): Option<int> {
    if !(forall i :: 0 <= i < |parts| ==> Field(parts[i])) then None
    else if |parts| == 3 then Some(ValueOf(parts[0], 10) * 3600 + ValueOf(parts[1], 10) * 60 + ValueOf(parts[2], 10))
    else if |parts| == 2 then Some(ValueOf(parts[0], 10) * 60 + ValueOf(parts[1], 10))
    else None
  }

  /** A two-digit field reads back as the number it pads. */
  lemma Pad2Value(n: int)
    requires 0 <= n < 100
    ensures var p := Pad2(n); |p| == 2 && AllDigits(p, 10) && ValueOf(p, 10) == n && ':' !in p
  {
    var s := NatToString(n);
    NatToStringValue(n);
    if n >= 10 {
      assert NatToString(n) == NatToString(n / 10) + [DigitChar(n % 10)];
    } else {
      var p := Pad2(n);
      assert p == "0" + s;
      assert p[..1] == "0";
    }
  }

  /** The numeral of `String(n)` holds no `:` and reads back as `n`. */
  lemma NumeralValue(n: nat)
    ensures var s := IntToString(n); s != "" && AllDigits(s, 10) && ValueOf(s, 10) == n && ':' !in s
  {
    NatToStringValue(n);
    var s := NatToString(n);
    assert forall i :: 0 <= i < |s| ==> IsDigit(s[i]);
  }

  lemma SplitThree(a: string, b: string, c: string)
    requires ':' !in a && ':' !in b && ':' !in c
    ensures Split(a + ":" + b + ":" + c, ':') == [a, b, c]
  {
    assert a + ":" + b + ":" + c == a + [':'] + (b + [':'] + c);
    SplitConcat(b, ':', c);
    SplitNoSeparator(c, ':');
    SplitConcat(a, ':', b + [':'] + c);
  }

  lemma SplitTwo(a: string, b: string)
    requires ':' !in a && ':' !in b
    ensures Split(a + ":" + b, ':') == [a, b]
  {
    SplitConcat(a, ':', b);
    SplitNoSeparator(b, ':');
  }

  /** Three digit fields `h`, `m` and `s` read back as `h * 3600 + m * 60 + s` seconds. */
  lemma ParseThreeParts(a: string, b: string, c: string)
    requires Field(a) && Field(b) && Field(c)
    ensures ParseFields([a, b, c]) == Some(ValueOf(a, 10) * 3600 + ValueOf(b, 10) * 60 + ValueOf(c, 10))
  {
    var parts := [a, b, c];
    assert forall i :: 0 <= i < |parts| ==> Field(parts[i]);
  }

  /** Two digit fields `m` and `s` read back as `m * 60 + s` seconds. */
  lemma ParseTwoParts(a: string, b: string)
    requires Field(a) && Field(b)
    ensures ParseFields([a, b]) == Some(ValueOf(a, 10) * 60 + ValueOf(b, 10))
  {
    var parts := [a, b];
    assert forall i :: 0 <= i < |parts| ==> Field(parts[i]);
  }

  /** `H:MM:SS` and `M:SS` read back field by field, whatever the fields' widths. */
  lemma ReadsThreeFields(a: string, b: string, c: string)
    requires Field(a) && Field(b) && Field(c) && ':' !in a && ':' !in b && ':' !in c
    ensures ParseDuration(a + ":" + b + ":" + c) == Some(ValueOf(a, 10) * 3600 + ValueOf(b, 10) * 60 + ValueOf(c, 10))
  {
    SplitThree(a, b, c);
    ParseThreeParts(a, b, c);
  }

  lemma ReadsTwoFields(a: string, b: string)
    requires Field(a) && Field(b) && ':' !in a && ':' !in b
    ensures ParseDuration(a + ":" + b) == Some(ValueOf(a, 10) * 60 + ValueOf(b, 10))
  {
    SplitTwo(a, b);
    ParseTwoParts(a, b);
  }

  /** `H:MM:SS` as `formatDuration` writes it reads back as the seconds it stands for. */
  lemma ReadsLongForm(h: nat, m: int, s: int)
    requires 0 <= m < 60 && 0 <= s < 60
    ensures ParseDuration(IntToString(h) + ":" + Pad2(m) + ":" + Pad2(s)) == Some(h * 3600 + m * 60 + s)
  {
    NumeralValue(h);
    Pad2Value(m);
    Pad2Value(s);
    ReadsThreeFields(IntToString(h), Pad2(m), Pad2(s));
  }

  /** `M:SS` as `formatDuration` writes it reads back as the seconds it stands for. */
  lemma ReadsShortForm(m: nat, s: int)
    requires 0 <= s < 60
    ensures ParseDuration(IntToString(m) + ":" + Pad2(s)) == Some(m * 60 + s)
  {
    NumeralValue(m);
    Pad2Value(s);
    ReadsTwoFields(IntToString(m), Pad2(s));
  }

  /** For any duration of zero seconds or more, `formatDuration`'s text denotes exactly that duration. */
  lemma DurationRoundTrip(seconds: int)
    requires seconds >= 0
    ensures ParseDuration(FormatDuration(seconds)) == Some(seconds)
  {
    var p := DurationParts(seconds);
    if p.0 > 0 {
      ReadsLongForm(p.0, p.1, p.2);
    } else {
      ReadsShortForm(p.1, p.2);
    }
  }

  /** The units `formatTimeAgo` counts in. */
  datatype Unit = Minute | Hour | Day | Week | Month | Year

  /** "just now", or a count of units ago. */
  datatype Ago = JustNow | Ago(unit: Unit, count: int)

  /** The count shown for unit `u` after `d` seconds: whole units of time, with weeks, months of 30 days and years of 365 counted from whole days. */
  function Count(u: Unit, d: int): int {
    match u
    case Minute => d / 60
    case Hour => d / 3600
    case Day => d / 86400
    case Week => d / 86400 / 7
    case Month => d / 86400 / 30
    case Year => d / 86400 / 365
  }

  /**
   * The bucketing of `formatTimeAgo` as written: each unit is tried in turn
   * on the difference `d` in whole seconds.
   */
  function TimeAgoBucket(d: int): (b: Ago)
    ensures b == JustNow <==> d < 60
    ensures b.Ago? ==> b.count == Count(b.unit, d) && b.count >= 0
    ensures b.Ago? ==> match b.unit
      case Minute => d < 3600
      case Hour => 3600 <= d < 86400
      case Day => 86400 <= d < 604800
      case Week => 604800 <= d < 2419200
      case Month => 2419200 <= d < 31104000
      case Year => 31104000 <= d
  {
    if d < 0 then JustNow
    else if d < 60 then JustNow
    else
      var minutes := d / 60;
      if minutes < 60 then Ago(Minute, minutes)
      else
        var hours := d / 3600;
        if hours < 24 then Ago(Hour, hours)
        else
          var days := d / 86400;
          if days < 7 then Ago(Day, days)
          else
            var weeks := days / 7;
            if weeks < 4 then Ago(Week, weeks)
            else
              var months := days / 30;
              if months < 12 then Ago(Month, months)
              else Ago(Year, days / 365)
  }

  /** Four weeks that are not yet 30 days read "0 months ago". */
  lemma ZeroMonthsAgo()
    ensures TimeAgoBucket(28 * 86400) == Ago(Month, 0)
    ensures FormatTimeAgo(28 * 86400, "en") == "0 months ago"
  {
  }

  /** From 360 days to a year, the text reads "0 years ago". */
  lemma ZeroYearsAgo()
    ensures TimeAgoBucket(360 * 86400) == Ago(Year, 0)
    ensures FormatTimeAgo(360 * 86400, "en") == "0 years ago"
  {
  }

  /**
   * The bucketing as evidently intended: weeks until 30 days have passed and
   * months until 365, so that no count is ever 0.
   */
  function TimeAgoBucketFixed(d: int): (b: Ago)
    ensures b == JustNow <==> d < 60
    ensures b.Ago? ==> b.count >= 1 && b.count == Count(b.unit, d)
    ensures b.Ago? ==> match b.unit
      case Minute => d < 3600
      case Hour => 3600 <= d < 86400
      case Day => 86400 <= d < 604800
      case Week => 604800 <= d < 2592000
      case Month => 2592000 <= d < 31536000
      case Year => 31536000 <= d
  {
    if d < 60 then JustNow
    else if d < 3600 then Ago(Minute, d / 60)
    else if d < 86400 then Ago(Hour, d / 3600)
    else
      var days := d / 86400;
      if days < 7 then Ago(Day, days)
      else if days < 30 then Ago(Week, days / 7)
      else if days < 365 then Ago(Month, days / 30)
      else Ago(Year, days / 365)
  }

  function Rank(b: Ago): nat {
    match b
    case JustNow => 0
    case Ago(u, _) => match u
      case Minute => 1 case Hour => 2 case Day => 3 case Week => 4 case Month => 5 case Year => 6
  }

  lemma DivMonotone(x: int, y: int, k: int)
    requires x <= y && k > 0
    ensures x / k <= y / k
  {
    var qx, qy := x / k, y / k;
    assert k * qx <= x && y < k * qy + k;
    assert k * (qy + 1 - qx) > 0;
    PositiveFactor(k, qy + 1 - qx);
  }

  lemma PositiveFactor(k: int, a: int)
    requires k > 0 && k * a > 0
    ensures a > 0
  {
  }

  /** An older moment never lands in a smaller unit, nor in a smaller count of the same unit. */
  lemma FixedBucketMonotone(d1: int, d2: int)
    requires d1 <= d2
    ensures Rank(TimeAgoBucketFixed(d1)) <= Rank(TimeAgoBucketFixed(d2))
    ensures var b1, b2 := TimeAgoBucketFixed(d1), TimeAgoBucketFixed(d2);
      b1.Ago? && b2.Ago? && b1.unit == b2.unit ==> b1.count <= b2.count
  {
    var b1, b2 := TimeAgoBucketFixed(d1), TimeAgoBucketFixed(d2);
    if b1.Ago? && b2.Ago? && b1.unit == b2.unit {
      DivMonotone(d1, d2, 60);
      DivMonotone(d1, d2, 3600);
      DivMonotone(d1, d2, 86400);
      var e1, e2 := d1 / 86400, d2 / 86400;
      DivMonotone(e1, e2, 7);
      DivMonotone(e1, e2, 30);
      DivMonotone(e1, e2, 365);
    }
  }

  /** The three Russian plural forms. */
  datatype Plural = One | Few | Many

  /**
   * The rule of every `getRussian*Word` helper, for a count of zero or more:
   * the singular only for a last digit 1, never for endings 11 to 14, and
   * the genitive plural for a last digit 0 or 5 to 9.
   */
  function RussianPlural(n: nat): (p: Plural)
    ensures p == One ==> n % 10 == 1
    ensures p == Few ==> 2 <= n % 10 <= 4
    ensures 11 <= n % 100 <= 14 ==> p == Many
    ensures n % 10 == 0 || n % 10 >= 5 ==> p == Many
  {
    if n % 10 == 1 && n % 100 != 11 then One
    else if n % 10 in {2, 3, 4} && n % 100 !in {12, 13, 14} then Few
    else Many
  }

  /** Only the last two digits decide the form. */
  lemma {:induction false} RussianPluralLastTwoDigits(n: nat)
    ensures RussianPlural(n) == RussianPlural(n % 100)
  {
    assert n % 100 % 10 == n % 10 by {
      assert n == 100 * (n / 100) + n % 100;
      assert n == 10 * (10 * (n / 100)) + n % 100;
    }
  }

  /** Within one hundred: 1, 21, …, 91 but not 11 take the singular; endings 2–4 outside the teens the paucal. */
  lemma RussianPluralBelowHundred(n: nat)
    requires n < 100
    ensures RussianPlural(n) == One <==> n != 11 && n % 10 == 1
    ensures RussianPlural(n) == Few <==> (n < 10 || n >= 20) && 2 <= n % 10 <= 4
  {
  }

  /** The words of the six helpers, by unit and form. */
  function RussianWord(u: Unit, p: Plural): string {
    match u
    case Minute => (match p case One => "минуту" case Few => "минуты" case Many => "минут")
    case Hour => (match p case One => "час" case Few => "часа" case Many => "часов")
    case Day => (match p case One => "день" case Few => "дня" case Many => "дней")
    case Week => (match p case One => "неделю" case Few => "недели" case Many => "недель")
    case Month => (match p case One => "месяц" case Few => "месяца" case Many => "месяцев")
    case Year => (match p case One => "год" case Few => "года" case Many => "лет")
  }

  function Singular(u: Unit): string {
    match u
    case Minute => "minute" case Hour => "hour" case Day => "day"
    case Week => "week" case Month => "month" case Year => "year"
  }

  function EnglishWord(u: Unit, n: int): string {
    if n == 1 then Singular(u) else Singular(u) + "s"
  }

  /**
   * The text for a bucket: Russian when `lang` is "ru", English otherwise.
   * A count is written first, as its numeral followed by a space.
   */
  function Render(b: Ago, lang: string): (r: string)
    ensures b.Ago? ==> StartsWith(r, IntToString(b.count) + " ")
    ensures b.Ago? && b.count >= 0 ==> IsDigit(r[0]) && (b.count >= 1 ==> r[0] != '0')
  {
    match b
    case JustNow => if lang == "ru" then "только что" else "just now"
    case Ago(u, n) =>
      var head := IntToString(n) + " ";
      var r := if lang == "ru" then head + RussianWord(u, RussianPlural(if n < 0 then 0 else n)) + " назад"
               else head + EnglishWord(u, n) + " ago";
      assert r[..|head|] == head;
      r
  }

  /** "just now" in either language is no count: its first character is no digit. */
  lemma JustNowIsNoCount(b: Ago, lang: string)
    ensures b.Ago? && b.count >= 0 ==> Render(b, lang) != Render(JustNow, lang)
  {
    var j := Render(JustNow, lang);
    assert !IsDigit(j[0]);
  }

  /**
   * `formatTimeAgo` (utils.ts) as written, from the difference in whole
   * seconds: "just now" exactly below a minute (the future included).
   */
  function FormatTimeAgo(d: int, lang: string := "en"): (r: string)
    ensures r == Render(JustNow, lang) <==> d < 60
    ensures d >= 60 ==> r != "" && IsDigit(r[0])
  {
    var b := TimeAgoBucket(d);
    JustNowIsNoCount(b, lang);
    Render(b, lang)
  }

  /** `formatTimeAgo` on the corrected buckets: the count it shows is never 0. */
  function FormatTimeAgoFixed(d: int, lang: string := "en"): (r: string)
    ensures r == Render(JustNow, lang) <==> d < 60
    ensures d >= 60 ==> r != "" && IsDigit(r[0]) && r[0] != '0'
  {
    var b := TimeAgoBucketFixed(d);
    JustNowIsNoCount(b, lang);
    Render(b, lang)
  }

  /** English text uses the singular unit exactly when the count is 1. */
  lemma EnglishSingularIffOne(u: Unit, n: int)
    ensures (EnglishWord(u, n) == Singular(u)) <==> n == 1
    ensures n != 1 ==> EnglishWord(u, n) == Singular(u) + "s"
  {
  }
}
