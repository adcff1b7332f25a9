/**
 * The end date `find_latest_files` reads from an item's temporal-coverage texts:
 * `"... To dd/mm/yyyy"` split at its single `To`, the first whitespace-separated token
 * after it parsed with `datetime.strptime(token, '%d/%m/%Y')`, the first text that
 * parses winning, and the clock reading `now` when none does.
 */
module CoverageDates {
  import opened Wrappers
  import opened Text
  import opened Calendar

  predicate IsNonZeroDigit(c: char) { '1' <= c <= '9' }

  /** `%d` in `strptime`: `3[01]|[12]\d|0[1-9]|[1-9]| [1-9]`. */
  predicate DayField(s: string) {
    (|s| == 1 && IsNonZeroDigit(s[0]))
    || (|s| == 2 && s[0] == '3' && (s[1] == '0' || s[1] == '1'))
    || (|s| == 2 && (s[0] == '1' || s[0] == '2') && IsDigit(s[1]))
    || (|s| == 2 && s[0] == '0' && IsNonZeroDigit(s[1]))
    || (|s| == 2 && s[0] == ' ' && IsNonZeroDigit(s[1]))
  }

  /** `%m` in `strptime`: `1[0-2]|0[1-9]|[1-9]`. */
  predicate MonthField(s: string) {
    (|s| == 1 && IsNonZeroDigit(s[0]))
    || (|s| == 2 && s[0] == '1' && '0' <= s[1] <= '2')
    || (|s| == 2 && s[0] == '0' && IsNonZeroDigit(s[1]))
  }

  /** `%Y` in `strptime`: exactly four digits. */
  predicate YearField(s: string) {
    |s| == 4 && AllDigits(s)
  }

  /** `int()` of a day field, which ignores its leading space. */
  function FieldValue(s: string): int {
    if |s| == 2 && s[0] == ' ' then DigitValue(s[1]) else DecimalValue(s)
  }

  /**
   * `datetime.strptime(token, '%d/%m/%Y')`, or None where it raises ValueError: the
   * token must be exactly day, `/`, month, `/`, year, and name a real calendar date.
   */
  function ParseDayMonthYear(token: string): (r: Option<DateTime>)
    ensures r.Some? ==> Valid(r.value) && SameTimeOfDay(r.value, MinDateTime)
  {
    var f := SplitOn(token, "/");
    if |f| != 3 || !DayField(f[0]) || !MonthField(f[1]) || !YearField(f[2]) then None
    else
      var d, m, y := FieldValue(f[0]), FieldValue(f[1]), DecimalValue(f[2]);
      if ValidDate(y, m, d) then Some(Midnight(y, m, d)) else None
  }

  /** A date written as `dd/mm/yyyy`. */
  function FormatDayMonthYear(t: DateTime): string
    requires Valid(t)
  {
    Padded(t.day, 2) + "/" + Padded(t.month, 2) + "/" + Padded(t.year, 4)
  }

  predicate NoSlash(s: string) {
    forall i :: 0 <= i < |s| ==> s[i] != '/'
  }

  lemma SplitAfterSlash(a: string, rest: string)
    requires NoSlash(a)
    ensures SplitOn(a + "/" + rest, "/") == [a] + SplitOn(rest, "/")
  {
    var s := a + "/" + rest;
    assert OccursAt(s, "/", |a|) by {
      assert s[|a|..|a| + 1] == "/";
    }
    forall j | 0 <= j < |a| ensures !OccursAt(s, "/", j) {
      assert s[j] == a[j];
    }
    assert FindFrom(s, "/", 0) == Some(|a|);
    assert s[..|a|] == a && s[|a| + 1..] == rest;
  }

  lemma SplitWithoutSlash(c: string)
    requires NoSlash(c)
    ensures SplitOn(c, "/") == [c]
  {
    forall j | 0 <= j ensures !OccursAt(c, "/", j) {
      if j < |c| {
        assert c[j..j + 1][0] == c[j];
      }
    }
    assert FindFrom(c, "/", 0) == None;
  }

  lemma SplitAtSlashes(a: string, b: string, c: string)
    requires AllDigits(a) && AllDigits(b) && AllDigits(c)
    ensures SplitOn(a + "/" + b + "/" + c, "/") == [a, b, c]
  {
    assert a + "/" + b + "/" + c == a + "/" + (b + "/" + c);
    SplitAfterSlash(a, b + "/" + c);
    SplitAfterSlash(b, c);
    SplitWithoutSlash(c);
  }

  lemma TwoDigits(n: nat)
    requires n < 100
    ensures Padded(n, 2) == [DigitChar(n / 10), DigitChar(n % 10)]
    ensures DecimalValue(Padded(n, 2)) == n
  {
    var q, r := n / 10, n % 10;
    assert q < 10 && q / 10 == 0 && q % 10 == q;
    assert Padded(q, 1) == [DigitChar(q)];
    var s := Padded(n, 2);
    assert s == [DigitChar(q), DigitChar(r)];
    assert s[..1] == [DigitChar(q)];
    assert DecimalValue(s[..1]) == q;
  }

  lemma TwoDigitFields(n: int)
    requires 1 <= n <= 31
    ensures DayField(Padded(n, 2)) && FieldValue(Padded(n, 2)) == n
    ensures n <= 12 ==> MonthField(Padded(n, 2)) && FieldValue(Padded(n, 2)) == n
  {
    TwoDigits(n);
    var s := Padded(n, 2);
    assert s[0] == DigitChar(n / 10) && s[1] == DigitChar(n % 10);
  }

  lemma FormattedFields(t: DateTime)
    requires Valid(t)
    ensures DayField(Padded(t.day, 2)) && FieldValue(Padded(t.day, 2)) == t.day
    ensures MonthField(Padded(t.month, 2)) && FieldValue(Padded(t.month, 2)) == t.month
    ensures YearField(Padded(t.year, 4)) && DecimalValue(Padded(t.year, 4)) == t.year
  {
    TwoDigitFields(t.day);
    TwoDigitFields(t.month);
    assert t.year < Pow10(4);
    PaddedValue(t.year, 4);
  }

  /** Every calendar date written as `dd/mm/yyyy` parses back to itself at midnight. */
  lemma ParseFormatted(t: DateTime)
    requires Valid(t)
    ensures ParseDayMonthYear(FormatDayMonthYear(t)) == Some(Midnight(t.year, t.month, t.day))
  {
    var a, b, c := Padded(t.day, 2), Padded(t.month, 2), Padded(t.year, 4);
    SplitAtSlashes(a, b, c);
    FormattedFields(t);
    var f := SplitOn(FormatDayMonthYear(t), "/");
    assert f == [a, b, c];
    assert FieldValue(f[0]) == t.day && FieldValue(f[1]) == t.month && DecimalValue(f[2]) == t.year;
  }

  /**
   * Conversely, a token that parses is day, `/`, month, `/`, year in the `strptime`
   * field forms, and names the calendar date those fields spell, at midnight.
   */
  lemma ParsedFields(token: string, t: DateTime)
    requires ParseDayMonthYear(token) == Some(t)
    ensures exists d, m, y :: token == d + "/" + m + "/" + y
              && DayField(d) && MonthField(m) && YearField(y)
              && ValidDate(DecimalValue(y), FieldValue(m), FieldValue(d))
              && t == Midnight(DecimalValue(y), FieldValue(m), FieldValue(d))
  {
    var f := SplitOn(token, "/");
    assert |f| == 3 && DayField(f[0]) && MonthField(f[1]) && YearField(f[2]);
    var d, m, y := f[0], f[1], f[2];
    assert ValidDate(DecimalValue(y), FieldValue(m), FieldValue(d));
    SplitOnJoin(token, "/");
    JoinThree(f, "/");
    assert token == d + "/" + m + "/" + y;
  }

  /** A text with no other `To` splits at its one `To` into what is before and after. */
  lemma SplitOnceAtTo(a: string, b: string)
    requires !Contains(a, "To") && !Contains(b, "To")
    ensures Contains(a + "To" + b, "To")
    ensures SplitOn(a + "To" + b, "To") == [a, b]
  {
    var s := a + "To" + b;
    OccursInside(a, "To", b);
    ContainsMeansOccurs(a, "To");
    forall j | 0 <= j < |a| ensures !OccursAt(s, "To", j) {
      if j + 2 <= |a| {
        assert s[j..j + 2] == a[j..j + 2];
        assert !OccursAt(a, "To", j);
      } else {
        assert s[j + 1] == 'T';
      }
    }
    assert FindFrom(s, "To", 0) == Some(|a|);
    assert s[..|a|] == a && s[|a| + 2..] == b;
    assert FindFrom(b, "To", 0).None?;
  }

  /** `dd/mm/yyyy` is ten characters, each a digit or `/`. */
  lemma FormattedChars(t: DateTime)
    requires Valid(t)
    ensures var v := FormatDayMonthYear(t);
            |v| == 10 && forall i :: 0 <= i < |v| ==> IsDigit(v[i]) || v[i] == '/'
  {
    var a, b, c := Padded(t.day, 2), Padded(t.month, 2), Padded(t.year, 4);
    FormattedFields(t);
    var v := FormatDayMonthYear(t);
    assert v == a + "/" + b + "/" + c;
    forall i | 0 <= i < |v| ensures IsDigit(v[i]) || v[i] == '/' {
      if i < 2 {
        assert v[i] == a[i];
      } else if 3 <= i < 5 {
        assert v[i] == b[i - 3];
      } else if 6 <= i {
        assert v[i] == c[i - 6];
      }
    }
  }

  /**
   * A coverage text `a + "To" + w + dd/mm/yyyy + c` parses to that date at midnight,
   * whenever `a` and `c` hold no other `To`, `w` is whitespace, and `c` is empty or
   * starts with whitespace so that the date is a token of its own.
   */
  lemma ParseCoverageOf(a: string, w: string, t: DateTime, c: string)
    requires Valid(t) && !Contains(a, "To") && !Contains(c, "To")
    requires forall i :: 0 <= i < |w| ==> IsSpace(w[i])
    requires c == [] || IsSpace(c[0])
    ensures ParseCoverage(a + "To" + w + FormatDayMonthYear(t) + c) == Some(Midnight(t.year, t.month, t.day))
  {
    var v := FormatDayMonthYear(t);
    FormattedChars(t);
    var wv := w + v;
    assert forall i :: 0 <= i < |wv| ==> wv[i] != 'T' by {
      forall i | 0 <= i < |wv| ensures wv[i] != 'T' {
        if i < |w| {
          assert wv[i] == w[i];
        } else {
          assert wv[i] == v[i - |w|];
        }
      }
    }
    NoOccurrenceAfter(wv, c, "To");
    var b := wv + c;
    assert a + "To" + w + v + c == a + "To" + b;
    SplitOnceAtTo(a, b);
    assert IsWord(v);
    FirstTokenOfWord(w, v, c);
    assert w + v + c == b;
    ParseFormatted(t);
  }

  /**
   * One temporal-coverage text: it must contain `To` exactly once (`split("To")`
   * gives two parts), and the first token after it must parse. None stands for both
   * "skipped" and "could not parse, logged".
   */
  function ParseCoverage(text: string): (r: Option<DateTime>)
    ensures r.Some? ==> Valid(r.value) && |SplitOn(text, "To")| == 2
  {
    if !Contains(text, "To") then None
    else
      var parts := SplitOn(text, "To");
      if |parts| != 2 then None
      else
        // `parts[1].strip().split()[0]`; the strip changes nothing (Text.FirstTokenStrip)
        match FirstToken(parts[1])
        case None => None
        case Some(token) => ParseDayMonthYear(token)
  }

  /** The date of the first text that parses; the loop breaks there. */
  function FirstCoverageDate(texts: seq<string>): (r: Option<DateTime>)
    ensures r.Some? ==> Valid(r.value)
    decreases |texts|
  {
    if texts == [] then None
    else
      var first := ParseCoverage(texts[0]);
      if first.Some? then first else FirstCoverageDate(texts[1..])
  }

  /** No date is found exactly when no text parses. */
  lemma {:induction false} FirstCoverageDateNone(texts: seq<string>)
    ensures FirstCoverageDate(texts).None? <==> forall i :: 0 <= i < |texts| ==> ParseCoverage(texts[i]).None?
    decreases |texts|
  {
    if texts != [] {
      var rest := texts[1..];
      FirstCoverageDateNone(rest);
      assert forall i :: 1 <= i < |texts| ==> rest[i - 1] == texts[i];
    }
  }

  /** The date found is that of the first text that parses. */
  lemma {:induction false} FirstParseWins(texts: seq<string>, i: nat)
    requires i < |texts| && ParseCoverage(texts[i]).Some?
    requires forall j :: 0 <= j < i ==> ParseCoverage(texts[j]).None?
    ensures FirstCoverageDate(texts) == ParseCoverage(texts[i])
    decreases i
  {
    if i > 0 {
      var rest := texts[1..];
      assert ParseCoverage(texts[0]).None?;
      assert FirstCoverageDate(texts) == FirstCoverageDate(rest);
      assert forall j :: 0 <= j < i - 1 ==> rest[j] == texts[j + 1];
      assert rest[i - 1] == texts[i];
      FirstParseWins(rest, i - 1);
    }
  }

  /** `parsed_end_date`, with `datetime.now()` as the fallback. */
  function ItemDate(texts: seq<string>, now: DateTime): DateTime {
    FirstCoverageDate(texts).GetOr(now)
  }

  /** The date loop of `find_latest_files`: try each text in turn, stop at the first that parses. */
  method EndDate(texts: seq<string>, now: DateTime) returns (d: DateTime)
    ensures d == ItemDate(texts, now)
    ensures Valid(now) ==> Valid(d)
    ensures (forall i :: 0 <= i < |texts| ==> ParseCoverage(texts[i]).None?) ==> d == now
  {
    var parsed: Option<DateTime> := None;
    var i := 0;
    while i < |texts|
      invariant 0 <= i <= |texts|
      invariant forall j :: 0 <= j < i ==> ParseCoverage(texts[j]).None?
      invariant parsed.None?
    {
      var p := ParseCoverage(texts[i]);
      if p.Some? {
        parsed := p;
        break;
      }
      i := i + 1;
    }
    assert parsed.Some? ==> i < |texts| && parsed == ParseCoverage(texts[i]);
    if parsed.None? {
      d := now;
    } else {
      FirstParseWins(texts, i);
      d := parsed.value;
    }
    FirstCoverageDateNone(texts);
  }
}
