/**
 * Text the widget produces from dates: `String(n)`, `padStart`, `toISO`
 * (`YYYY-MM-DD` with an unpadded year) and the token-replacing
 * `formatDisplay` of the input field.
 */
module DateText {
  import opened Wrappers
  import opened DateUtils

  // ---------- decimal numerals ----------

  predicate IsDigit(c: char) {
    '0' <= c <= '9'
  }

  predicate AllDigits(s: string) {
    forall i :: 0 <= i < |s| ==> IsDigit(s[i])
  }

  /** Digits, possibly with a minus sign: what `String` writes for an integer. */
  predicate IsNumeral(s: string) {
    forall i :: 0 <= i < |s| ==> IsDigit(s[i]) || s[i] == '-'
  }

  function DigitChar(n: int): (c: char)
    requires 0 <= n < 10
    ensures IsDigit(c) && c as int - '0' as int == n
  {
    (n + '0' as int) as char
  }

  /** `String(n)` for a non-negative integer: its decimal digits without leading zeros. */
  function NatToString(n: nat): (s: string)
    ensures |s| >= 1 && AllDigits(s)
    ensures |s| == 1 <==> n < 10
    ensures n >= 10 ==> s[0] != '0'
    decreases n
  {
    if n < 10 then [DigitChar(n)] else NatToString(n / 10) + [DigitChar(n % 10)]
  }

  /** `String(n)` for any integer: a minus sign before the digits of a negative number. */
  function IntToString(n: int): (s: string)
    ensures |s| >= 1 && IsNumeral(s)
  {
    if n < 0 then "-" + NatToString(-n) else NatToString(n)
  }

  /** The number a string of decimal digits denotes (the empty string denotes 0). */
  function DigitsValue(s: string): nat
    requires AllDigits(s)
    decreases |s|
  {
    if |s| == 0 then 0 else DigitsValue(s[..|s| - 1]) * 10 + (s[|s| - 1] as int - '0' as int)
  }

  /** Reading back the digits `String(n)` writes gives `n`. */
  lemma {:induction false} NatToStringRoundTrip(n: nat)
    ensures DigitsValue(NatToString(n)) == n
    decreases n
  {
    if n >= 10 {
      var s := NatToString(n);
      assert s[..|s| - 1] == NatToString(n / 10);
      NatToStringRoundTrip(n / 10);
    }
  }

  /** `s.padStart(width, fill)`: `fill` repeated in front of `s` up to `width` characters. */
  function PadStart(s: string, width: nat, fill: char): (r: string)
    ensures |r| == if |s| >= width then |s| else width
    ensures r[|r| - |s|..] == s
    ensures forall i :: 0 <= i < |r| - |s| ==> r[i] == fill
    decreases width - |s|
  {
    if |s| >= width then s
    else
      var r := PadStart([fill] + s, width, fill);
      assert r[|r| - |s|..] == ([fill] + s)[1..];
      r
  }

  /** A month or day field: two decimal digits, a leading zero below 10. */
  function TwoDigits(n: nat): (r: string)
    requires n < 100
    ensures |r| == 2 && AllDigits(r)
  {
    [DigitChar(n / 10), DigitChar(n % 10)]
  }

  /** The two digits denote `n`. */
  lemma TwoDigitsValue(n: nat)
    requires n < 100
    ensures DigitsValue(TwoDigits(n)) == n
  {
    var r := TwoDigits(n);
    assert r[..1] == [DigitChar(n / 10)];
    assert DigitsValue(r[..1]) == n / 10;
  }

  /** Padding one character to width 2 puts one `fill` in front of it. */
  lemma PadOne(s: string, fill: char)
    requires |s| == 1
    ensures PadStart(s, 2, fill) == [fill] + s
  {
    assert PadStart(s, 2, fill) == PadStart([fill] + s, 2, fill);
  }

  /** The two digits are `String(n).padStart(2, "0")`, the widget's own expression. */
  lemma TwoDigitsIsPadded(n: nat)
    requires n < 100
    ensures TwoDigits(n) == PadStart(NatToString(n), 2, '0')
  {
    if n < 10 {
      OneDigitIsPadded(n);
    } else {
      TwoDigitNumeral(n);
    }
  }

  lemma OneDigitIsPadded(n: nat)
    requires n < 10
    ensures TwoDigits(n) == PadStart(NatToString(n), 2, '0')
  {
    var s := NatToString(n);
    assert s == [DigitChar(n)];
    PadOne(s, '0');
    assert n / 10 == 0 && n % 10 == n;
  }

  lemma TwoDigitNumeral(n: nat)
    requires 10 <= n < 100
    ensures TwoDigits(n) == PadStart(NatToString(n), 2, '0')
  {
    var s := NatToString(n);
    assert NatToString(n / 10) == [DigitChar(n / 10)];
    assert s == [DigitChar(n / 10)] + [DigitChar(n % 10)];
  }

  // ---------- toISO ----------

  /** Where the fields sit in `year-MM-DD`. */
  lemma IsoLayout(year: string, month: string, day: string)
    requires |month| == 2 && |day| == 2
    ensures var s := year + "-" + month + "-" + day;
            && |s| == |year| + 6
            && s[..|year|] == year && s[|year|] == '-' && s[|year| + 3] == '-'
            && s[|year| + 1..|year| + 3] == month && s[|year| + 4..] == day
  {
    var s := year + "-" + month + "-" + day;
    assert s[..|year|] == year;
    assert s[|year| + 1..|year| + 3] == month;
    assert s[|year| + 4..] == day;
  }

  /** The text `year-MM-DD` for a year and a one-based month and day. */
  function IsoText(year: int, month: nat, day: nat): (s: string)
    requires month < 100 && day < 100
    ensures var ys := IntToString(year);
            && |s| == |ys| + 6 && s[..|ys|] == ys
            && s[|ys|] == '-' && s[|ys| + 3] == '-'
  {
    var ys, ms, ds := IntToString(year), TwoDigits(month), TwoDigits(day);
    IsoLayout(ys, ms, ds);
    ys + "-" + ms + "-" + ds
  }

  /**
   * `toISO(d)`: the year as `String` writes it, `-`, the month 01-12, `-`,
   * the day 01-31. The source clamps to midnight first, which leaves the
   * calendar fields as they are.
   */
  function ToISO(x: Date): (s: string)
    ensures var ys := IntToString(x.date.year);
            && |s| == |ys| + 6 && s[..|ys|] == ys
            && s[|ys|] == '-' && s[|ys| + 3] == '-'
  {
    IsoText(x.date.year, x.date.month + 1, x.date.day)
  }

  /** Reads a year written by `String`: optional minus sign, then at least one digit. */
  function ParseYear(t: string): Option<int> {
    if |t| > 1 && t[0] == '-' && AllDigits(t[1..]) then Some(-(DigitsValue(t[1..]) as int))
    else if |t| > 0 && AllDigits(t) then Some(DigitsValue(t))
    else None
  }

  /**
   * A strict decoder for the strings `toISO` writes: year, `-`, two-digit
   * month, `-`, two-digit day, naming a day of the calendar.
   */
  function ParseISODate(s: string): Option<Day> {
    if |s| < 7 || s[|s| - 6] != '-' || s[|s| - 3] != '-' then None
    else
      var year := ParseYear(s[..|s| - 6]);
      if year.None? then None else FieldsToDay(year.value, s[|s| - 5..|s| - 3], s[|s| - 2..])
  }

  /** The day named by a year and the month and day digit fields, if it exists. */
  function FieldsToDay(y: int, ms: string, ds: string): Option<Day> {
    if !AllDigits(ms) || !AllDigits(ds) then None
    else
      var mo, d := DigitsValue(ms), DigitsValue(ds);
      if 1 <= mo <= 12 && 1 <= d <= MonthLength(y, mo - 1) then Some(CalendarDay(y, mo - 1, d))
      else None
  }

  lemma ParseYearRoundTrip(y: int)
    ensures ParseYear(IntToString(y)) == Some(y)
  {
    NatToStringRoundTrip(if y < 0 then -y else y);
    if y < 0 {
      assert IntToString(y)[1..] == NatToString(-y);
    }
  }

  /** Decoding the text `year-MM-DD` gives back that calendar day. */
  lemma ParseIsoText(year: int, month: nat, day: nat)
    requires 1 <= month <= 12 && 1 <= day <= MonthLength(year, month - 1)
    ensures ParseISODate(IsoText(year, month, day)) == Some(CalendarDay(year, month - 1, day))
  {
    var ys, ms, ds := IntToString(year), TwoDigits(month), TwoDigits(day);
    ParseYearRoundTrip(year);
    TwoDigitsValue(month);
    TwoDigitsValue(day);
    ParseIsoParts(ys, ms, ds, year);
    FieldsOfDay(year, ms, ds, month, day);
  }

  lemma ParseIsoParts(ys: string, ms: string, ds: string, year: int)
    requires |ms| == 2 && |ds| == 2 && ParseYear(ys) == Some(year)
    ensures ParseISODate(ys + "-" + ms + "-" + ds) == FieldsToDay(year, ms, ds)
  {
    var s := ys + "-" + ms + "-" + ds;
    IsoLayout(ys, ms, ds);
    assert s[..|s| - 6] == ys;
    assert s[|s| - 5..|s| - 3] == ms;
    assert s[|s| - 2..] == ds;
  }

  lemma FieldsOfDay(year: int, ms: string, ds: string, month: nat, day: nat)
    requires 1 <= month <= 12 && 1 <= day <= MonthLength(year, month - 1)
    requires AllDigits(ms) && AllDigits(ds) && DigitsValue(ms) == month && DigitsValue(ds) == day
    ensures FieldsToDay(year, ms, ds) == Some(CalendarDay(year, month - 1, day))
  {
  }

  /**
   * The fields of `toISO(x)`: the year as `String` writes it, `-`, two
   * digits for the month 01-12, `-`, two digits for the day of the month.
   */
  lemma ToISOFields(x: Date)
    ensures var s, ys := ToISO(x), IntToString(x.date.year);
            && |s| == |ys| + 6 && s[..|ys|] == ys && s[|ys|] == '-' && s[|ys| + 3] == '-'
            && AllDigits(s[|ys| + 1..|ys| + 3]) && DigitsValue(s[|ys| + 1..|ys| + 3]) == x.date.month + 1
            && AllDigits(s[|ys| + 4..]) && DigitsValue(s[|ys| + 4..]) == x.date.day
            && 1 <= x.date.month + 1 <= 12 && 1 <= x.date.day <= MonthLength(x.date.year, x.date.month)
  {
    var ys, ms, ds := IntToString(x.date.year), TwoDigits(x.date.month + 1), TwoDigits(x.date.day);
    IsoLayout(ys, ms, ds);
    TwoDigitsValue(x.date.month + 1);
    TwoDigitsValue(x.date.day);
  }

  /** `toISO` loses nothing but the time of day: decoding its output gives back the calendar day. */
  lemma ToISORoundTrip(x: Date)
    ensures ParseISODate(ToISO(x)) == Some(x.date)
  {
    ParseIsoText(x.date.year, x.date.month + 1, x.date.day);
  }

  /** Two dates have the same ISO string exactly when they fall on the same calendar day. */
  lemma ToISOInjective(a: Date, b: Date)
    ensures ToISO(a) == ToISO(b) <==> a.date == b.date
  {
    if a.date != b.date {
      ToISORoundTrip(a);
      ToISORoundTrip(b);
    }
  }

  // ---------- replace(/token/g, repl) ----------

  /** `t` occurs in `s` at index `k`. */
  predicate OccursAt(s: string, t: string, k: int) {
    0 <= k && k + |t| <= |s| && s[k..k + |t|] == t
  }

  /** `t` occurs nowhere in `s`. */
  ghost predicate Avoids(s: string, t: string) {
    forall k :: !OccursAt(s, t, k)
  }

  /** No character of `a` is a character of `b`. */
  predicate NoCommonChar(a: string, b: string) {
    forall c :: c in a ==> c !in b
  }

  /**
   * `s.replace(/token/g, repl)` for a token without regular-expression
   * metacharacters and a replacement without `$` patterns: occurrences are
   * found from left to right, do not overlap, and each is replaced by `repl`.
   */
  function ReplaceAll(s: string, token: string, repl: string): (r: string)
    requires |token| > 0
    ensures forall c :: c in r ==> c in s || c in repl
    decreases |s|
  {
    if |s| == 0 then ""
    else if token <= s then repl + ReplaceAll(s[|token|..], token, repl)
    else [s[0]] + ReplaceAll(s[1..], token, repl)
  }

  /** A prefix that starts no occurrence of the token is copied unchanged. */
  lemma {:induction false} ReplaceAllSkips(a: string, b: string, token: string, repl: string)
    requires |token| > 0 && token[0] !in a
    ensures ReplaceAll(a + b, token, repl) == a + ReplaceAll(b, token, repl)
    decreases |a|
  {
    if |a| > 0 {
      var s := a + b;
      assert s[0] == a[0] && s[1..] == a[1..] + b;
      assert !(token <= s) by {
        assert a[0] in a;
        assert s[0] != token[0];
      }
      assert ReplaceAll(s, token, repl) == [s[0]] + ReplaceAll(s[1..], token, repl);
      ReplaceAllSkips(a[1..], b, token, repl);
      assert ReplaceAll(s[1..], token, repl) == a[1..] + ReplaceAll(b, token, repl);
      assert [s[0]] + (a[1..] + ReplaceAll(b, token, repl)) == a + ReplaceAll(b, token, repl);
    } else {
      assert a + b == b;
    }
  }

  /** A string without the token's first character is left as it is. */
  lemma ReplaceAllIdentity(s: string, token: string, repl: string)
    requires |token| > 0 && token[0] !in s
    ensures ReplaceAll(s, token, repl) == s
  {
    ReplaceAllSkips(s, "", token, repl);
    assert s + "" == s;
  }

  /**
   * Output characters that are not replacement characters were copied from
   * the input: if the first `j` characters of the output avoid `repl`'s,
   * they are the first `j` characters of the input.
   */
  lemma {:induction false} ReplaceAllPrefix(s: string, token: string, repl: string, j: nat)
    requires |token| > 0 && |repl| > 0 && j <= |ReplaceAll(s, token, repl)|
    ensures (forall i :: 0 <= i < j ==> ReplaceAll(s, token, repl)[i] !in repl) ==>
              j <= |s| && s[..j] == ReplaceAll(s, token, repl)[..j]
    decreases |s|
  {
    var r := ReplaceAll(s, token, repl);
    if j > 0 && |s| > 0 {
      if token <= s {
        assert r[0] == repl[0] && repl[0] in repl;
      } else {
        var rest := ReplaceAll(s[1..], token, repl);
        assert r == [s[0]] + rest;
        ReplaceAllPrefix(s[1..], token, repl, j - 1);
        if forall i :: 0 <= i < j ==> r[i] !in repl {
          assert forall i :: 0 <= i < j - 1 ==> rest[i] == r[i + 1];
          assert s[..j] == [s[0]] + s[1..][..j - 1];
        }
      }
    }
  }

  /** An occurrence in the output at index 0 made of characters outside `repl` was already in the input. */
  lemma OccursAtStart(s: string, token: string, repl: string, q: string)
    requires |token| > 0 && |repl| > 0 && NoCommonChar(repl, q)
    ensures OccursAt(ReplaceAll(s, token, repl), q, 0) ==> OccursAt(s, q, 0)
  {
    var r := ReplaceAll(s, token, repl);
    if |q| <= |r| {
      ReplaceAllPrefix(s, token, repl, |q|);
      if OccursAt(r, q, 0) {
        forall i | 0 <= i < |q| ensures r[i] !in repl {
          assert r[i] == q[i] && q[i] in q;
        }
      }
    }
  }

  /** No occurrence of `q` starts at a character that `q` does not contain. */
  lemma NoOccurrenceAtForeignChar(r: string, q: string, k: int)
    requires 0 <= k < |r| && |q| > 0 && r[k] !in q
    ensures !OccursAt(r, q, k)
  {
    if k + |q| <= |r| {
      assert r[k..k + |q|][0] == r[k] && q[0] in q;
    }
  }

  /** Occurrences past a prefix are the occurrences in the rest, shifted. */
  lemma OccursShift(head: string, rest: string, q: string, k: int)
    requires |head| <= k
    ensures OccursAt(head + rest, q, k) <==> OccursAt(rest, q, k - |head|)
  {
    if k + |q| <= |head + rest| {
      assert (head + rest)[k..k + |q|] == rest[k - |head|..k - |head| + |q|];
    }
  }

  /** After `replace(/token/g, repl)` with a replacement sharing no character with the token, no token is left. */
  lemma {:induction false} ReplaceAllRemovesToken(s: string, token: string, repl: string)
    requires |token| > 0 && |repl| > 0 && NoCommonChar(repl, token)
    ensures Avoids(ReplaceAll(s, token, repl), token)
    decreases |s|
  {
    var r := ReplaceAll(s, token, repl);
    if |s| > 0 {
      var n := if token <= s then |token| else 1;
      var head := if token <= s then repl else [s[0]];
      var rest := ReplaceAll(s[n..], token, repl);
      assert r == head + rest;
      ReplaceAllRemovesToken(s[n..], token, repl);
      OccursAtStart(s, token, repl, token);
      forall k ensures !OccursAt(r, token, k) {
        if 0 <= k < |head| && token <= s {
          assert r[k] == repl[k] && repl[k] in repl;
          NoOccurrenceAtForeignChar(r, token, k);
        } else if |head| <= k {
          OccursShift(head, rest, token, k);
        }
      }
    }
  }

  /** `replace(/token/g, repl)` creates no occurrence of a string `q` whose characters `repl` does not use. */
  lemma {:induction false} ReplaceAllKeepsAbsent(s: string, token: string, repl: string, q: string)
    requires |token| > 0 && |repl| > 0 && |q| > 0 && NoCommonChar(repl, q) && Avoids(s, q)
    ensures Avoids(ReplaceAll(s, token, repl), q)
    decreases |s|
  {
    var r := ReplaceAll(s, token, repl);
    if |s| > 0 {
      var n := if token <= s then |token| else 1;
      var head := if token <= s then repl else [s[0]];
      var rest := ReplaceAll(s[n..], token, repl);
      assert r == head + rest;
      assert s == s[..n] + s[n..];
      forall k | 0 <= k ensures !OccursAt(s[n..], q, k) {
        OccursShift(s[..n], s[n..], q, k + n);
      }
      ReplaceAllKeepsAbsent(s[n..], token, repl, q);
      OccursAtStart(s, token, repl, q);
      forall k ensures !OccursAt(r, q, k) {
        if 0 <= k < |head| && token <= s {
          assert r[k] == repl[k] && repl[k] in repl;
          NoOccurrenceAtForeignChar(r, q, k);
        } else if |head| <= k {
          OccursShift(head, rest, q, k);
        }
      }
    }
  }

  // ---------- formatDisplay ----------

  /**
   * The replacement chain of `formatDisplay`: every `yyyy` of the pattern
   * becomes `year`, then every `MM` becomes `month`, then every `dd` `day`.
   */
  function FormatFields(pattern: string, year: string, month: string, day: string): (r: string)
    ensures forall c :: c in r ==> c in pattern || c in year || c in month || c in day
  {
    ReplaceAll(ReplaceAll(ReplaceAll(pattern, "yyyy", year), "MM", month), "dd", day)
  }

  /** `formatDisplay(date)` for a display pattern. */
  function FormatDisplay(x: Date, pattern: string): (r: string)
    ensures forall c :: c in r ==> c in pattern || IsDigit(c) || c == '-'
  {
    FormatFields(pattern, IntToString(x.date.year), TwoDigits(x.date.month + 1), TwoDigits(x.date.day))
  }

  lemma NumeralAvoidsTokens(s: string)
    requires IsNumeral(s)
    ensures NoCommonChar(s, "yyyy") && NoCommonChar(s, "MM") && NoCommonChar(s, "dd")
  {
    forall c | c in s ensures c != 'y' && c != 'M' && c != 'd' {
      var i :| 0 <= i < |s| && s[i] == c;
    }
  }

  /** With numeral fields, no `yyyy`, `MM` or `dd` is left after the chain. */
  lemma FormatFieldsReplacesEveryToken(pattern: string, year: string, month: string, day: string)
    requires |year| > 0 && |month| > 0 && |day| > 0
    requires IsNumeral(year) && IsNumeral(month) && IsNumeral(day)
    ensures var r := FormatFields(pattern, year, month, day);
            Avoids(r, "yyyy") && Avoids(r, "MM") && Avoids(r, "dd")
  {
    NumeralAvoidsTokens(year);
    NumeralAvoidsTokens(month);
    NumeralAvoidsTokens(day);
    var s1 := ReplaceAll(pattern, "yyyy", year);
    var s2 := ReplaceAll(s1, "MM", month);
    ReplaceAllRemovesToken(pattern, "yyyy", year);
    ReplaceAllRemovesToken(s1, "MM", month);
    ReplaceAllKeepsAbsent(s1, "MM", month, "yyyy");
    ReplaceAllRemovesToken(s2, "dd", day);
    ReplaceAllKeepsAbsent(s2, "dd", day, "yyyy");
    ReplaceAllKeepsAbsent(s2, "dd", day, "MM");
  }

  /** No `yyyy`, `MM` or `dd` is left in the displayed text, whatever the pattern. */
  lemma FormatDisplayReplacesEveryToken(x: Date, pattern: string)
    ensures var r := FormatDisplay(x, pattern);
            Avoids(r, "yyyy") && Avoids(r, "MM") && Avoids(r, "dd")
  {
    FormatFieldsReplacesEveryToken(pattern, IntToString(x.date.year), TwoDigits(x.date.month + 1), TwoDigits(x.date.day));
  }

  /** A pattern without `y`, `M` or `d` is displayed as it is. */
  lemma FormatDisplayKeepsLiterals(x: Date, pattern: string)
    requires 'y' !in pattern && 'M' !in pattern && 'd' !in pattern
    ensures FormatDisplay(x, pattern) == pattern
  {
    ReplaceAllIdentity(pattern, "yyyy", IntToString(x.date.year));
    ReplaceAllIdentity(pattern, "MM", TwoDigits(x.date.month + 1));
    ReplaceAllIdentity(pattern, "dd", TwoDigits(x.date.day));
  }

  /** A single occurrence of the token, between text without its first character, is replaced. */
  lemma ReplaceOneToken(pre: string, token: string, post: string, repl: string)
    requires |token| > 0 && token[0] !in pre && token[0] !in post
    ensures ReplaceAll(pre + token + post, token, repl) == pre + repl + post
  {
    assert pre + token + post == pre + (token + post);
    ReplaceAllSkips(pre, token + post, token, repl);
    assert (token + post)[|token|..] == post;
    assert ReplaceAll(token + post, token, repl) == repl + ReplaceAll(post, token, repl);
    ReplaceAllIdentity(post, token, repl);
  }

  /** The default pattern lays the three fields out as `year-month-day`. */
  lemma FormatFieldsDefault(year: string, month: string, day: string)
    requires IsNumeral(year) && IsNumeral(month)
    ensures FormatFields("yyyy-MM-dd", year, month, day) == year + "-" + month + "-" + day
  {
    NumeralAvoidsTokens(year);
    NumeralAvoidsTokens(month);
    assert 'M' !in year && 'd' !in year && 'd' !in month by {
      assert "MM"[0] == 'M' && "dd"[0] == 'd';
    }
    DefaultYearStep(year);
    DefaultMonthStep(year, month);
    var pre := year + "-" + month + "-";
    assert year + "-" + month + "-dd" == pre + "dd";
    assert 'd' !in pre;
    DefaultDayStep(pre, day);
  }

  lemma DefaultYearStep(year: string)
    ensures ReplaceAll("yyyy-MM-dd", "yyyy", year) == year + "-MM-dd"
  {
    var s := "yyyy-MM-dd";
    assert "yyyy" <= s && s[4..] == "-MM-dd";
    assert "yyyy"[0] == 'y';
    ReplaceAllIdentity("-MM-dd", "yyyy", year);
  }

  lemma DefaultMonthStep(year: string, month: string)
    requires 'M' !in year
    ensures ReplaceAll(year + "-MM-dd", "MM", month) == year + "-" + month + "-dd"
  {
    assert year + "-MM-dd" == (year + "-") + "MM" + "-dd";
    ReplaceOneToken(year + "-", "MM", "-dd", month);
  }

  lemma DefaultDayStep(pre: string, day: string)
    requires 'd' !in pre
    ensures ReplaceAll(pre + "dd", "dd", day) == pre + day
  {
    assert pre + "dd" == pre + "dd" + "";
    ReplaceOneToken(pre, "dd", "", day);
  }

  /** With the default pattern `yyyy-MM-dd` the field shows exactly `toISO` of the date. */
  lemma FormatDefaultIsISO(x: Date)
    ensures FormatDisplay(x, "yyyy-MM-dd") == ToISO(x)
  {
    FormatFieldsDefault(IntToString(x.date.year), TwoDigits(x.date.month + 1), TwoDigits(x.date.day));
  }

  lemma ExampleNumerals()
    ensures IntToString(2025) == "2025" && TwoDigits(3) == "03" && TwoDigits(7) == "07"
  {
    assert NatToString(20) == "20";
    assert NatToString(202) == "202";
  }

  /** The pattern `dd/MM/yyyy` lays the three fields out as `day/month/year`. */
  lemma FormatFieldsSlashed(year: string, month: string, day: string)
    requires IsNumeral(year) && IsNumeral(month)
    ensures FormatFields("dd/MM/yyyy", year, month, day) == day + "/" + month + "/" + year
  {
    SlashedYearStep(year);
    SlashedMonthStep(year, month);
    SlashedDayStep(year, month, day);
  }

  lemma SlashedYearStep(year: string)
    ensures ReplaceAll("dd/MM/yyyy", "yyyy", year) == "dd/" + "MM" + ("/" + year)
  {
    assert "dd/MM/yyyy" == "dd/MM/" + "yyyy" + "";
    ReplaceOneToken("dd/MM/", "yyyy", "", year);
    assert "dd/MM/" + year + "" == "dd/" + "MM" + ("/" + year);
  }

  lemma SlashedMonthStep(year: string, month: string)
    requires IsNumeral(year)
    ensures ReplaceAll("dd/" + "MM" + ("/" + year), "MM", month) == "dd" + ("/" + month + ("/" + year))
  {
    NumeralAvoidsTokens(year);
    assert 'M' !in "/" + year by {
      assert "MM"[0] == 'M';
    }
    ReplaceOneToken("dd/", "MM", "/" + year, month);
    assert "dd/" + month + ("/" + year) == "dd" + ("/" + month + ("/" + year));
  }

  lemma SlashedDayStep(year: string, month: string, day: string)
    requires IsNumeral(year) && IsNumeral(month)
    ensures ReplaceAll("dd" + ("/" + month + ("/" + year)), "dd", day) == day + "/" + month + "/" + year
  {
    var tail := "/" + month + ("/" + year);
    NumeralAvoidsTokens(year);
    NumeralAvoidsTokens(month);
    assert 'd' !in tail by {
      assert "dd"[0] == 'd';
    }
    var s := "dd" + tail;
    assert "dd" <= s && s[2..] == tail;
    ReplaceAllIdentity(tail, "dd", day);
    SlashJoin(day, month, year);
  }

  lemma SlashJoin(day: string, month: string, year: string)
    ensures day + ("/" + month + ("/" + year)) == day + "/" + month + "/" + year
  {
  }

  /** The fields of 2025-03-07 are `2025`, `03` and `07`, whatever the pattern. */
  lemma ExampleFields(pattern: string)
    ensures FormatDisplay(Midnight(CalendarDay(2025, 2, 7)), pattern) == FormatFields(pattern, "2025", "03", "07")
  {
    ExampleNumerals();
  }

  /** Example: `toISO` of 7 March 2025. */
  lemma ToISOExample()
    ensures ToISO(Midnight(CalendarDay(2025, 2, 7))) == "2025-03-07"
  {
    ExampleNumerals();
    assert "2025" + "-" + "03" + "-" + "07" == "2025-03-07";
  }

  /** Example: 2025-03-07 shown with the default pattern `yyyy-MM-dd`. */
  lemma FormatDefaultExample()
    ensures FormatDisplay(Midnight(CalendarDay(2025, 2, 7)), "yyyy-MM-dd") == "2025-03-07"
  {
    FormatDefaultIsISO(Midnight(CalendarDay(2025, 2, 7)));
    ToISOExample();
  }

  /** With the pattern `dd/MM/yyyy` the field shows the day, the month and the year, slash-separated. */
  lemma FormatSlashed(x: Date)
    ensures FormatDisplay(x, "dd/MM/yyyy") == TwoDigits(x.date.day) + "/" + TwoDigits(x.date.month + 1) + "/" + IntToString(x.date.year)
  {
    FormatFieldsSlashed(IntToString(x.date.year), TwoDigits(x.date.month + 1), TwoDigits(x.date.day));
  }
}
