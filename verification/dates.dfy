/** The part of a JavaScript `Date` the blog engine reads: its time value
    (what `b.date - a.date` subtracts), the local calendar fields behind
    `getFullYear` and `getMonth`, and the text of `toString`. How the
    calendar fields follow from the time value depends on the time zone,
    so here they are independent fields of a valid date. */
module Dates {
  import opened Text

  /** `month` is `getMonth() + 1`, `weekday` is `getDay()`, and `clock`
      stands for the time-of-day and time-zone text that `toString` puts
      after the year ("10:00:00 GMT+0100 (Central European Time)"). */
  datatype Date = Date(time: int, year: int, month: nat, day: nat, weekday: nat, clock: string)

  /** A date that parsed: calendar fields in range, and a clock text that
      starts with the hour, not with whitespace. */
  predicate Valid(d: Date) {
    && 1 <= d.month <= 12
    && 1 <= d.day <= 31
    && d.weekday < 7
    && |d.clock| > 0 && !IsSpace(d.clock[0])
  }

  /** The dates a successful `Date.parse` yields. */
  type ValidDate = d: Date | Valid(d) witness Date(0, 1970, 1, 1, 4, "00:00:00 GMT+0000")

  /** The month names of `toString` (ECMAScript, section 21.4.4.41.2, Table
      "Names of months of the year"). */
  function MonthName(month: nat): (r: string)
    requires 1 <= month <= 12
    ensures |r| == 3 && IsUpper(r[0]) && IsLower(r[1]) && IsLower(r[2])
  {
    match month
    case 1 => "Jan" case 2 => "Feb" case 3 => "Mar" case 4 => "Apr"
    case 5 => "May" case 6 => "Jun" case 7 => "Jul" case 8 => "Aug"
    case 9 => "Sep" case 10 => "Oct" case 11 => "Nov" case _ => "Dec"
  }

  function WeekdayName(weekday: nat): (r: string)
    requires weekday < 7
    ensures |r| == 3 && IsUpper(r[0]) && IsLower(r[1]) && IsLower(r[2])
  {
    match weekday
    case 0 => "Sun" case 1 => "Mon" case 2 => "Tue" case 3 => "Wed"
    case 4 => "Thu" case 5 => "Fri" case _ => "Sat"
  }

  /** The day of the month, zero-padded to two digits. */
  function DayToken(d: Date): (r: string)
    requires Valid(d)
  {
    Padded(d.day, 2)
  }

  /** The year, zero-padded to four digits, with a "-" before a negative
      one. */
  function YearToken(d: Date): (r: string)
  {
    if d.year >= 0 then Padded(d.year, 4) else "-" + Padded(-d.year, 4)
  }

  /** `d.toString()`: weekday, month, day and year separated by single
      spaces, then the clock text. */
  function ToString(d: Date): string
    requires Valid(d)
  {
    WeekdayName(d.weekday) + " " + MonthName(d.month) + " " + DayToken(d) + " " + YearToken(d) + " " + d.clock
  }

  /** `getMonth() + 1` as `archive` keys it: `.toString().padStart(2, '0')`. */
  function MonthKey(d: Date): (r: string)
    requires Valid(d)
  {
    Padded(d.month, 2)
  }

  /** The tokens of `toString` hold no whitespace. */
  lemma TokensHaveNoSpace(d: Date)
    requires Valid(d)
    ensures |WeekdayName(d.weekday)| > 0 && NoSpace(WeekdayName(d.weekday))
    ensures |MonthName(d.month)| > 0 && NoSpace(MonthName(d.month))
    ensures |DayToken(d)| > 0 && NoSpace(DayToken(d))
    ensures |YearToken(d)| > 0 && NoSpace(YearToken(d))
  {
    CapitalizedHasNoSpace(WeekdayName(d.weekday));
    CapitalizedHasNoSpace(MonthName(d.month));
    DigitsHaveNoSpace(DayToken(d));
    var y := YearToken(d);
    if d.year >= 0 {
      DigitsHaveNoSpace(y);
    } else {
      var p := Padded(-d.year, 4);
      DigitsHaveNoSpace(p);
      assert y == "-" + p;
      assert forall j :: 0 < j < |y| ==> y[j] == p[j - 1];
    }
  }

  lemma CapitalizedHasNoSpace(r: string)
    requires |r| == 3 && IsUpper(r[0]) && IsLower(r[1]) && IsLower(r[2])
    ensures NoSpace(r)
  {
    assert forall i :: 0 <= i < 3 ==> IsLetter(r[i]);
    LettersHaveNoSpace(r);
  }

  /** `d.toString().split(/\s+/).slice(1, 4)`: the month name, the day and
      the year, in that order. */
  lemma ToStringTokens(d: Date)
    requires Valid(d)
    ensures |SplitSpaces(ToString(d))| >= 4
    ensures SplitSpaces(ToString(d))[1..4] == [MonthName(d.month), DayToken(d), YearToken(d)]
  {
    TokensHaveNoSpace(d);
    var w, m, a, y := WeekdayName(d.weekday), MonthName(d.month), DayToken(d), YearToken(d);
    var t1 := m + " " + a + " " + y + " " + d.clock;
    assert ToString(d) == w + " " + t1;
    SplitWord(w, t1);
    SplitThree(m, a, y, d.clock);
  }

  /** Three words, each followed by one space, come out of the split as
      they went in. */
  lemma SplitThree(m: string, a: string, y: string, rest: string)
    requires |m| > 0 && NoSpace(m) && |a| > 0 && NoSpace(a) && |y| > 0 && NoSpace(y)
    requires |rest| > 0 && !IsSpace(rest[0])
    ensures |SplitSpaces(m + " " + a + " " + y + " " + rest)| >= 3
    ensures SplitSpaces(m + " " + a + " " + y + " " + rest)[..3] == [m, a, y]
  {
    var t3 := y + " " + rest;
    var t2 := a + " " + t3;
    assert m + " " + a + " " + y + " " + rest == m + " " + t2;
    SplitWord(y, rest);
    SplitWord(a, t3);
    SplitWord(m, t2);
  }

  /** Different months have different keys, each of two digits; the key
      reads back as the month number. */
  lemma MonthKeyShape(d: Date)
    requires Valid(d)
    ensures |MonthKey(d)| == 2 && AllDigits(MonthKey(d))
    ensures DecimalValue(MonthKey(d)) == d.month
    ensures d.month < 10 <==> MonthKey(d)[0] == '0'
  {
    TwoDigits(d.month);
    PaddedRoundTrip(d.month, 2);
  }

  lemma MonthKeyInjective(d: Date, e: Date)
    requires Valid(d) && Valid(e)
    ensures MonthKey(d) == MonthKey(e) <==> d.month == e.month
  {
    if MonthKey(d) == MonthKey(e) {
      PaddedInjective(d.month, e.month, 2);
    }
  }

  /** The value a year token stands for. */
  function ReadYear(t: string): int
    requires |t| > 0
    requires t[0] == '-' ==> AllDigits(t[1..])
    requires t[0] != '-' ==> AllDigits(t)
  {
    if t[0] == '-' then -(DecimalValue(t[1..]) as int) else DecimalValue(t)
  }

  /** The year token reads back as the year, so different years give
      different tokens. */
  lemma YearTokenRoundTrip(d: Date)
    ensures |YearToken(d)| >= 4
    ensures YearToken(d)[0] == '-' <==> d.year < 0
    ensures YearToken(d)[0] == '-' ==> AllDigits(YearToken(d)[1..])
    ensures YearToken(d)[0] != '-' ==> AllDigits(YearToken(d))
    ensures ReadYear(YearToken(d)) == d.year
  {
    var y := YearToken(d);
    if d.year >= 0 {
      PaddedRoundTrip(d.year, 4);
    } else {
      assert y[1..] == Padded(-d.year, 4);
      PaddedRoundTrip(-d.year, 4);
    }
  }

  /** Days of the month are written with exactly two digits and read back
      as the day. */
  lemma DayTokenRoundTrip(d: Date)
    requires Valid(d)
    ensures |DayToken(d)| == 2 && AllDigits(DayToken(d))
    ensures DecimalValue(DayToken(d)) == d.day
  {
    TwoDigits(d.day);
    PaddedRoundTrip(d.day, 2);
  }

  lemma MonthNameInjective(a: nat, b: nat)
    requires 1 <= a <= 12 && 1 <= b <= 12
    ensures MonthName(a) == MonthName(b) <==> a == b
  {
  }

  /** The lower-cased month names, as they appear in entry urls, still tell
      the months apart. */
  lemma LowerMonthInjective(a: nat, b: nat)
    requires 1 <= a <= 12 && 1 <= b <= 12
    ensures LowerAscii(MonthName(a)) == LowerAscii(MonthName(b)) <==> a == b
  {
    var x, y := MonthName(a), MonthName(b);
    if LowerAscii(x) == LowerAscii(y) {
      assert forall i :: 0 <= i < 3 ==> (IsUpper(x[i]) <==> i == 0);
      assert forall i :: 0 <= i < 3 ==> (IsUpper(y[i]) <==> i == 0);
      LowerSameCase(x, y);
      MonthNameInjective(a, b);
    }
  }

  /** A year token holds digits and at most a leading "-", so never a "/"
      or a ":". */
  lemma YearTokenSeparators(d: Date)
    ensures '/' !in YearToken(d) && ':' !in YearToken(d)
  {
    YearTokenRoundTrip(d);
    var y := YearToken(d);
    if y[0] == '-' {
      assert forall i :: 1 <= i < |y| ==> y[i] == y[1..][i - 1];
    }
  }
}
