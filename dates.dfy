/**
  Calendar dates as the scraper and the API handle them: reading Yahoo's
  `'%b %d, %Y'` text with `datetime.strptime`, writing and reading `'%Y-%m-%d'`,
  and stepping back a number of days as `datetime - timedelta(days=n)` does.
*/
module Dates {
  import opened Wrappers
  import opened Text

  datatype Date = Date(year: int, month: int, day: int)

  predicate IsLeapYear(y: int) {
    y % 4 == 0 && (y % 100 != 0 || y % 400 == 0)
  }

  function DaysInMonth(y: int, m: int): (n: int)
    requires 1 <= m <= 12
    ensures 28 <= n <= 31
    ensures n == 29 <==> m == 2 && IsLeapYear(y)
  {
    if m == 2 then (if IsLeapYear(y) then 29 else 28)
    else if m == 4 || m == 6 || m == 9 || m == 11 then 30
    else 31
  }

  /** The dates Python's `datetime.date` accepts (years 1 to 9999). */
  predicate ValidDate(d: Date) {
    1 <= d.year <= 9999 && 1 <= d.month <= 12 && 1 <= d.day <= DaysInMonth(d.year, d.month)
  }

  /** Chronological order. */
  predicate DateLe(a: Date, b: Date) {
    a.year < b.year || (a.year == b.year && (a.month < b.month || (a.month == b.month && a.day <= b.day)))
  }

  predicate DateLess(a: Date, b: Date) {
    DateLe(a, b) && a != b
  }

  // ---------------------------------------------------------------------------
  // '%b %d, %Y'

  /** The C locale's abbreviated month names, which `%b` matches. */
  const MonthAbbreviations: seq<string> :=
    ["Jan", "Feb", "Mar", "Apr", "May", "Jun", "Jul", "Aug", "Sep", "Oct", "Nov", "Dec"]

  /** The same names in upper case. */
  const MonthKeys: seq<string> :=
    ["JAN", "FEB", "MAR", "APR", "MAY", "JUN", "JUL", "AUG", "SEP", "OCT", "NOV", "DEC"]

  /** The month that a three-letter abbreviation names; `%b` matches without regard to case. */
  function MonthFromAbbreviation(s: string): (m: Option<int>)
    requires |s| == 3
    ensures m.Some? ==> 1 <= m.value <= 12 && AsciiUpper(s) == MonthKeys[m.value - 1]
    ensures m.None? ==> forall i :: 0 <= i < 12 ==> AsciiUpper(s) != MonthKeys[i]
  {
    var u := [UpperChar(s[0]), UpperChar(s[1]), UpperChar(s[2])];
    assert u == AsciiUpper(s);
    FindMonth(u, 0)
  }

  function FindMonth(u: string, from: nat): (m: Option<int>)
    requires from <= 12
    ensures m.Some? ==> from < m.value <= 12 && u == MonthKeys[m.value - 1]
    ensures m.None? ==> forall i :: from <= i < 12 ==> u != MonthKeys[i]
    decreases 12 - from
  {
    if from == 12 then None
    else if u == MonthKeys[from] then Some(from + 1)
    else FindMonth(u, from + 1)
  }

  /** A two-character day that `%d`'s pattern `3[01]|[12]\d|0[1-9]` accepts. */
  predicate TwoDigitDay(a: char, b: char) {
    (a == '0' && '1' <= b <= '9') || ((a == '1' || a == '2') && IsDigit(b)) || (a == '3' && (b == '0' || b == '1'))
  }

  /** The day of month that `%d` reads at the start of `r` when it must be followed by the
      comma of the format, with what follows the comma. A one-digit day `[1-9]` and a
      two-digit day cannot both lead to a comma, so the regular expression's backtracking
      has a single outcome. */
  function DayAndComma(r: string): (res: Option<(int, string)>)
    ensures res.Some? ==> 1 <= res.value.0 <= 31 && |res.value.1| < |r|
  {
    if |r| >= 2 && r[1] == ',' && '1' <= r[0] <= '9' then Some((DigitValue(r[0]), r[2..]))
    else if |r| >= 3 && r[2] == ',' && TwoDigitDay(r[0], r[1]) then
      Some((10 * DigitValue(r[0]) + DigitValue(r[1]), r[3..]))
    else None
  }

  /** `datetime.strptime(s, '%b %d, %Y')`: a month abbreviation in any case, one or more
      white-space characters, a day of month and a comma, one or more white-space characters,
      exactly four digits for the year, and nothing after them; the date must exist
      (`None` stands for the `ValueError` raised otherwise). */
  function ParseYahooDate(s: string): (d: Option<Date>)
    ensures d.Some? ==> ValidDate(d.value)
    ensures d.Some? ==> |s| >= 3 && MonthFromAbbreviation(s[..3]) == Some(d.value.month)
  {
    if |s| < 3 then None else AfterMonth(MonthFromAbbreviation(s[..3]), s[3..])
  }

  /** What follows the month: white space, then the day. */
  function AfterMonth(m: Option<int>, rest: string): (d: Option<Date>)
    ensures d.Some? ==> ValidDate(d.value) && m == Some(d.value.month)
    ensures d.Some? ==> rest != [] && IsSpace(rest[0])
  {
    if m.None? || rest == [] || !IsSpace(rest[0]) then None
    else AfterDay(m.value, DayAndComma(TrimStart(rest)))
  }

  /** What follows the day and its comma: white space, then the year. */
  function AfterDay(month: int, dc: Option<(int, string)>): (d: Option<Date>)
    ensures d.Some? ==> ValidDate(d.value) && dc.Some? && d.value.month == month && d.value.day == dc.value.0
    ensures d.Some? ==> dc.value.1 != [] && IsSpace(dc.value.1[0])
  {
    if dc.None? then None
    else
      var (day, afterComma) := dc.value;
      if afterComma == [] || !IsSpace(afterComma[0]) then None
      else YearEnding(month, day, TrimStart(afterComma))
  }

  /** The year: exactly four digits ending the text, giving a date that exists. */
  function YearEnding(month: int, day: int, y: string): (d: Option<Date>)
    ensures d.Some? <==> |y| == 4 && AllDigits(y) && ValidDate(Date(ValueOf(y), month, day))
    ensures d.Some? ==> d.value == Date(ValueOf(y), month, day)
  {
    if |y| != 4 || !AllDigits(y) then None
    else
      var d := Date(ValueOf(y), month, day);
      if ValidDate(d) then Some(d) else None
  }

  /** How Yahoo writes a date, e.g. "Jan 5, 2024". */
  function YahooDate(d: Date): string
    requires ValidDate(d)
  {
    MonthAbbreviations[d.month - 1] + " " + DayText(d.day) + ", " + Digits(d.year, 4)
  }

  /** Every date written the way Yahoo writes it is read back as that date. */
  lemma YahooDateRoundTrip(d: Date)
    requires ValidDate(d)
    ensures ParseYahooDate(YahooDate(d)) == Some(d)
  {
    YahooTextRead(d.month, d.day, d.year);
  }

  /** Text in Yahoo's layout whose fields name no existing date, such as "Feb 30, 2023" or
      "Feb 29, 2023", is rejected (`strptime` raises `ValueError`); text whose fields do
      name a date is read as that date. */
  lemma YahooTextRead(m: int, day: int, y: int)
    requires 1 <= m <= 12 && 1 <= day <= 31 && 1 <= y <= 9999
    ensures ParseYahooDate(MonthAbbreviations[m - 1] + " " + DayText(day) + ", " + Digits(y, 4))
            == if ValidDate(Date(y, m, day)) then Some(Date(y, m, day)) else None
  {
    var mon := MonthAbbreviations[m - 1];
    var tail := DayText(day) + ", " + Digits(y, 4);
    var s := mon + " " + DayText(day) + ", " + Digits(y, 4);
    assert s == mon + (" " + tail);
    MonthAbbreviationRead(m);
    MonthTextRead(mon, " " + tail);
    TailRead(m, day, y);
    assert ParseYahooDate(s) == AfterMonth(Some(m), " " + tail);
  }

  /** How Yahoo writes a day of month: one digit below 10, two from 10 on. */
  function DayText(day: int): string
    requires 1 <= day <= 31
  {
    if day < 10 then [DigitChar(day)] else Digits(day, 2)
  }

  lemma TailRead(m: int, day: int, y: int)
    requires 1 <= day <= 31 && 1 <= y <= 9999
    ensures AfterMonth(Some(m), " " + (DayText(day) + ", " + Digits(y, 4)))
            == if ValidDate(Date(y, m, day)) then Some(Date(y, m, day)) else None
  {
    var yearText := Digits(y, 4);
    DayRead(day, yearText);
    YearRead(y);
    DayTextRead(m, DayText(day) + ", " + yearText);
    assert AfterDay(m, Some((day, " " + yearText))) == YearEnding(m, day, yearText);
  }

  lemma MonthTextRead(mon: string, rest: string)
    requires |mon| == 3
    ensures ParseYahooDate(mon + rest) == AfterMonth(MonthFromAbbreviation(mon), rest)
  {
    assert (mon + rest)[..3] == mon && (mon + rest)[3..] == rest;
  }

  lemma DayTextRead(month: int, tail: string)
    requires DayAndComma(tail).Some?
    ensures AfterMonth(Some(month), " " + tail) == AfterDay(month, DayAndComma(tail))
  {
    assert tail[0] == '1' || tail[0] == '2' || tail[0] == '3' || '0' <= tail[0] <= '9';
    TrimStartPadded(" ", tail);
  }

  lemma MonthAbbreviationRead(m: int)
    requires 1 <= m <= 12
    ensures MonthFromAbbreviation(MonthAbbreviations[m - 1]) == Some(m)
  {
    var a := MonthAbbreviations[m - 1];
    assert [UpperChar(a[0]), UpperChar(a[1]), UpperChar(a[2])] == MonthKeys[m - 1];
    assert forall i, j :: 0 <= i < j < 12 ==> MonthKeys[i] != MonthKeys[j];
  }

  lemma DayRead(day: int, yearText: string)
    requires 1 <= day <= 31
    ensures DayAndComma(DayText(day) + ", " + yearText)
            == Some((day, " " + yearText))
  {
    if day < 10 {
      OneDigitDayRead(day, yearText);
    } else {
      TwoDigitDayRead(day, yearText);
    }
  }

  lemma OneDigitDayRead(day: int, yearText: string)
    requires 1 <= day <= 9
    ensures DayAndComma([DigitChar(day)] + ", " + yearText) == Some((day, " " + yearText))
  {
    var r := [DigitChar(day)] + ", " + yearText;
    assert r[1] == ',' && r[2..] == " " + yearText;
  }

  lemma TwoDigitDayRead(day: int, yearText: string)
    requires 10 <= day <= 31
    ensures DayAndComma(Digits(day, 2) + ", " + yearText) == Some((day, " " + yearText))
  {
    var tens, ones := day / 10, day % 10;
    var a, b := DigitChar(tens), DigitChar(ones);
    assert Digits(tens, 1) == Digits(tens / 10, 0) + [DigitChar(tens % 10)];
    assert Digits(day, 2) == [a, b];
    var r := [a, b] + ", " + yearText;
    assert r[0] == a && r[1] == b && r[2] == ',' && r[3..] == " " + yearText;
    assert 1 <= tens <= 3;
    assert a == '1' || a == '2' || a == '3' by {
      if tens == 1 { assert a == '1'; } else if tens == 2 { assert a == '2'; } else { assert a == '3'; }
    }
    assert a == '3' ==> b == '0' || b == '1' by {
      if a == '3' {
        assert tens == 3 && ones <= 1;
        if ones == 0 { assert b == '0'; } else { assert b == '1'; }
      }
    }
    assert TwoDigitDay(a, b);
    assert 10 * DigitValue(a) + DigitValue(b) == day;
  }

  lemma YearRead(y: int)
    requires 1 <= y <= 9999
    ensures var t := " " + Digits(y, 4); t != [] && IsSpace(t[0]) && TrimStart(t) == Digits(y, 4)
    ensures ValueOf(Digits(y, 4)) == y
  {
    TrimStartPadded(" ", Digits(y, 4));
    ValueOfDigits(y, 4);
  }

  // ---------------------------------------------------------------------------
  // '%Y-%m-%d'

  /** `strftime('%Y-%m-%d')`. */
  function IsoDate(d: Date): (s: string)
    requires ValidDate(d)
    ensures |s| == 10
  {
    Digits(d.year, 4) + "-" + Digits(d.month, 2) + "-" + Digits(d.day, 2)
  }

  /** Four digits, a dash, two digits, a dash, two digits, naming a date that exists. */
  predicate IsIsoDate(s: string) {
    |s| == 10 && s[4] == '-' && s[7] == '-'
    && AllDigits(s[..4]) && AllDigits(s[5..7]) && AllDigits(s[8..])
    && ValidDate(IsoFields(s))
  }

  /** The year, month and day fields of a `YYYY-MM-DD` string, as `strptime('%Y-%m-%d')` reads them. */
  function IsoFields(s: string): Date
    requires |s| == 10 && AllDigits(s[..4]) && AllDigits(s[5..7]) && AllDigits(s[8..])
  {
    Date(ValueOf(s[..4]), ValueOf(s[5..7]), ValueOf(s[8..]))
  }

  /** Writing a date as `YYYY-MM-DD` and reading it back gives the date. */
  lemma IsoDateRoundTrip(d: Date)
    requires ValidDate(d)
    ensures IsIsoDate(IsoDate(d)) && IsoFields(IsoDate(d)) == d
  {
    var s := IsoDate(d);
    assert s[..4] == Digits(d.year, 4);
    assert s[5..7] == Digits(d.month, 2);
    assert s[8..] == Digits(d.day, 2);
    ValueOfDigits(d.year, 4);
    ValueOfDigits(d.month, 2);
    ValueOfDigits(d.day, 2);
  }

  /** Reading a `YYYY-MM-DD` string and writing the date back gives the string. */
  lemma IsoFieldsRoundTrip(s: string)
    requires IsIsoDate(s)
    ensures IsoDate(IsoFields(s)) == s
  {
    DigitsValueOf(s[..4]);
    DigitsValueOf(s[5..7]);
    DigitsValueOf(s[8..]);
    assert s == s[..4] + "-" + s[5..7] + "-" + s[8..];
  }

  /** On `YYYY-MM-DD` strings string comparison is chronological order, which is what makes
      the API's SQL range filter and `ORDER BY date` on the text column correct. */
  lemma IsoOrderIsChronological(a: Date, b: Date)
    requires ValidDate(a) && ValidDate(b)
    ensures LexLe(IsoDate(a), IsoDate(b)) <==> DateLe(a, b)
    ensures IsoDate(a) == IsoDate(b) <==> a == b
  {
    var ya, ma, da := Digits(a.year, 4), Digits(a.month, 2), Digits(a.day, 2);
    var yb, mb, db := Digits(b.year, 4), Digits(b.month, 2), Digits(b.day, 2);
    DigitsLe(a.year, b.year, 4);
    DigitsLe(a.month, b.month, 2);
    DigitsLe(a.day, b.day, 2);
    DashedLe(ya, ma, da, yb, mb, db);
    IsoDateRoundTrip(a);
    IsoDateRoundTrip(b);
  }

  /** Texts `y-m-d` with fields of equal widths compare field by field. */
  lemma DashedLe(ya: string, ma: string, da: string, yb: string, mb: string, db: string)
    requires |ya| == |yb| && |ma| == |mb|
    ensures LexLe(ya + "-" + ma + "-" + da, yb + "-" + mb + "-" + db)
            <==> LexLess(ya, yb) || (ya == yb && (LexLess(ma, mb) || (ma == mb && LexLe(da, db))))
  {
    assert ya + "-" + ma + "-" + da == ya + ("-" + (ma + ("-" + da)));
    assert yb + "-" + mb + "-" + db == yb + ("-" + (mb + ("-" + db)));
    LexLeConcat(ya, "-" + (ma + ("-" + da)), yb, "-" + (mb + ("-" + db)));
    LexLeConcat("-", ma + ("-" + da), "-", mb + ("-" + db));
    LexLeConcat(ma, "-" + da, mb, "-" + db);
    LexLeConcat("-", da, "-", db);
  }

  // ---------------------------------------------------------------------------
  // Stepping back in time

  /** The days of the months of year `y` before month `m`. */
  function DaysBeforeMonth(y: int, m: int): nat
    requires 1 <= m <= 13
  {
    if m == 1 then 0 else DaysBeforeMonth(y, m - 1) + DaysInMonth(y, m - 1)
  }

  /** The days of the years before year `y`, counted from year 1. */
  function DaysBeforeYear(y: int): nat
  {
    if y <= 1 then 0 else DaysBeforeYear(y - 1) + DaysBeforeMonth(y - 1, 13)
  }

  /** `date.toordinal()`: the proleptic Gregorian day number, 0001-01-01 being day 1. It is
      what `datetime - timedelta` subtracts from. */
  function DayNumber(d: Date): int
    requires ValidDate(d)
  {
    DaysBeforeYear(d.year) + DaysBeforeMonth(d.year, d.month) + d.day
  }

  lemma {:induction false} DaysBeforeMonthMonotone(y: int, m1: int, m2: int)
    requires 1 <= m1 <= m2 <= 13
    ensures DaysBeforeMonth(y, m1) <= DaysBeforeMonth(y, m2)
    decreases m2
  {
    if m1 < m2 {
      DaysBeforeMonthMonotone(y, m1, m2 - 1);
    }
  }

  lemma {:induction false} DaysBeforeYearMonotone(y1: int, y2: int)
    requires 1 <= y1 < y2
    ensures DaysBeforeYear(y1) + DaysBeforeMonth(y1, 13) <= DaysBeforeYear(y2)
    decreases y2
  {
    assert DaysBeforeYear(y2) == DaysBeforeYear(y2 - 1) + DaysBeforeMonth(y2 - 1, 13);
    if y1 < y2 - 1 {
      DaysBeforeYearMonotone(y1, y2 - 1);
    }
  }

  lemma EarlierDayNumber(a: Date, b: Date)
    requires ValidDate(a) && ValidDate(b) && DateLess(a, b)
    ensures DayNumber(a) < DayNumber(b)
  {
    DaysBeforeMonthMonotone(a.year, a.month + 1, 13);
    if a.year < b.year {
      DaysBeforeYearMonotone(a.year, b.year);
    } else if a.month < b.month {
      DaysBeforeMonthMonotone(a.year, a.month + 1, b.month);
    }
  }

  /** Day numbers order dates chronologically, and distinct dates have distinct numbers. */
  lemma DayNumberOrder(a: Date, b: Date)
    requires ValidDate(a) && ValidDate(b)
    ensures DateLess(a, b) <==> DayNumber(a) < DayNumber(b)
    ensures a == b <==> DayNumber(a) == DayNumber(b)
  {
    if DateLess(a, b) {
      EarlierDayNumber(a, b);
    } else if DateLess(b, a) {
      EarlierDayNumber(b, a);
    }
  }

  /** The day before `d`; none before 0001-01-01. */
  function PrevDay(d: Date): (p: Option<Date>)
    requires ValidDate(d)
    ensures p.None? <==> d == Date(1, 1, 1)
    ensures p.Some? ==> ValidDate(p.value) && DayNumber(p.value) == DayNumber(d) - 1
  {
    if d.day > 1 then Some(Date(d.year, d.month, d.day - 1))
    else if d.month > 1 then Some(Date(d.year, d.month - 1, DaysInMonth(d.year, d.month - 1)))
    else if d.year > 1 then Some(Date(d.year - 1, 12, 31))
    else None
  }

  /** The date `n` days before `d`, as `datetime - timedelta(days=n)` computes it; `None` where
      Python raises `OverflowError` for going below year 1. */
  function SubtractDays(d: Date, n: nat): (r: Option<Date>)
    requires ValidDate(d)
    ensures r.None? <==> DayNumber(d) <= n
    ensures r.Some? ==> ValidDate(r.value) && DayNumber(r.value) == DayNumber(d) - n
    decreases n
  {
    if n == 0 then Some(d)
    else
      var p := PrevDay(d);
      if p.None? then None else SubtractDays(p.value, n - 1)
  }

  /** Going further back gives an earlier (or equal) date. */
  lemma SubtractDaysMonotone(d: Date, m: nat, n: nat)
    requires ValidDate(d) && m <= n
    requires SubtractDays(d, n).Some?
    ensures SubtractDays(d, m).Some? && DateLe(SubtractDays(d, n).value, SubtractDays(d, m).value)
  {
    DayNumberOrder(SubtractDays(d, n).value, SubtractDays(d, m).value);
  }

  /** Nothing lies strictly between a date and the day before it. */
  lemma PrevDayIsAdjacent(d: Date, e: Date)
    requires ValidDate(d) && PrevDay(d).Some? && ValidDate(e)
    ensures DateLess(PrevDay(d).value, e) <==> DateLe(d, e)
  {
    DayNumberOrder(PrevDay(d).value, e);
    DayNumberOrder(d, e);
    DayNumberOrder(e, d);
  }

  /** Comparing a stored `YYYY-MM-DD` text with a rendered bound, as the API's range filter
      does, compares the dates. */
  lemma IsoCompareIsChronological(lo: Date, s: string)
    requires ValidDate(lo) && IsIsoDate(s)
    ensures LexLe(IsoDate(lo), s) <==> DateLe(lo, IsoFields(s))
    ensures LexLe(s, IsoDate(lo)) <==> DateLe(IsoFields(s), lo)
  {
    IsoFieldsRoundTrip(s);
    IsoOrderIsChronological(lo, IsoFields(s));
    IsoOrderIsChronological(IsoFields(s), lo);
  }
}
