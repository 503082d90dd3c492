/** Calendar dates as main.cpp handles them: the `YYYY-MM-DD` text that
    `getCurrentDate` writes with `strftime("%Y-%m-%d")` and `daysBetween` reads with
    `sscanf("%d-%d-%d")`, and the whole-day distance `daysBetween` computes through
    `mktime`, here as the difference of proleptic-Gregorian day numbers. */
module Calendar {
  import opened Text

  datatype Date = Date(year: int, month: int, day: int)

  predicate IsLeapYear(y: int) {
    y % 4 == 0 && (y % 100 != 0 || y % 400 == 0)
  }

  function YearLength(y: int): int {
    if IsLeapYear(y) then 366 else 365
  }

  function DaysInMonth(y: int, m: int): int
    requires 1 <= m <= 12
  {
    if m == 2 then (if IsLeapYear(y) then 29 else 28)
    else if m == 4 || m == 6 || m == 9 || m == 11 then 30
    else 31
  }

  /** A real calendar day: the only dates the model gives a day number to. */
  predicate ValidDate(d: Date) {
    1 <= d.month <= 12 && 1 <= d.day <= DaysInMonth(d.year, d.month)
  }

  /** Days from 0001-01-01 to January 1st of `y` (negative before year 1); Dafny's `/`
      floors for a positive divisor, which is what the leap-year count needs. */
  function DaysBeforeYear(y: int): int {
    var p := y - 1;
    365 * p + p / 4 - p / 100 + p / 400
  }

  /** Days from January 1st of `y` to the first day of month `m`. */
  function DaysBeforeMonth(y: int, m: int): int
    requires 1 <= m <= 12
  {
    var leap := if m > 2 && IsLeapYear(y) then 1 else 0;
    leap + (
      if m == 1 then 0 else if m == 2 then 31 else if m == 3 then 59
      else if m == 4 then 90 else if m == 5 then 120 else if m == 6 then 151
      else if m == 7 then 181 else if m == 8 then 212 else if m == 9 then 243
      else if m == 10 then 273 else if m == 11 then 304 else 334)
  }

  /** Day number of a date, counted from 0001-01-01 = 0. */
  function DayNumber(d: Date): int
    requires ValidDate(d)
  {
    DaysBeforeYear(d.year) + DaysBeforeMonth(d.year, d.month) + d.day - 1
  }

  /** `daysBetween(old, new)`: signed count of whole days from `a` to `b`. */
  function DaysBetween(a: Date, b: Date): int
    requires ValidDate(a) && ValidDate(b)
  {
    DayNumber(b) - DayNumber(a)
  }

  /** The calendar day after `d`. */
  function NextDay(d: Date): (r: Date)
    requires ValidDate(d)
    ensures ValidDate(r)
  {
    if d.day < DaysInMonth(d.year, d.month) then Date(d.year, d.month, d.day + 1)
    else if d.month < 12 then Date(d.year, d.month + 1, 1)
    else Date(d.year + 1, 1, 1)
  }

  /** Lexicographic (year, month, day) order: `a` is an earlier calendar day than `b`. */
  predicate Before(a: Date, b: Date) {
    a.year < b.year
    || (a.year == b.year && a.month < b.month)
    || (a.year == b.year && a.month == b.month && a.day < b.day)
  }

  // ---------------------------------------------------------------------------
  // Day-number facts

  /** Consecutive January firsts are one year length apart. */
  lemma YearStep(y: int)
    ensures DaysBeforeYear(y + 1) == DaysBeforeYear(y) + YearLength(y)
  {
    assert y / 4 - (y - 1) / 4 == if y % 4 == 0 then 1 else 0;
    assert y / 100 - (y - 1) / 100 == if y % 100 == 0 then 1 else 0;
    assert y / 400 - (y - 1) / 400 == if y % 400 == 0 then 1 else 0;
    assert y % 400 == 0 ==> y % 100 == 0;
    assert y % 100 == 0 ==> y % 4 == 0;
  }

  /** The month table agrees with the month lengths, and December ends the year. */
  lemma MonthStep(y: int, m: int)
    requires 1 <= m <= 12
    ensures m < 12 ==> DaysBeforeMonth(y, m + 1) == DaysBeforeMonth(y, m) + DaysInMonth(y, m)
    ensures m == 12 ==> DaysBeforeMonth(y, m) + DaysInMonth(y, m) == YearLength(y)
  {
  }

  /** Every day of a year lies inside that year. */
  lemma DayOfYearBounds(d: Date)
    requires ValidDate(d)
    ensures 0 <= DaysBeforeMonth(d.year, d.month) + d.day - 1 < YearLength(d.year)
  {
  }

  lemma {:induction false} MonthOrder(y: int, m1: int, m2: int)
    requires 1 <= m1 < m2 <= 12
    ensures DaysBeforeMonth(y, m1) + DaysInMonth(y, m1) <= DaysBeforeMonth(y, m2)
    decreases m2 - m1
  {
    MonthStep(y, m1);
    if m1 + 1 < m2 {
      MonthOrder(y, m1 + 1, m2);
    }
  }

  lemma {:induction false} YearOrder(y1: int, y2: int)
    requires y1 < y2
    ensures DaysBeforeYear(y1) + YearLength(y1) <= DaysBeforeYear(y2)
    decreases y2 - y1
  {
    YearStep(y1);
    if y1 + 1 < y2 {
      YearOrder(y1 + 1, y2);
      YearStep(y1 + 1);
    }
  }

  /** An earlier calendar day has a smaller day number. */
  lemma BeforeMeansSmaller(a: Date, b: Date)
    requires ValidDate(a) && ValidDate(b) && Before(a, b)
    ensures DayNumber(a) < DayNumber(b)
  {
    DayOfYearBounds(a);
    DayOfYearBounds(b);
    if a.year < b.year {
      YearOrder(a.year, b.year);
    } else if a.month < b.month {
      MonthOrder(a.year, a.month, b.month);
    }
  }

  // ---------------------------------------------------------------------------
  // daysBetween

  /** The same date is 0 days away, swapping the dates negates the count, and counts add up. */
  lemma DaysBetweenAlgebra(a: Date, b: Date, c: Date)
    requires ValidDate(a) && ValidDate(b) && ValidDate(c)
    ensures DaysBetween(a, a) == 0
    ensures DaysBetween(b, a) == -DaysBetween(a, b)
    ensures DaysBetween(a, b) + DaysBetween(b, c) == DaysBetween(a, c)
  {
  }

  /** The sign of `daysBetween` tells the calendar order: positive exactly when time moved
      forward, zero exactly on the same day, negative exactly when the clock went back. */
  lemma DaysBetweenSign(a: Date, b: Date)
    requires ValidDate(a) && ValidDate(b)
    ensures DaysBetween(a, b) > 0 <==> Before(a, b)
    ensures DaysBetween(a, b) == 0 <==> a == b
    ensures DaysBetween(a, b) < 0 <==> Before(b, a)
  {
    if Before(a, b) {
      BeforeMeansSmaller(a, b);
    } else if Before(b, a) {
      BeforeMeansSmaller(b, a);
    }
  }

  /** A date and the next calendar day, across month, year and leap-day ends, are one day apart. */
  lemma NextDayIsOneLater(d: Date)
    requires ValidDate(d)
    ensures DaysBetween(d, NextDay(d)) == 1
    ensures Before(d, NextDay(d))
  {
    MonthStep(d.year, d.month);
    if d.day == DaysInMonth(d.year, d.month) && d.month == 12 {
      YearStep(d.year);
    }
  }

  // ---------------------------------------------------------------------------
  // YYYY-MM-DD text

  /** A date `strftime("%Y-%m-%d")` can write into main.cpp's 11-byte buffer: four-digit years. */
  predicate Formattable(d: Date) {
    ValidDate(d) && 1000 <= d.year <= 9999
  }

  /** `%m` / `%d`: two digits, zero-padded. */
  function Pad2(n: nat): (s: string)
    requires n < 100
    ensures |s| == 2 && AllDigits(s) && DigitsValue(s) == n
  {
    var s := [DigitChar(n / 10), DigitChar(n % 10)];
    assert s[..1] == [DigitChar(n / 10)];
    assert s[..1][..0] == [];
    assert DigitsValue(s[..1]) == n / 10;
    s
  }

  /** `getCurrentDate`: the `%Y-%m-%d` text of a date. */
  function FormatDate(d: Date): string
    requires Formattable(d)
  {
    NatToString(d.year) + "-" + Pad2(d.month) + "-" + Pad2(d.day)
  }

  /** `sscanf(s, "%d-%d-%d", ...)` filling all three fields; None when a field or a dash is
      missing. Calendar validity is not checked, just as `sscanf` does not. */
  function ParseDate(s: string): Option<Date> {
    var y := ScanInt(s);
    if y.None? then None else ParseAfterYear(y.value.0, y.value.1)
  }

  /** The rest of the conversion once the year has been read: "-%d-%d". */
  function ParseAfterYear(year: int, s: string): Option<Date> {
    if !StartsWithDash(s) then None
    else
      var m := ScanInt(s[1..]);
      if m.None? then None else ParseAfterMonth(year, m.value.0, m.value.1)
  }

  /** The rest of the conversion once the month has been read: "-%d". */
  function ParseAfterMonth(year: int, month: int, s: string): Option<Date> {
    if !StartsWithDash(s) then None
    else
      var d := ScanInt(s[1..]);
      if d.None? then None else Some(Date(year, month, d.value.0))
  }

  predicate StartsWithDash(s: string) {
    s != [] && s[0] == '-'
  }

  /** A formatted date fits the 10 characters `YYYY-MM-DD`. */
  lemma FormatDateLength(d: Date)
    requires Formattable(d)
    ensures |FormatDate(d)| == 10
  {
    var y := d.year;
    assert NatToString(y) == NatToString(y / 10) + [DigitChar(y % 10)];
    assert NatToString(y / 10) == NatToString(y / 100) + [DigitChar(y / 10 % 10)];
    assert NatToString(y / 100) == NatToString(y / 1000) + [DigitChar(y / 100 % 10)];
    assert |NatToString(y / 1000)| == 1;
  }

  lemma ParseAfterMonthOf(year: int, month: int, s: string, ds: string)
    requires |ds| > 0 && AllDigits(ds)
    requires StartsWithDash(s) && s[1..] == ds + []
    ensures ParseAfterMonth(year, month, s) == Some(Date(year, month, DigitsValue(ds)))
  {
    ScanIntOfDigits(ds, []);
  }

  lemma ParseAfterYearOf(year: int, s: string, ms: string, rest: string)
    requires |ms| > 0 && AllDigits(ms) && EndsNumber(rest)
    requires StartsWithDash(s) && s[1..] == ms + rest
    ensures ParseAfterYear(year, s) == ParseAfterMonth(year, DigitsValue(ms), rest)
  {
    ScanIntOfDigits(ms, rest);
  }

  /** Reading a formatted date back gives the same (year, month, day). */
  lemma ParseFormatDate(d: Date)
    requires Formattable(d)
    ensures ParseDate(FormatDate(d)) == Some(d)
  {
    var ys, ms, ds := NatToString(d.year), Pad2(d.month), Pad2(d.day);
    var dayPart := ['-'] + ds;
    var monthPart := ['-'] + ms + dayPart;
    assert FormatDate(d) == ys + monthPart;
    ScanIntOfIntToString(d.year, monthPart);
    assert ScanInt(FormatDate(d)) == Some((d.year, monthPart));
    TailAfterFirst('-', ms, dayPart);
    ParseAfterYearOf(d.year, monthPart, ms, dayPart);
    TailAfterFirst('-', ds, []);
    assert dayPart == ['-'] + ds + [];
    ParseAfterMonthOf(d.year, d.month, dayPart, ds);
  }

  /** A formatted date is one line: digits and dashes only. */
  lemma FormatDateNoBreak(d: Date)
    requires Formattable(d)
    ensures '\n' !in FormatDate(d)
  {
    var ys, ms, ds := NatToString(d.year), Pad2(d.month), Pad2(d.day);
    assert FormatDate(d) == ys + "-" + ms + "-" + ds;
    assert '\n' !in ys by { assert forall i :: 0 <= i < |ys| ==> IsDigit(ys[i]); }
    assert '\n' !in ms by { assert forall i :: 0 <= i < |ms| ==> IsDigit(ms[i]); }
    assert '\n' !in ds by { assert forall i :: 0 <= i < |ds| ==> IsDigit(ds[i]); }
  }

  /** A text `daysBetween` reads as a real calendar date. */
  predicate Readable(s: string) {
    ParseDate(s).Some? && ValidDate(ParseDate(s).value)
  }

  /** `daysBetween(oldDate, newDate)` on the texts: both are read with `sscanf`, then the
      whole days from the old date to the new one are counted. */
  function DaysBetweenTexts(oldDate: string, newDate: string): int
    requires Readable(oldDate) && Readable(newDate)
  {
    DaysBetween(ParseDate(oldDate).value, ParseDate(newDate).value)
  }

  /** On texts `getCurrentDate` wrote, `daysBetween` is the day distance of the dates. */
  lemma DaysBetweenFormatted(a: Date, b: Date)
    requires Formattable(a) && Formattable(b)
    ensures Readable(FormatDate(a)) && Readable(FormatDate(b))
    ensures DaysBetweenTexts(FormatDate(a), FormatDate(b)) == DaysBetween(a, b)
  {
    ParseFormatDate(a);
    ParseFormatDate(b);
  }

  /** The date `k` calendar days after `d`, one day at a time. */
  function AddDays(d: Date, k: nat): (r: Date)
    requires ValidDate(d)
    ensures ValidDate(r)
    decreases k
  {
    if k == 0 then d else NextDay(AddDays(d, k - 1))
  }

  /** Day counting agrees with stepping through the calendar: `k` days after `d` is `k`
      days away from `d`, and strictly later when `k > 0`. */
  lemma {:induction false} DaysBetweenAddDays(d: Date, k: nat)
    requires ValidDate(d)
    ensures DaysBetween(d, AddDays(d, k)) == k
    ensures k > 0 ==> Before(d, AddDays(d, k))
    decreases k
  {
    if k > 0 {
      var e := AddDays(d, k - 1);
      DaysBetweenAddDays(d, k - 1);
      NextDayIsOneLater(e);
      DaysBetweenAlgebra(d, e, NextDay(e));
      DaysBetweenSign(d, NextDay(e));
    }
  }
}
