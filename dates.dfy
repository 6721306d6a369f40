/** Dates as generate_feed.py handles them: parse_mmddyyyy builds a midnight-UTC
    datetime from "M/D/Y" text, and rfc2822 renders an instant in the RFC 822 date form
    that RSS 2.0 uses for pubDate and lastBuildDate. The calendar is the proleptic
    Gregorian one of Python's datetime module. */
module Dates {
  import opened Wrappers
  import opened Text

  const MinYear := 1
  const MaxYear := 9999

  /** An aware datetime in UTC. Microseconds are not modelled: no output shows them. */
  datatype DateTime = DateTime(year: int, month: int, day: int, hour: int, minute: int, second: int)

  /** A calendar date, the part of an instant that date().isoformat() spells. */
  datatype Date = Date(year: int, month: int, day: int)

  function DateOf(t: DateTime): Date {
    Date(t.year, t.month, t.day)
  }

  predicate IsLeap(y: int) {
    y % 4 == 0 && (y % 100 != 0 || y % 400 == 0)
  }

  function DaysInMonth(y: int, m: int): int
    requires 1 <= m <= 12
  {
    if m == 2 then (if IsLeap(y) then 29 else 28)
    else if m == 4 || m == 6 || m == 9 || m == 11 then 30
    else 31
  }

  /** The dates the datetime constructor accepts. */
  predicate ValidDate(y: int, m: int, d: int) {
    MinYear <= y <= MaxYear && 1 <= m <= 12 && 1 <= d <= DaysInMonth(y, m)
  }

  predicate Valid(t: DateTime) {
    && ValidDate(t.year, t.month, t.day)
    && 0 <= t.hour < 24 && 0 <= t.minute < 60 && 0 <= t.second < 60
  }

  predicate IsMidnight(t: DateTime) {
    t.hour == 0 && t.minute == 0 && t.second == 0
  }

  /** Why parse_mmddyyyy raised: the field count check, int(), or the datetime constructor. */
  datatype DateError = BadFieldCount | NotAnInteger | YearOutOfRange | MonthOutOfRange | DayOutOfRange

  /** datetime(y, m, d, 0, 0, 0, tzinfo=timezone.utc), which checks the year, then the month,
      then the day against the length of that month. */
  function MidnightUtc(y: int, m: int, d: int): (r: Result<DateTime, DateError>)
    ensures r.Ok? <==> ValidDate(y, m, d)
    ensures r.Ok? ==> r.value == DateTime(y, m, d, 0, 0, 0)
    ensures r.Err? ==> (r.error == YearOutOfRange <==> !(MinYear <= y <= MaxYear))
    ensures r.Err? ==> r.error != BadFieldCount && r.error != NotAnInteger
  {
    if !(MinYear <= y <= MaxYear) then Err(YearOutOfRange)
    else if !(1 <= m <= 12) then Err(MonthOutOfRange)
    else if !(1 <= d <= DaysInMonth(y, m)) then Err(DayOutOfRange)
    else Ok(DateTime(y, m, d, 0, 0, 0))
  }

  /** The two-digit-year rule: a year below 100 is taken as 2000 + year. */
  function ExpandYear(y: int): (r: int)
    ensures r % 100 == y % 100
    ensures 0 <= y ==> 100 <= r
    ensures 100 <= y ==> r == y
  {
    if y < 100 then 2000 + y else y
  }

  /** parse_mmddyyyy: strip, split on '/', demand three fields, int() each, expand a
      two-digit year, and build a midnight-UTC datetime. */
  function ParseMmddyyyy(s: string): (r: Result<DateTime, DateError>)
    ensures r.Ok? ==> Valid(r.value) && IsMidnight(r.value)
    ensures (r.Err? && r.error == BadFieldCount) <==> |Split(Strip(s), '/')| != 3
  {
    var parts := Split(Strip(s), '/');
    if |parts| != 3 then Err(BadFieldCount)
    else
      var mm, dd, yy := ParseInt(parts[0]), ParseInt(parts[1]), ParseInt(parts[2]);
      if mm.None? || dd.None? || yy.None? then Err(NotAnInteger)
      else MidnightUtc(ExpandYear(yy.value), mm.value, dd.value)
  }

  /** Once the three fields read as integers, the outcome is exactly the datetime
      constructor's on (expanded year, month, day): the year is 2000 + y below 100 and y
      otherwise, month and day are taken as written, and the time is 00:00:00. */
  lemma ParseFieldsRule(s: string)
    requires |Split(Strip(s), '/')| == 3
    requires var p := Split(Strip(s), '/');
      ParseInt(p[0]).Some? && ParseInt(p[1]).Some? && ParseInt(p[2]).Some?
    ensures var p := Split(Strip(s), '/');
      var yy := ParseInt(p[2]).value;
      && ParseMmddyyyy(s) == MidnightUtc(ExpandYear(yy), ParseInt(p[0]).value, ParseInt(p[1]).value)
      && (ParseMmddyyyy(s).Ok? ==>
            ParseMmddyyyy(s).value.year == (if yy < 100 then 2000 + yy else yy))
  {
  }

  /** Digit-only fields "a/b/c" parse as the constructor call on their values. */
  lemma DigitsHaveNoSlash(p: string)
    requires AllDigits(p)
    ensures '/' !in p
  {
  }

  lemma SplitDigitFields(a: string, b: string, c: string)
    requires |a| > 0 && |b| > 0 && |c| > 0
    requires AllDigits(a) && AllDigits(b) && AllDigits(c)
    ensures Split(Strip(a + "/" + b + "/" + c), '/') == [a, b, c]
  {
    var s := a + "/" + b + "/" + c;
    assert s == Join([a, b, c], '/') by {
      assert [a, b, c][1..] == [b, c];
      assert [b, c][1..] == [c];
      assert Join([c], '/') == c;
      assert Join([b, c], '/') == b + ['/'] + c;
      assert Join([a, b, c], '/') == a + ['/'] + (b + ['/'] + c);
    }
    assert !IsSpace(s[0]) by { assert s[0] == a[0]; }
    assert !IsSpace(s[|s| - 1]) by { assert s[|s| - 1] == c[|c| - 1]; }
    StripUnchanged(s);
    DigitsHaveNoSlash(a);
    DigitsHaveNoSlash(b);
    DigitsHaveNoSlash(c);
    SplitJoin([a, b, c], '/');
  }

  /** Digit-only fields "a/b/c" parse as the constructor call on their values. */
  lemma ParseDigitFields(a: string, b: string, c: string)
    requires |a| > 0 && |b| > 0 && |c| > 0
    requires AllDigits(a) && AllDigits(b) && AllDigits(c)
    ensures ParseMmddyyyy(a + "/" + b + "/" + c)
         == MidnightUtc(ExpandYear(DigitsValue(c)), DigitsValue(a), DigitsValue(b))
  {
    SplitDigitFields(a, b, c);
    ParseIntDigits(a);
    ParseIntDigits(b);
    ParseIntDigits(c);
  }

  /** parse_mmddyyyy reads back the unpadded "M/D/YYYY" spelling of any midnight instant
      whose year has at least three digits. */
  lemma ParseRoundTrip(t: DateTime)
    requires Valid(t) && IsMidnight(t) && t.year >= 100
    ensures ParseMmddyyyy(Decimal(t.month) + "/" + Decimal(t.day) + "/" + Decimal(t.year)) == Ok(t)
  {
    ParseDigitFields(Decimal(t.month), Decimal(t.day), Decimal(t.year));
    assert MidnightUtc(t.year, t.month, t.day) == Ok(t);
  }

  /** "M/D/YY" names a date in 2000-2099: the page's 12/29/25 is 29 December 2025. */
  lemma ParseTwoDigitYear(t: DateTime)
    requires Valid(t) && IsMidnight(t) && 2000 <= t.year < 2100
    ensures ParseMmddyyyy(Decimal(t.month) + "/" + Decimal(t.day) + "/" + Pad2(t.year - 2000)) == Ok(t)
  {
    var c := Pad2(t.year - 2000);
    ParseDigitFields(Decimal(t.month), Decimal(t.day), c);
    assert ExpandYear(DigitsValue(c)) == t.year;
    assert MidnightUtc(t.year, t.month, t.day) == Ok(t);
  }

  lemma {:induction false} DigitsValueBound(s: string)
    requires AllDigits(s)
    ensures |s| <= 1 ==> DigitsValue(s) < 10
    ensures |s| <= 2 ==> DigitsValue(s) < 100
    ensures |s| <= 3 ==> DigitsValue(s) < 1000
    ensures |s| <= 4 ==> DigitsValue(s) < 10000
    decreases |s|
  {
    if s != [] {
      DigitsValueBound(s[..|s| - 1]);
    }
  }

  /** A date matched by \d{1,2}/\d{1,2}/\d{2,4} always has a year datetime accepts, so it
      can only be rejected for its month or its day. */
  lemma ShapedDateRejectedOnlyByCalendar(a: string, b: string, c: string)
    requires 1 <= |a| <= 2 && 1 <= |b| <= 2 && 2 <= |c| <= 4
    requires AllDigits(a) && AllDigits(b) && AllDigits(c)
    ensures var r := ParseMmddyyyy(a + "/" + b + "/" + c);
      r.Ok? || r == Err(MonthOutOfRange) || r == Err(DayOutOfRange)
  {
    ParseDigitFields(a, b, c);
    DigitsValueBound(c);
  }

  /** The invalid calendar date 13/40/2026 is rejected (its month is checked first). */
  lemma ParseRejectsMonth13()
    ensures ParseMmddyyyy("13/40/2026") == Err(MonthOutOfRange)
  {
    assert "13/40/2026" == Decimal(13) + "/" + Decimal(40) + "/" + Decimal(2026);
    ParseDigitFields(Decimal(13), Decimal(40), Decimal(2026));
  }

  // Calendar arithmetic, as in date.toordinal(): day 1 is 0001-01-01.

  function DaysBeforeYear(y: int): int
    requires y >= 1
  {
    var n := y - 1;
    n * 365 + n / 4 - n / 100 + n / 400
  }

  function DaysBeforeMonth(y: int, m: int): int
    requires 1 <= m <= 12
  {
    [0, 31, 59, 90, 120, 151, 181, 212, 243, 273, 304, 334][m - 1]
    + (if m > 2 && IsLeap(y) then 1 else 0)
  }

  function Ordinal(d: Date): int
    requires d.year >= 1 && 1 <= d.month <= 12
  {
    DaysBeforeYear(d.year) + DaysBeforeMonth(d.year, d.month) + d.day
  }

  /** The day of the week, 0 for Monday through 6 for Sunday (date.weekday()). */
  function Weekday(d: Date): (w: int)
    requires d.year >= 1 && 1 <= d.month <= 12
    ensures 0 <= w < 7
  {
    (Ordinal(d) + 6) % 7
  }

  /** The following calendar day, as an independent description of the calendar. */
  function NextDay(d: Date): Date
    requires 1 <= d.month <= 12
  {
    if d.day < DaysInMonth(d.year, d.month) then Date(d.year, d.month, d.day + 1)
    else if d.month < 12 then Date(d.year, d.month + 1, 1)
    else Date(d.year + 1, 1, 1)
  }

  /** A year contributes 366 days when it is a leap year and 365 otherwise. */
  lemma DaysBeforeNextYear(y: int)
    requires y >= 1
    ensures DaysBeforeYear(y + 1) == DaysBeforeYear(y) + (if IsLeap(y) then 366 else 365)
  {
    YearStep(y);
    LeapDaysOfLeap(y);
  }

  /** The leap days the three divisibility rules add for year y: +1 every 4th year,
      -1 every 100th, +1 every 400th. */
  function LeapDays(y: int): int {
    (if y % 4 == 0 then 1 else 0) - (if y % 100 == 0 then 1 else 0) + (if y % 400 == 0 then 1 else 0)
  }

  lemma YearStep(y: int)
    requires y >= 1
    ensures DaysBeforeYear(y + 1) == DaysBeforeYear(y) + 365 + LeapDays(y)
  {
    DivSucc(y, 4);
    DivSucc(y, 100);
    DivSucc(y, 400);
  }

  lemma LeapDaysOfLeap(y: int)
    ensures LeapDays(y) == if IsLeap(y) then 1 else 0
  {
    if y % 400 == 0 {
      MultipleMod(y, 100, 4);
      MultipleMod(y, 4, 100);
    } else if y % 100 == 0 {
      MultipleMod(y, 4, 25);
    }
  }

  /** A multiple of k * m is a multiple of k. */
  lemma MultipleMod(y: int, k: int, m: int)
    requires k > 0 && m > 0 && y % (k * m) == 0
    ensures y % k == 0
  {
    var q := y / (k * m);
    assert y == (k * m) * q;
    assert y == k * (m * q);
  }

  lemma DivSucc(y: int, k: int)
    requires k == 4 || k == 100 || k == 400
    ensures y / k == (y - 1) / k + (if y % k == 0 then 1 else 0)
  {
  }

  /** The ordinal numbering counts days: the day after any valid date has the next ordinal. */
  lemma OrdinalNextDay(d: Date)
    requires d.year >= 1 && 1 <= d.month <= 12 && 1 <= d.day <= DaysInMonth(d.year, d.month)
    ensures var n := NextDay(d);
      && n.year >= 1 && 1 <= n.month <= 12 && 1 <= n.day <= DaysInMonth(n.year, n.month)
      && Ordinal(n) == Ordinal(d) + 1
  {
    if d.day < DaysInMonth(d.year, d.month) {
    } else if d.month < 12 {
      assert DaysBeforeMonth(d.year, d.month + 1) == DaysBeforeMonth(d.year, d.month) + DaysInMonth(d.year, d.month);
    } else if d.day == DaysInMonth(d.year, d.month) && d.month == 12 {
      DaysBeforeNextYear(d.year);
    }
  }

  /** Consecutive days have consecutive weekdays; with 0001-01-01 a Monday (Ordinal 1,
      weekday 0) this fixes the weekday of every date. */
  lemma WeekdayNextDay(d: Date)
    requires d.year >= 1 && 1 <= d.month <= 12 && 1 <= d.day <= DaysInMonth(d.year, d.month)
    ensures var n := NextDay(d);
      n.year >= 1 && 1 <= n.month <= 12 && Weekday(n) == (Weekday(d) + 1) % 7
  {
    OrdinalNextDay(d);
    Mod7Succ(Ordinal(d));
  }

  lemma Mod7Succ(k: int)
    ensures (k + 7) % 7 == ((k + 6) % 7 + 1) % 7
  {
  }

  /** The calendar starts on Monday 0001-01-01, ordinal 1. */
  lemma FirstDayIsMonday(d: Date)
    requires d.year == 1 && d.month == 1 && d.day == 1
    ensures Ordinal(d) == 1 && Weekday(d) == 0
  {
    assert DaysBeforeYear(d.year) == 0;
    assert DaysBeforeMonth(d.year, d.month) == 0;
    assert Ordinal(d) == 1;
    MondayOrdinal(d);
  }

  /** Mondays are exactly the days whose ordinal is one more than a multiple of seven. */
  lemma MondayOrdinal(d: Date)
    requires d.year >= 1 && 1 <= d.month <= 12
    ensures Weekday(d) == 0 <==> Ordinal(d) % 7 == 1
  {
  }

  const DayNames := ["Mon", "Tue", "Wed", "Thu", "Fri", "Sat", "Sun"]
  const MonthNames := ["Jan", "Feb", "Mar", "Apr", "May", "Jun", "Jul", "Aug", "Sep", "Oct", "Nov", "Dec"]

  /** rfc2822: strftime("%a, %d %b %Y %H:%M:%S %z") of a UTC instant in the C locale.
      %Y is the year without padding (glibc); %z of UTC is +0000. */
  function Rfc2822(t: DateTime): (r: string)
    requires Valid(t)
    ensures |r| == 27 + |Decimal(t.year)|
    ensures r[|r| - 6..] == " +0000"
  {
    DayNames[Weekday(DateOf(t))] + ", " + Pad2(t.day) + " " + MonthNames[t.month - 1] + " "
    + Decimal(t.year) + " " + Pad2(t.hour) + ":" + Pad2(t.minute) + ":" + Pad2(t.second) + " +0000"
  }

  /** For years 1000-9999 the text has the fixed 31-character form, and every field reads
      back: the weekday of the date, the two-digit day, the month abbreviation, the year and
      the two-digit time, followed by the UTC offset. */
  lemma Rfc2822Fields(t: DateTime)
    requires Valid(t) && 1000 <= t.year
    ensures var r := Rfc2822(t);
      && |r| == 31
      && r[..3] == DayNames[Weekday(DateOf(t))] && r[3..5] == ", "
      && AllDigits(r[5..7]) && DigitsValue(r[5..7]) == t.day
      && r[8..11] == MonthNames[t.month - 1]
      && AllDigits(r[12..16]) && DigitsValue(r[12..16]) == t.year
      && AllDigits(r[17..19]) && DigitsValue(r[17..19]) == t.hour && r[19] == ':'
      && AllDigits(r[20..22]) && DigitsValue(r[20..22]) == t.minute && r[22] == ':'
      && AllDigits(r[23..25]) && DigitsValue(r[23..25]) == t.second
      && r[25..] == " +0000"
  {
    hide Weekday;
    Layout(DayNames[Weekday(DateOf(t))], Pad2(t.day), MonthNames[t.month - 1], Decimal(t.year),
      Pad2(t.hour), Pad2(t.minute), Pad2(t.second));
  }

  /** Where each field of the date text sits, given the field widths. */
  lemma Layout(wd: string, dd: string, mon: string, yyyy: string, hh: string, mi: string, ss: string)
    requires |wd| == 3 && |dd| == 2 && |mon| == 3 && |yyyy| == 4 && |hh| == 2 && |mi| == 2 && |ss| == 2
    ensures var r := wd + ", " + dd + " " + mon + " " + yyyy + " " + hh + ":" + mi + ":" + ss + " +0000";
      && |r| == 31
      && r[..3] == wd && r[3..5] == ", " && r[5..7] == dd && r[8..11] == mon && r[12..16] == yyyy
      && r[17..19] == hh && r[19] == ':' && r[20..22] == mi && r[22] == ':' && r[23..25] == ss
      && r[25..] == " +0000"
  {
    var date := wd + ", " + dd + " " + mon + " " + yyyy;
    var time := hh + ":" + mi + ":" + ss;
    var r := wd + ", " + dd + " " + mon + " " + yyyy + " " + hh + ":" + mi + ":" + ss + " +0000";
    assert r == date + " " + time + " +0000";
    assert r[..16] == date && r[17..25] == time;
  }

  /** The pubDate of the first example entry: 21 January 2026 was a Wednesday. */
  lemma Rfc2822ExampleA()
    ensures Rfc2822(DateTime(2026, 1, 21, 0, 0, 0)) == "Wed, 21 Jan 2026 00:00:00 +0000"
  {
    ExampleWeekdays();
    ExampleNumbers();
  }

  /** The pubDate of the second example entry: 29 December 2025 was a Monday. */
  lemma Rfc2822ExampleB()
    ensures Rfc2822(DateTime(2025, 12, 29, 0, 0, 0)) == "Mon, 29 Dec 2025 00:00:00 +0000"
  {
    ExampleWeekdays();
    ExampleNumbers();
  }

  lemma ExampleWeekdays()
    ensures Weekday(Date(2026, 1, 21)) == 2
    ensures Weekday(Date(2025, 12, 29)) == 0
  {
    assert Ordinal(Date(2026, 1, 21)) == 739637;
    assert Ordinal(Date(2025, 12, 29)) == 739614;
  }

  lemma ExampleNumbers()
    ensures Pad2(0) == "00" && Pad2(21) == "21" && Pad2(29) == "29"
    ensures Decimal(2026) == "2026" && Decimal(2025) == "2025"
  {
  }
}
