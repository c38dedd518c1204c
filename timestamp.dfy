/** Timestamps as the record model reads them: `datetime.strptime` with the
    format "%Y-%m-%d %H:%M:%S.%f", Python's proleptic Gregorian day ordinal,
    the `.days` of a difference, and the `int(days / 365)` year count. */
module Timestamp {
  import opened Errors
  import opened Text

  datatype DateTime = DateTime(year: int, month: int, day: int,
                               hour: int, minute: int, second: int, micro: int)

  predicate IsLeapYear(y: int) {
    y % 4 == 0 && (y % 100 != 0 || y % 400 == 0)
  }

  function DaysInYear(y: int): int {
    if IsLeapYear(y) then 366 else 365
  }

  /** The length of month `m`: it fills the gap between the cumulative day
      counts of this month and the next. */
  function DaysInMonth(y: int, m: int): (n: int)
    requires 1 <= m <= 12
    ensures 28 <= n <= 31
    ensures m < 12 ==> DaysBeforeMonth(y, m) + n == DaysBeforeMonth(y, m + 1)
    ensures m == 12 ==> DaysBeforeMonth(y, m) + n == DaysInYear(y)
  {
    if m == 2 then (if IsLeapYear(y) then 29 else 28)
    else if m == 4 || m == 6 || m == 9 || m == 11 then 30
    else 31
  }

  /** The values a `datetime` accepts: years 1 to 9999, a real calendar day,
      and a time of day with microseconds. */
  predicate Valid(t: DateTime) {
    && 1 <= t.year <= 9999
    && 1 <= t.month <= 12
    && 1 <= t.day <= DaysInMonth(t.year, t.month)
    && 0 <= t.hour < 24 && 0 <= t.minute < 60 && 0 <= t.second < 60
    && 0 <= t.micro < 1000000
  }

  /** Days of a common year before the first of each month. */
  const MonthStart: seq<int> := [0, 31, 59, 90, 120, 151, 181, 212, 243, 273, 304, 334]

  function DaysBeforeMonth(y: int, m: int): int
    requires 1 <= m <= 12
  {
    MonthStart[m - 1] + (if m > 2 && IsLeapYear(y) then 1 else 0)
  }

  function DaysBeforeYear(y: int): int
    requires y >= 1
  {
    var p := y - 1;
    p * 365 + p / 4 - p / 100 + p / 400
  }

  /** Python's `date.toordinal()`: 0001-01-01 is day 1. */
  function Ordinal(t: DateTime): int
    requires Valid(t)
  {
    DaysBeforeYear(t.year) + DaysBeforeMonth(t.year, t.month) + t.day
  }

  /** Microseconds since midnight. */
  function TimeOfDay(t: DateTime): int {
    ((t.hour * 60 + t.minute) * 60 + t.second) * 1000000 + t.micro
  }

  /** Microseconds since 0001-01-01 00:00:00 (one day before it, to be exact). */
  function Instant(t: DateTime): int
    requires Valid(t)
  {
    Ordinal(t) * 86400000000 + TimeOfDay(t)
  }

  /** Python's `<` on datetimes: the fields compared in order. On valid
      datetimes this is the order of the instants they denote. */
  predicate Before(a: DateTime, b: DateTime)
    ensures Valid(a) && Valid(b) ==> (Before(a, b) <==> Instant(a) < Instant(b))
  {
    DatesInOrder(a, b);
    DatesInOrder(b, a);
    if a.year != b.year then a.year < b.year
    else if a.month != b.month then a.month < b.month
    else if a.day != b.day then a.day < b.day
    else if a.hour != b.hour then a.hour < b.hour
    else if a.minute != b.minute then a.minute < b.minute
    else if a.second != b.second then a.second < b.second
    else a.micro < b.micro
  }

  /** `<` on datetimes is a strict total order. */
  lemma BeforeIsStrictTotalOrder(a: DateTime, b: DateTime, c: DateTime)
    ensures !Before(a, a)
    ensures Before(a, b) ==> !Before(b, a)
    ensures a != b ==> Before(a, b) || Before(b, a)
    ensures Before(a, b) && Before(b, c) ==> Before(a, c)
  {
  }

  lemma DaysBeforeYearStep(y: int)
    requires y >= 1
    ensures DaysBeforeYear(y + 1) == DaysBeforeYear(y) + DaysInYear(y)
  {
    var p := y - 1;
    assert (p + 1) / 4 - p / 4 == (if y % 4 == 0 then 1 else 0);
    assert (p + 1) / 100 - p / 100 == (if y % 100 == 0 then 1 else 0);
    assert (p + 1) / 400 - p / 400 == (if y % 400 == 0 then 1 else 0);
  }

  /** A whole year separates the first day of `y1` from any later year. */
  lemma {:induction false} YearsInOrder(y1: int, y2: int)
    requires 1 <= y1 < y2
    ensures DaysBeforeYear(y1) + DaysInYear(y1) <= DaysBeforeYear(y2)
    decreases y2 - y1
  {
    DaysBeforeYearStep(y1);
    if y1 + 1 < y2 {
      YearsInOrder(y1 + 1, y2);
    }
  }

  lemma {:induction false} MonthsInOrder(y: int, m1: int, m2: int)
    requires 1 <= m1 < m2 <= 12
    ensures DaysBeforeMonth(y, m1) + DaysInMonth(y, m1) <= DaysBeforeMonth(y, m2)
    decreases m2 - m1
  {
    if m1 + 1 < m2 {
      MonthsInOrder(y, m1 + 1, m2);
    }
  }

  lemma DayOfYearBound(t: DateTime)
    requires Valid(t)
    ensures DaysBeforeMonth(t.year, t.month) + t.day <= DaysInYear(t.year)
  {
  }

  /** The ordinal orders calendar dates as their fields do. */
  lemma OrdinalInOrder(a: DateTime, b: DateTime)
    requires Valid(a) && Valid(b)
    requires a.year < b.year
          || (a.year == b.year && a.month < b.month)
          || (a.year == b.year && a.month == b.month && a.day < b.day)
    ensures Ordinal(a) < Ordinal(b)
  {
    if a.year < b.year {
      DayOfYearBound(a);
      YearsInOrder(a.year, b.year);
    } else if a.month < b.month {
      MonthsInOrder(a.year, a.month, b.month);
    }
  }

  /** An earlier calendar date has the smaller ordinal. */
  lemma DatesInOrder(a: DateTime, b: DateTime)
    ensures Valid(a) && Valid(b)
         && (a.year < b.year
             || (a.year == b.year && a.month < b.month)
             || (a.year == b.year && a.month == b.month && a.day < b.day))
         ==> Ordinal(a) < Ordinal(b)
  {
    if Valid(a) && Valid(b)
       && (a.year < b.year
           || (a.year == b.year && a.month < b.month)
           || (a.year == b.year && a.month == b.month && a.day < b.day)) {
      OrdinalInOrder(a, b);
    }
  }

  /** Comparing datetimes field by field, as Python does, agrees with
      comparing the instants they denote; the day count therefore measures
      time in the order Python's `<` sees it. */
  lemma {:induction false} BeforeMatchesInstant(a: DateTime, b: DateTime)
    requires Valid(a) && Valid(b)
    ensures Before(a, b) <==> Instant(a) < Instant(b)
    ensures a == b <==> Instant(a) == Instant(b)
  {
    if a.year != b.year || a.month != b.month || a.day != b.day {
      if a.year < b.year || (a.year == b.year && a.month < b.month)
         || (a.year == b.year && a.month == b.month && a.day < b.day) {
        OrdinalInOrder(a, b);
      } else {
        OrdinalInOrder(b, a);
      }
    }
  }

  /** The canonical text of a timestamp, "YYYY-MM-DD HH:MM:SS.ffffff": digits
      in these fixed positions and these separators between them. */
  predicate Shaped(s: string) {
    && |s| == 26
    && AllDigits(s[0..4]) && s[4] == '-' && AllDigits(s[5..7]) && s[7] == '-'
    && AllDigits(s[8..10]) && s[10] == ' ' && AllDigits(s[11..13]) && s[13] == ':'
    && AllDigits(s[14..16]) && s[16] == ':' && AllDigits(s[17..19]) && s[19] == '.'
    && AllDigits(s[20..26])
  }

  /** `datetime.strptime(s, "%Y-%m-%d %H:%M:%S.%f")` on the canonical,
      fixed-width form. */
  function Parse(s: string): (r: Result<DateTime>)
    ensures r.Ok? ==> Valid(r.value)
    ensures r.Err? ==> r.error == DateParse
  {
    if !Shaped(s) then Err(DateParse)
    else
      var t := DateTime(DigitsValue(s[0..4]), DigitsValue(s[5..7]), DigitsValue(s[8..10]),
                        DigitsValue(s[11..13]), DigitsValue(s[14..16]), DigitsValue(s[17..19]),
                        DigitsValue(s[20..26]));
      if Valid(t) then Ok(t) else Err(DateParse)
  }

  /** The canonical text of a valid datetime (`strftime` with the same format). */
  function Format(t: DateTime): (s: string)
    requires Valid(t)
  {
    Layout(Pad(t.year, 4), Pad(t.month, 2), Pad(t.day, 2),
           Pad(t.hour, 2), Pad(t.minute, 2), Pad(t.second, 2), Pad(t.micro, 6))
  }

  /** The seven fields of the canonical text with their separators. */
  function Layout(y: string, mo: string, d: string, h: string, mi: string, sec: string, us: string): string {
    y + "-" + mo + "-" + d + " " + h + ":" + mi + ":" + sec + "." + us
  }

  /** Where each field sits in the canonical text. */
  lemma LayoutFields(y: string, mo: string, d: string, h: string, mi: string, sec: string, us: string)
    requires |y| == 4 && |mo| == 2 && |d| == 2 && |h| == 2 && |mi| == 2 && |sec| == 2 && |us| == 6
    ensures var s := Layout(y, mo, d, h, mi, sec, us);
      && |s| == 26
      && s[0..4] == y && s[5..7] == mo && s[8..10] == d
      && s[11..13] == h && s[14..16] == mi && s[17..19] == sec && s[20..26] == us
      && s[4] == '-' && s[7] == '-' && s[10] == ' ' && s[13] == ':' && s[16] == ':' && s[19] == '.'
  {
  }

  /** Text of the canonical length is the layout of its own fields. */
  lemma LayoutOfText(s: string)
    requires |s| == 26
    requires s[4] == '-' && s[7] == '-' && s[10] == ' ' && s[13] == ':' && s[16] == ':' && s[19] == '.'
    ensures s == Layout(s[0..4], s[5..7], s[8..10], s[11..13], s[14..16], s[17..19], s[20..26])
  {
    LayoutFields(s[0..4], s[5..7], s[8..10], s[11..13], s[14..16], s[17..19], s[20..26]);
  }

  /** Every valid datetime's canonical text parses back to it. */
  lemma ParseFormat(t: DateTime)
    requires Valid(t)
    ensures Parse(Format(t)) == Ok(t)
  {
    LayoutFields(Pad(t.year, 4), Pad(t.month, 2), Pad(t.day, 2),
                 Pad(t.hour, 2), Pad(t.minute, 2), Pad(t.second, 2), Pad(t.micro, 6));
    PadValue(t.year, 4);
    PadValue(t.month, 2);
    PadValue(t.day, 2);
    PadValue(t.hour, 2);
    PadValue(t.minute, 2);
    PadValue(t.second, 2);
    PadValue(t.micro, 6);
    var s := Format(t);
    assert Shaped(s);
    assert DigitsValue(s[0..4]) == t.year && DigitsValue(s[5..7]) == t.month && DigitsValue(s[8..10]) == t.day;
    assert DigitsValue(s[11..13]) == t.hour && DigitsValue(s[14..16]) == t.minute;
    assert DigitsValue(s[17..19]) == t.second && DigitsValue(s[20..26]) == t.micro;
  }

  /** Only canonical text parses: whatever parses is the canonical text of
      the datetime it yields. */
  lemma FormatParse(s: string)
    requires Parse(s).Ok?
    ensures Format(Parse(s).value) == s
  {
    PadDigitsValue(s[0..4]);
    PadDigitsValue(s[5..7]);
    PadDigitsValue(s[8..10]);
    PadDigitsValue(s[11..13]);
    PadDigitsValue(s[14..16]);
    PadDigitsValue(s[17..19]);
    PadDigitsValue(s[20..26]);
    LayoutOfText(s);
  }

  /** `(later - earlier).days`: the whole days of the difference, rounded
      down, as `timedelta` normalises a negative difference. */
  function FloorDays(later: DateTime, earlier: DateTime): (d: int)
    requires Valid(later) && Valid(earlier)
    ensures d * 86400000000 <= Instant(later) - Instant(earlier) < (d + 1) * 86400000000
  {
    (Instant(later) - Instant(earlier)) / 86400000000
  }

  /** `int(x / 365)`: division rounded toward zero. */
  function TruncDiv365(x: int): (r: int)
    ensures x >= 0 ==> 0 <= r && r * 365 <= x < (r + 1) * 365
    ensures x < 0 ==> r <= 0 && (r - 1) * 365 < x <= r * 365
  {
    if x >= 0 then x / 365 else -((-x) / 365)
  }

  /** The year count of the record model: whole days between the two
      instants, divided by 365 and truncated. */
  function YearsBetween(from: DateTime, to: DateTime): (r: int)
    requires Valid(from) && Valid(to)
    ensures !Before(to, from) ==> 0 <= r && r * 365 <= FloorDays(to, from) < (r + 1) * 365
    ensures Before(to, from) ==> r <= 0 && (r - 1) * 365 < FloorDays(to, from) <= r * 365
  {
    BeforeMatchesInstant(to, from);
    TruncDiv365(FloorDays(to, from))
  }

  /** Nothing earlier than the start makes a negative count. */
  lemma YearsNonNegative(from: DateTime, to: DateTime)
    requires Valid(from) && Valid(to)
    requires !Before(to, from)
    ensures YearsBetween(from, to) >= 0
  {
    BeforeMatchesInstant(to, from);
  }

  lemma FloorDaysMonotone(from: DateTime, t1: DateTime, t2: DateTime)
    requires Valid(from) && Valid(t1) && Valid(t2)
    requires Instant(t1) <= Instant(t2)
    ensures FloorDays(t1, from) <= FloorDays(t2, from)
  {
  }

  /** A later end never gives a smaller count. */
  lemma YearsMonotone(from: DateTime, t1: DateTime, t2: DateTime)
    requires Valid(from) && Valid(t1) && Valid(t2)
    requires !Before(t2, t1)
    ensures YearsBetween(from, t1) <= YearsBetween(from, t2)
  {
    BeforeMatchesInstant(t2, t1);
    FloorDaysMonotone(from, t1, t2);
    var d1, d2 := FloorDays(t1, from), FloorDays(t2, from);
    assert d1 <= d2;
  }
}
