/** Proleptic-Gregorian dates and times of day, as Python's `datetime` module
    keeps them: years 1..9999, day ordinals counted from 0001-01-01, and the
    hour carry that `datetime + timedelta(hours=...)` performs. */
module Calendar {

  datatype Date = Date(year: int, month: int, day: int)

  datatype DateTime = DateTime(date: Date, hour: int, minute: int, second: int)

  const MinYear := 1
  const MaxYear := 9999
  const FirstDate := Date(MinYear, 1, 1)
  const LastDate := Date(MaxYear, 12, 31)

  predicate IsLeapYear(y: int)
  {
    y % 4 == 0 && (y % 100 != 0 || y % 400 == 0)
  }

  function DaysInMonth(y: int, m: int): (n: int)
    requires 1 <= m <= 12
    ensures 28 <= n <= 31
  {
    if m == 2 then (if IsLeapYear(y) then 29 else 28)
    else if m == 4 || m == 6 || m == 9 || m == 11 then 30
    else 31
  }

  function DaysInYear(y: int): int
  {
    if IsLeapYear(y) then 366 else 365
  }

  predicate ValidDate(d: Date)
  {
    MinYear <= d.year <= MaxYear && 1 <= d.month <= 12 && 1 <= d.day <= DaysInMonth(d.year, d.month)
  }

  predicate ValidDateTime(t: DateTime)
  {
    ValidDate(t.date) && 0 <= t.hour < 24 && 0 <= t.minute < 60 && 0 <= t.second < 60
  }

  /** Strict calendar order: year first, then month, then day. */
  predicate DateBefore(a: Date, b: Date)
  {
    a.year < b.year || (a.year == b.year && (a.month < b.month || (a.month == b.month && a.day < b.day)))
  }

  // ---------------------------------------------------------------------------
  // Day ordinals (Python's date.toordinal: 0001-01-01 is day 1)
  // ---------------------------------------------------------------------------

  /** Days in the years before year `y`. */
  function DaysBeforeYear(y: int): int
    requires y >= 1
  {
    var p := y - 1;
    p * 365 + p / 4 - p / 100 + p / 400
  }

  /** Days in year `y` before the first of month `m`. */
  function DaysBeforeMonth(y: int, m: int): int
    requires 1 <= m <= 12
  {
    [0, 31, 59, 90, 120, 151, 181, 212, 243, 273, 304, 334][m - 1] + (if m > 2 && IsLeapYear(y) then 1 else 0)
  }

  function DayNumber(d: Date): int
    requires ValidDate(d)
  {
    DaysBeforeYear(d.year) + DaysBeforeMonth(d.year, d.month) + d.day
  }

  /** Each of the three quotients grows by one exactly at a multiple of its divisor. */
  lemma QuotientSteps(y: int)
    ensures y / 4 == (y - 1) / 4 + (if y % 4 == 0 then 1 else 0)
    ensures y / 100 == (y - 1) / 100 + (if y % 100 == 0 then 1 else 0)
    ensures y / 400 == (y - 1) / 400 + (if y % 400 == 0 then 1 else 0)
  {
  }

  lemma DivisorsNest(y: int)
    ensures y % 400 == 0 ==> y % 100 == 0
    ensures y % 100 == 0 ==> y % 4 == 0
  {
  }

  lemma {:induction false} DaysBeforeNextYear(y: int)
    requires y >= 1
    ensures DaysBeforeYear(y + 1) == DaysBeforeYear(y) + DaysInYear(y)
  {
    QuotientSteps(y);
    DivisorsNest(y);
  }

  lemma DaysBeforeNextMonth(y: int, m: int)
    requires 1 <= m < 12
    ensures DaysBeforeMonth(y, m + 1) == DaysBeforeMonth(y, m) + DaysInMonth(y, m)
  {
  }

  lemma DaysBeforeDecember(y: int)
    ensures DaysBeforeMonth(y, 12) + DaysInMonth(y, 12) == DaysInYear(y)
  {
  }

  lemma {:induction false} YearsAscend(y1: int, y2: int)
    requires 1 <= y1 < y2
    ensures DaysBeforeYear(y1) + DaysInYear(y1) <= DaysBeforeYear(y2)
    decreases y2 - y1
  {
    DaysBeforeNextYear(y1);
    if y1 + 1 < y2 {
      YearsAscend(y1 + 1, y2);
    }
  }

  lemma {:induction false} MonthsAscend(y: int, m1: int, m2: int)
    requires 1 <= m1 < m2 <= 12
    ensures DaysBeforeMonth(y, m1) + DaysInMonth(y, m1) <= DaysBeforeMonth(y, m2)
    decreases m2 - m1
  {
    DaysBeforeNextMonth(y, m1);
    if m1 + 1 < m2 {
      MonthsAscend(y, m1 + 1, m2);
    }
  }

  /** A valid date's day of the year lies in 1..DaysInYear. */
  lemma DayOfYearBounds(d: Date)
    requires ValidDate(d)
    ensures 1 <= DaysBeforeMonth(d.year, d.month) + d.day <= DaysInYear(d.year)
  {
    if d.month < 12 {
      MonthsAscend(d.year, d.month, 12);
    }
    DaysBeforeDecember(d.year);
  }

  lemma {:induction false} DayNumberAscends(a: Date, b: Date)
    requires ValidDate(a) && ValidDate(b) && DateBefore(a, b)
    ensures DayNumber(a) < DayNumber(b)
  {
    if a.year < b.year {
      DayOfYearBounds(a);
      DayOfYearBounds(b);
      YearsAscend(a.year, b.year);
    } else if a.month < b.month {
      MonthsAscend(a.year, a.month, b.month);
    }
  }

  /** Day ordinals order dates exactly as the calendar does, and identify them. */
  lemma {:induction false} DayNumberOrder(a: Date, b: Date)
    requires ValidDate(a) && ValidDate(b)
    ensures DateBefore(a, b) <==> DayNumber(a) < DayNumber(b)
    ensures a == b <==> DayNumber(a) == DayNumber(b)
  {
    if DateBefore(a, b) {
      DayNumberAscends(a, b);
    } else if DateBefore(b, a) {
      DayNumberAscends(b, a);
    } else {
      assert a == b;
    }
  }

  // ---------------------------------------------------------------------------
  // Day steps
  // ---------------------------------------------------------------------------

  /** The following calendar day, with month and year carry. */
  function NextDay(d: Date): (r: Date)
    requires ValidDate(d) && d != LastDate
    ensures ValidDate(r) && DayNumber(r) == DayNumber(d) + 1
  {
    if d.day < DaysInMonth(d.year, d.month) then
      d.(day := d.day + 1)
    else if d.month < 12 then
      DaysBeforeNextMonth(d.year, d.month);
      Date(d.year, d.month + 1, 1)
    else
      DaysBeforeNextYear(d.year);
      DaysBeforeDecember(d.year);
      Date(d.year + 1, 1, 1)
  }

  /** The preceding calendar day, with month and year borrow. */
  function PrevDay(d: Date): (r: Date)
    requires ValidDate(d) && d != FirstDate
    ensures ValidDate(r) && r != LastDate && NextDay(r) == d
  {
    if d.day > 1 then
      d.(day := d.day - 1)
    else if d.month > 1 then
      Date(d.year, d.month - 1, DaysInMonth(d.year, d.month - 1))
    else
      Date(d.year - 1, 12, 31)
  }

  lemma PrevDayNumber(d: Date)
    requires ValidDate(d) && d != FirstDate
    ensures DayNumber(PrevDay(d)) == DayNumber(d) - 1
  {
  }

  lemma NextPrevDay(d: Date)
    requires ValidDate(d) && d != LastDate
    ensures NextDay(d) != FirstDate && PrevDay(NextDay(d)) == d
  {
    DayNumberOrder(NextDay(d), PrevDay(NextDay(d)));
    DayNumberOrder(FirstDate, NextDay(d));
  }

  /** The date `n` days before `d` (Python's `d + timedelta(days=-n)`). */
  function DaysEarlier(d: Date, n: nat): (r: Date)
    requires ValidDate(d) && DayNumber(d) > n
    ensures ValidDate(r) && DayNumber(r) == DayNumber(d) - n
    decreases n
  {
    if n == 0 then d
    else
      PrevDayNumber(d);
      DaysEarlier(PrevDay(d), n - 1)
  }

  // ---------------------------------------------------------------------------
  // Times of day
  // ---------------------------------------------------------------------------

  /** Seconds since 0001-01-01 00:00:00 minus one day: an independent measure of a time. */
  function Seconds(t: DateTime): int
    requires ValidDateTime(t)
  {
    ((DayNumber(t.date) * 24 + t.hour) * 60 + t.minute) * 60 + t.second
  }

  lemma {:induction false} SecondsIdentify(a: DateTime, b: DateTime)
    requires ValidDateTime(a) && ValidDateTime(b) && Seconds(a) == Seconds(b)
    ensures a == b
  {
    var ra := (a.hour * 60 + a.minute) * 60 + a.second;
    var rb := (b.hour * 60 + b.minute) * 60 + b.second;
    assert 0 <= ra < 86400 && 0 <= rb < 86400;
    assert DayNumber(a.date) * 86400 + ra == DayNumber(b.date) * 86400 + rb;
    assert DayNumber(a.date) == DayNumber(b.date);
    DayNumberOrder(a.date, b.date);
  }

  /** `t + timedelta(hours=h)` for 0 <= h < 24: hours past midnight carry into the next day. */
  function AddHours(t: DateTime, h: int): (r: DateTime)
    requires ValidDateTime(t) && 0 <= h < 24
    requires t.hour + h >= 24 ==> t.date != LastDate
    ensures ValidDateTime(r) && Seconds(r) == Seconds(t) + h * 3600
  {
    if t.hour + h < 24 then t.(hour := t.hour + h)
    else DateTime(NextDay(t.date), t.hour + h - 24, t.minute, t.second)
  }

  /** `t - timedelta(hours=h)` for 0 <= h < 24: hours before midnight borrow from the previous day. */
  function SubtractHours(t: DateTime, h: int): (r: DateTime)
    requires ValidDateTime(t) && 0 <= h < 24
    requires t.hour < h ==> t.date != FirstDate
    ensures ValidDateTime(r) && Seconds(r) == Seconds(t) - h * 3600
  {
    if t.hour >= h then t.(hour := t.hour - h)
    else
      PrevDayNumber(t.date);
      DateTime(PrevDay(t.date), t.hour + 24 - h, t.minute, t.second)
  }

  /** Subtracting the hours that were added gives the original time back. */
  lemma {:induction false} SubtractAfterAdd(t: DateTime, h: int)
    requires ValidDateTime(t) && 0 <= h < 24
    requires t.hour + h >= 24 ==> t.date != LastDate
    ensures var r := AddHours(t, h);
            (r.hour < h ==> r.date != FirstDate) && SubtractHours(r, h) == t
  {
    var r := AddHours(t, h);
    if r.hour < h {
      DayNumberOrder(r.date, FirstDate);
    }
    SecondsIdentify(SubtractHours(r, h), t);
  }

  /** Adding the hours that were subtracted gives the original time back. */
  lemma {:induction false} AddAfterSubtract(t: DateTime, h: int)
    requires ValidDateTime(t) && 0 <= h < 24
    requires t.hour < h ==> t.date != FirstDate
    ensures var r := SubtractHours(t, h);
            (r.hour + h >= 24 ==> r.date != LastDate) && AddHours(r, h) == t
  {
    var r := SubtractHours(t, h);
    if r.hour + h >= 24 {
      DayNumberOrder(r.date, LastDate);
      DayNumberOrder(t.date, LastDate);
    }
    SecondsIdentify(AddHours(r, h), t);
  }
}
