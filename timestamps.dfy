/** `last_activity_at_convert` and `date_compare_with_thirty_days_ago`: reading
    the fixed-position `YYYY-MM-DDTHH:MM:SS` prefix of an ISO 8601 / RFC 3339
    timestamp, shifting it by eight hours, writing it back the way
    `str(datetime)` does, and deciding whether a `YYYY-MM-DD` date lies within
    the thirty days before today. */
module Timestamps {
  import opened Text
  import opened Calendar

  /** The fixed shift `last_activity_at_convert` applies. */
  const ShiftHours := 8
  /** Length of the `YYYY-MM-DD HH:MM:SS` prefix that is kept. */
  const PrefixLength := 19
  /** Length of the `YYYY-MM-DD` date that the table shows. */
  const DateLength := 10
  /** The recency window of `date_compare_with_thirty_days_ago`. */
  const WindowDays := 30

  // ---------------------------------------------------------------------------
  // Layout: `%Y-%m-%d` and `%Y-%m-%d %H:%M:%S` with fixed-width fields
  // ---------------------------------------------------------------------------

  /** `%Y-%m-%d` at the start of `s`: four, two and two digits separated by dashes. */
  predicate HasDateFields(s: string)
  {
    |s| >= DateLength && AllDigits(s[..4]) && s[4] == '-' && AllDigits(s[5..7]) && s[7] == '-' && AllDigits(s[8..10])
  }

  predicate IsDateLayout(s: string)
  {
    |s| == DateLength && HasDateFields(s)
  }

  /** `%Y-%m-%d %H:%M:%S`, every field of fixed width. */
  predicate IsDateTimeLayout(s: string)
  {
    |s| == PrefixLength && HasDateFields(s) && s[10] == ' '
    && AllDigits(s[11..13]) && s[13] == ':' && AllDigits(s[14..16]) && s[16] == ':' && AllDigits(s[17..19])
  }

  function DateFields(s: string): Date
    requires HasDateFields(s)
  {
    Date(Value(s[..4]), Value(s[5..7]), Value(s[8..10]))
  }

  function ParseDate(s: string): Date
    requires IsDateLayout(s)
  {
    DateFields(s)
  }

  function ParseDateTime(s: string): DateTime
    requires IsDateTimeLayout(s)
  {
    DateTime(DateFields(s), Value(s[11..13]), Value(s[14..16]), Value(s[17..19]))
  }

  /** `str(date)`: `YYYY-MM-DD`, each field zero-padded. */
  function FormatDate(d: Date): string
    requires ValidDate(d)
  {
    Padded(d.year, 4) + "-" + Padded(d.month, 2) + "-" + Padded(d.day, 2)
  }

  /** `str(datetime)` for a time without microseconds: `YYYY-MM-DD HH:MM:SS`. */
  function FormatDateTime(t: DateTime): string
    requires ValidDateTime(t)
  {
    FormatDate(t.date) + " " + Padded(t.hour, 2) + ":" + Padded(t.minute, 2) + ":" + Padded(t.second, 2)
  }

  /** Where the fields of a `YYYY-MM-DD` text sit. */
  lemma {:induction false} DateSlices(y: string, m: string, d: string)
    requires |y| == 4 && |m| == 2 && |d| == 2
    ensures var s := y + "-" + m + "-" + d;
            |s| == DateLength && s[..4] == y && s[4] == '-' && s[5..7] == m && s[7] == '-' && s[8..10] == d
  {
    var s := y + "-" + m + "-" + d;
    assert s[..4] == y;
    assert s[5..7] == m;
    assert s[8..10] == d;
  }

  /** Where the fields of a `YYYY-MM-DD HH:MM:SS` text sit, given its date part. */
  lemma {:induction false} DateTimeSlices(date: string, h: string, m: string, sec: string)
    requires |date| == DateLength && |h| == 2 && |m| == 2 && |sec| == 2
    ensures var s := date + " " + h + ":" + m + ":" + sec;
            && |s| == PrefixLength && s[..DateLength] == date
            && s[..4] == date[..4] && s[4] == date[4] && s[5..7] == date[5..7] && s[7] == date[7]
            && s[8..10] == date[8..10] && s[10] == ' '
            && s[11..13] == h && s[13] == ':' && s[14..16] == m && s[16] == ':' && s[17..19] == sec
  {
    var s := date + " " + h + ":" + m + ":" + sec;
    assert s[..DateLength] == date;
    assert s[..4] == date[..4];
    assert s[5..7] == date[5..7];
    assert s[8..10] == date[8..10];
    assert s[11..13] == h;
    assert s[14..16] == m;
    assert s[17..19] == sec;
  }

  /** Reading back a written date gives the date. */
  lemma {:induction false} ParseFormatDate(d: Date)
    requires ValidDate(d)
    ensures IsDateLayout(FormatDate(d)) && ParseDate(FormatDate(d)) == d
  {
    Pow10Widths();
    var y, m, dd := Padded(d.year, 4), Padded(d.month, 2), Padded(d.day, 2);
    DateSlices(y, m, dd);
    assert FormatDate(d) == y + "-" + m + "-" + dd;
  }

  /** A `YYYY-MM-DD` text is its three fields joined by dashes. */
  lemma JoinDateFields(s: string)
    requires |s| == DateLength && s[4] == '-' && s[7] == '-'
    ensures s == s[..4] + "-" + s[5..7] + "-" + s[8..10]
  {
  }

  /** Writing a read date gives the text back. */
  lemma {:induction false} FormatParseDate(s: string)
    requires IsDateLayout(s) && ValidDate(ParseDate(s))
    ensures FormatDate(ParseDate(s)) == s
  {
    JoinDateFields(s);
    PaddedValue(s[..4]);
    PaddedValue(s[5..7]);
    PaddedValue(s[8..10]);
  }

  /** Reading back a written time gives the time; its first ten characters are its date. */
  lemma {:induction false} ParseFormatDateTime(t: DateTime)
    requires ValidDateTime(t)
    ensures IsDateTimeLayout(FormatDateTime(t)) && ParseDateTime(FormatDateTime(t)) == t
    ensures FormatDateTime(t)[..DateLength] == FormatDate(t.date)
  {
    ParseFormatDate(t.date);
    DateTimeSlices(FormatDate(t.date), Padded(t.hour, 2), Padded(t.minute, 2), Padded(t.second, 2));
  }

  /** A `YYYY-MM-DD HH:MM:SS` text is its date and its three time fields, joined. */
  lemma JoinDateTimeFields(s: string)
    requires |s| == PrefixLength && s[10] == ' ' && s[13] == ':' && s[16] == ':'
    ensures s == s[..DateLength] + " " + s[11..13] + ":" + s[14..16] + ":" + s[17..19]
  {
  }

  /** Writing a read time gives the text back. */
  lemma {:induction false} FormatParseDateTime(s: string)
    requires IsDateTimeLayout(s) && ValidDateTime(ParseDateTime(s))
    ensures FormatDateTime(ParseDateTime(s)) == s
  {
    var date := s[..DateLength];
    assert date[..4] == s[..4] && date[5..7] == s[5..7] && date[8..10] == s[8..10];
    assert IsDateLayout(date) && ParseDate(date) == ParseDateTime(s).date;
    FormatParseDate(date);
    JoinDateTimeFields(s);
    PaddedValue(s[11..13]);
    PaddedValue(s[14..16]);
    PaddedValue(s[17..19]);
  }

  // ---------------------------------------------------------------------------
  // last_activity_at_convert
  // ---------------------------------------------------------------------------

  /** `s.replace("T", " ")`. */
  function ReplaceT(s: string): (r: string)
    ensures |r| == |s|
    ensures forall i :: 0 <= i < |s| ==> r[i] == (if s[i] == 'T' then ' ' else s[i])
  {
    if s == [] then []
    else [if s[0] == 'T' then ' ' else s[0]] + ReplaceT(s[1..])
  }

  /** `last_activity_at[:19].replace("T", " ")`. */
  function StampPrefix(stamp: string): string
  {
    ReplaceT(stamp[..if |stamp| < PrefixLength then |stamp| else PrefixLength])
  }

  /** The timestamps `last_activity_at_convert` handles without raising: the prefix
      parses with `%Y-%m-%d %H:%M:%S` to a real date and time, and the shifted time
      is still before year 10000. */
  predicate WellFormedStamp(stamp: string)
  {
    var p := StampPrefix(stamp);
    IsDateTimeLayout(p) && ValidDateTime(ParseDateTime(p))
    && (ParseDateTime(p).hour + ShiftHours >= 24 ==> ParseDateTime(p).date != LastDate)
  }

  /** The time a well-formed timestamp denotes, fractional seconds and zone letter dropped. */
  function StampTime(stamp: string): (t: DateTime)
    requires WellFormedStamp(stamp)
    ensures ValidDateTime(t)
  {
    ParseDateTime(StampPrefix(stamp))
  }

  /** `last_activity_at_convert`: the prefix advanced by eight hours, in `str(datetime)` form. */
  function ConvertLastActivityAt(stamp: string): (r: string)
    requires WellFormedStamp(stamp)
    ensures IsDateTimeLayout(r) && ValidDateTime(ParseDateTime(r))
    ensures Seconds(ParseDateTime(r)) == Seconds(StampTime(stamp)) + ShiftHours * 3600
    ensures r[..DateLength] == FormatDate(ParseDateTime(r).date)
  {
    var shifted := AddHours(StampTime(stamp), ShiftHours);
    ParseFormatDateTime(shifted);
    FormatDateTime(shifted)
  }

  /** Hours 16 to 23 roll over into the next calendar day; earlier hours stay on the same day. */
  lemma ConvertedDate(stamp: string)
    requires WellFormedStamp(stamp)
    ensures var t := StampTime(stamp);
            ParseDateTime(ConvertLastActivityAt(stamp)).date
            == if t.hour >= 24 - ShiftHours then NextDay(t.date) else t.date
  {
    var t := StampTime(stamp);
    var r := ParseDateTime(ConvertLastActivityAt(stamp));
    SecondsIdentify(r, AddHours(t, ShiftHours));
  }

  /** Taking eight hours off the converted time recovers the kept prefix, character for character. */
  lemma {:induction false} ConvertRoundTrip(stamp: string)
    requires WellFormedStamp(stamp)
    ensures var t := ParseDateTime(ConvertLastActivityAt(stamp));
            (t.hour < ShiftHours ==> t.date != FirstDate)
            && FormatDateTime(SubtractHours(t, ShiftHours)) == StampPrefix(stamp)
  {
    var t0 := StampTime(stamp);
    var t := ParseDateTime(ConvertLastActivityAt(stamp));
    SecondsIdentify(t, AddHours(t0, ShiftHours));
    SubtractAfterAdd(t0, ShiftHours);
    FormatParseDateTime(StampPrefix(stamp));
  }

  function TwoDigits(c0: char, c1: char): nat
    requires IsDigit(c0) && IsDigit(c1)
  {
    10 * DigitValue(c0) + DigitValue(c1)
  }

  lemma TwoDigitField(s: string)
    requires |s| == 2 && IsDigit(s[0]) && IsDigit(s[1])
    ensures AllDigits(s) && Value(s) == TwoDigits(s[0], s[1])
  {
    assert s[..1][..0] == [];
  }

  lemma FourDigitField(s: string)
    requires |s| == 4 && IsDigit(s[0]) && IsDigit(s[1]) && IsDigit(s[2]) && IsDigit(s[3])
    ensures AllDigits(s) && Value(s) == 100 * TwoDigits(s[0], s[1]) + TwoDigits(s[2], s[3])
  {
    assert s[..3][..2] == s[..2];
    TwoDigitField(s[..2]);
  }

  /** Reads a `YYYY-MM-DD HH:MM:SS` text given character by character. */
  lemma {:induction false} ReadFields(p: string)
    requires |p| == PrefixLength && p[4] == '-' && p[7] == '-' && p[10] == ' ' && p[13] == ':' && p[16] == ':'
    requires IsDigit(p[0]) && IsDigit(p[1]) && IsDigit(p[2]) && IsDigit(p[3])
    requires IsDigit(p[5]) && IsDigit(p[6]) && IsDigit(p[8]) && IsDigit(p[9])
    requires IsDigit(p[11]) && IsDigit(p[12]) && IsDigit(p[14]) && IsDigit(p[15])
    requires IsDigit(p[17]) && IsDigit(p[18])
    ensures IsDateTimeLayout(p)
    ensures ParseDateTime(p) == DateTime(
      Date(100 * TwoDigits(p[0], p[1]) + TwoDigits(p[2], p[3]), TwoDigits(p[5], p[6]), TwoDigits(p[8], p[9])),
      TwoDigits(p[11], p[12]), TwoDigits(p[14], p[15]), TwoDigits(p[17], p[18]))
  {
    FourDigitField(p[..4]);
    TwoDigitField(p[5..7]);
    TwoDigitField(p[8..10]);
    TwoDigitField(p[11..13]);
    TwoDigitField(p[14..16]);
    TwoDigitField(p[17..19]);
  }

  /** The example of the docstring: `2020-02-26T09:55:47.215Z --> 2020-02-26 17:55:47`. */
  lemma ConvertSameDayExample()
    ensures WellFormedStamp("2020-02-26T09:55:47.215Z")
    ensures ConvertLastActivityAt("2020-02-26T09:55:47.215Z") == "2020-02-26 17:55:47"
  {
    var stamp := "2020-02-26T09:55:47.215Z";
    var p := StampPrefix(stamp);
    assert |p| == 19 && p[10] == ' ';
    ReadFields(p);
    assert ParseDateTime(p) == DateTime(Date(2020, 2, 26), 9, 55, 47);
    var r := "2020-02-26 17:55:47";
    ReadFields(r);
    FormatParseDateTime(r);
  }

  /** A late hour carries into the next day: `2020-02-26T17:00:00.000Z` becomes `2020-02-27 01:00:00`. */
  lemma ConvertNextDayExample()
    ensures WellFormedStamp("2020-02-26T17:00:00.000Z")
    ensures ConvertLastActivityAt("2020-02-26T17:00:00.000Z") == "2020-02-27 01:00:00"
  {
    var stamp := "2020-02-26T17:00:00.000Z";
    var p := StampPrefix(stamp);
    assert |p| == 19 && p[10] == ' ';
    ReadFields(p);
    assert ParseDateTime(p) == DateTime(Date(2020, 2, 26), 17, 0, 0);
    var r := "2020-02-27 01:00:00";
    ReadFields(r);
    FormatParseDateTime(r);
  }

  // ---------------------------------------------------------------------------
  // date_compare_with_thirty_days_ago
  // ---------------------------------------------------------------------------

  /** The first date Python 2's `date.strftime` writes; earlier years raise `ValueError`. */
  const StrftimeFirstDate := Date(1900, 1, 1)

  /** The year Python 2's `time.mktime` takes a parsed year for (with `time.accept2dyear`
      set, its default): years 0..68 are read as 2000..2068, years 69..99 as
      1969..1999, and years from 1900 on as they are. */
  function MktimeYear(y: int): int
  {
    if y <= 68 then y + 2000 else if y <= 99 then y + 1900 else y
  }

  /** The years `time.mktime` accepts: two-digit years and years from 1900 on; years
      100..1899 raise `ValueError`. */
  predicate MktimeAccepts(d: Date)
  {
    d.year <= 99 || d.year >= StrftimeFirstDate.year
  }

  /** A two-digit year and the year `time.mktime` reads it as have the same leap days. */
  lemma {:induction false} MktimeLeapYear(y: int)
    requires 1 <= y <= 99
    ensures IsLeapYear(MktimeYear(y)) == IsLeapYear(y)
  {
    var z := MktimeYear(y);
    assert z % 4 == y % 4 && z % 100 == y % 100;
    assert z % 400 != 0;
  }

  /** The date whose local midnight `time.mktime(time.strptime(s, "%Y-%m-%d"))` gives. */
  function MktimeDate(d: Date): (r: Date)
    requires ValidDate(d) && MktimeAccepts(d)
    ensures ValidDate(r) && r.month == d.month && r.day == d.day
    ensures d.year >= StrftimeFirstDate.year ==> r == d
    ensures d.year <= 99 ==> r.year == (if d.year <= 68 then d.year + 2000 else d.year + 1900)
  {
    if d.year <= 99 then
      MktimeLeapYear(d.year);
      Date(MktimeYear(d.year), d.month, d.day)
    else
      d
  }

  /** The dates `date_compare_with_thirty_days_ago` accepts without raising. */
  predicate ComparableDate(s: string)
  {
    s == "" || (IsDateLayout(s) && ValidDate(ParseDate(s)) && MktimeAccepts(ParseDate(s)))
  }

  /** A "today" whose date thirty days back `date.strftime` can still write. */
  predicate ValidToday(today: Date)
  {
    ValidDate(today) && DayNumber(today) - WindowDays >= DayNumber(StrftimeFirstDate)
  }

  /** A date on or after 1900-01-01 has a year from 1900 on. */
  lemma {:induction false} ModernYear(d: Date)
    requires ValidDate(d) && DayNumber(d) >= DayNumber(StrftimeFirstDate)
    ensures d.year >= StrftimeFirstDate.year
  {
    DayNumberOrder(d, StrftimeFirstDate);
  }

  /** `date_compare_with_thirty_days_ago`: false for the empty string; otherwise whether
      the local midnight `time.mktime` gives for the date comes strictly after the one
      it gives for the date thirty days before `today`. */
  function WithinThirtyDays(lastChangedDate: string, today: Date): (recent: bool)
    requires ComparableDate(lastChangedDate) && ValidToday(today)
    ensures recent <==> lastChangedDate != ""
                        && DayNumber(MktimeDate(ParseDate(lastChangedDate))) > DayNumber(today) - WindowDays
  {
    if lastChangedDate == "" then false
    else
      var thirtyDaysAgo := DaysEarlier(today, WindowDays);
      ModernYear(thirtyDaysAgo);
      var changed := MktimeDate(ParseDate(lastChangedDate));
      DayNumberOrder(MktimeDate(thirtyDaysAgo), changed);
      DateBefore(MktimeDate(thirtyDaysAgo), changed)
  }

  /** A date `n` days back, and not before 1900, is recent exactly when `n` is below
      thirty: 29 days ago is, 30 days ago is not. */
  lemma {:induction false} WithinThirtyDaysBoundary(today: Date, n: nat)
    requires ValidToday(today) && DayNumber(today) - n >= DayNumber(StrftimeFirstDate)
    ensures ComparableDate(FormatDate(DaysEarlier(today, n)))
    ensures WithinThirtyDays(FormatDate(DaysEarlier(today, n)), today) <==> n < WindowDays
  {
    var d := DaysEarlier(today, n);
    ModernYear(d);
    ParseFormatDate(d);
  }

  /** A two-digit year is compared as the year `time.mktime` reads it as: `00YY-MM-DD`
      is recent exactly when `20YY-MM-DD` (or `19YY-MM-DD` from 69 on) is. */
  lemma {:induction false} TwoDigitYearRead(d: Date, today: Date)
    requires ValidDate(d) && d.year <= 99 && ValidToday(today)
    ensures ComparableDate(FormatDate(d)) && ComparableDate(FormatDate(MktimeDate(d)))
    ensures WithinThirtyDays(FormatDate(d), today) == WithinThirtyDays(FormatDate(MktimeDate(d)), today)
  {
    ParseFormatDate(d);
    ParseFormatDate(MktimeDate(d));
  }

  /** The empty string is never recent. */
  lemma EmptyNeverRecent(today: Date)
    requires ValidToday(today)
    ensures !WithinThirtyDays("", today)
  {
  }
}
