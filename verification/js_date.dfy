/** Time values and their calendar reading, as ECMA-262 defines them for the
    `Date` object: the proleptic Gregorian calendar, days of exactly
    86 400 000 ms, `toISOString`, and the parsing of a `YYYY-MM-DDTHH:mm`
    string (the value of an `<input type="datetime-local">`) as local time.
    The host's local time is reduced to a fixed offset from UTC. */
module JsDate {
  import opened Outcomes
  import opened JsText

  const MsPerSecond: int := 1000
  const MsPerMinute: int := 60_000
  const MsPerHour: int := 3_600_000
  const MsPerDay: int := 86_400_000

  /** Section 21.4.1.1 of ECMA-262: a time value lies within
      8.64 × 10^15 ms on either side of the epoch. */
  const MaxTime: int := 8_640_000_000_000_000

  predicate IsTimeValue(t: int) {
    -MaxTime <= t <= MaxTime
  }

  /** TimeClip: an out-of-range instant is NaN (`None`). */
  function TimeClip(x: int): Option<int> {
    if IsTimeValue(x) then Some(x) else None
  }

  predicate IsLeap(y: int) {
    y % 4 == 0 && (y % 100 != 0 || y % 400 == 0)
  }

  function DaysInYear(y: int): int {
    if IsLeap(y) then 366 else 365
  }

  /** DayFromYear: the day number of 1 January of year `y`. Dafny's `/` with a
      positive divisor is the floor the standard writes. */
  function DayFromYear(y: int): int {
    365 * (y - 1970) + (y - 1969) / 4 - (y - 1901) / 100 + (y - 1601) / 400
  }

  /** The leap-day counts of DayFromYear step up exactly at multiples of
      4, 100 and 400. */
  lemma QuadStep(y: int)
    ensures (y - 1968) / 4 - (y - 1969) / 4 == (if y % 4 == 0 then 1 else 0)
  {
    var q, r := (y - 1969) / 4, (y - 1969) % 4;
    if r == 3 { assert y - 1968 == 4 * (q + 1); } else { assert y - 1968 == 4 * q + (r + 1); }
  }

  lemma CenturyStep(y: int)
    ensures (y - 1900) / 100 - (y - 1901) / 100 == (if y % 100 == 0 then 1 else 0)
  {
    var q, r := (y - 1901) / 100, (y - 1901) % 100;
    if r == 99 { assert y - 1900 == 100 * (q + 1); } else { assert y - 1900 == 100 * q + (r + 1); }
  }

  lemma QuadCenturyStep(y: int)
    ensures (y - 1600) / 400 - (y - 1601) / 400 == (if y % 400 == 0 then 1 else 0)
  {
    var q, r := (y - 1601) / 400, (y - 1601) % 400;
    if r == 399 { assert y - 1600 == 400 * (q + 1); } else { assert y - 1600 == 400 * q + (r + 1); }
  }

  /** Every fourth year is a leap year, except centuries not divisible by 400. */
  lemma LeapCount(y: int)
    ensures (if y % 4 == 0 then 1 else 0) - (if y % 100 == 0 then 1 else 0) + (if y % 400 == 0 then 1 else 0)
         == (if IsLeap(y) then 1 else 0)
  {
    if y % 100 == 0 {
      var k := y / 100;
      assert y == 4 * (25 * k);
    }
    if y % 400 == 0 {
      var k := y / 400;
      assert y == 100 * (4 * k);
    }
  }

  lemma DayFromYearStep(y: int)
    ensures DayFromYear(y + 1) == DayFromYear(y) + DaysInYear(y)
  {
    QuadStep(y);
    CenturyStep(y);
    QuadCenturyStep(y);
    LeapCount(y);
    assert DayFromYear(y + 1) - DayFromYear(y) == 365
      + ((y - 1968) / 4 - (y - 1969) / 4) - ((y - 1900) / 100 - (y - 1901) / 100)
      + ((y - 1600) / 400 - (y - 1601) / 400);
  }

  /** Each year is at least 365 days long. */
  lemma {:induction false} DayFromYearGrows(a: int, b: int)
    requires a <= b
    ensures DayFromYear(a) + 365 * (b - a) <= DayFromYear(b)
    decreases b - a
  {
    if a < b {
      DayFromYearGrows(a, b - 1);
      YearLength(b - 1);
    }
  }

  /** A year lasts 365 or 366 days. */
  lemma YearLength(y: int)
    ensures DayFromYear(y) + 365 <= DayFromYear(y + 1) <= DayFromYear(y) + 366
  {
    DayFromYearStep(y);
  }

  /** The days of a year are numbered from 0 up to its last month's end. */
  lemma DayWithinYear(z: int, y: int)
    requires DayFromYear(y) <= z < DayFromYear(y + 1)
    ensures 0 <= z - DayFromYear(y) < DaysBeforeMonth(13, IsLeap(y))
  {
    DayFromYearStep(y);
  }

  /** Walks from year `y` towards the year that contains day `z`. */
  function FindYear(z: int, y: int): (r: int)
    ensures DayFromYear(r) <= z < DayFromYear(r + 1)
    decreases if z < DayFromYear(y) then DayFromYear(y) - z + 366 else z - DayFromYear(y)
  {
    YearLength(y);
    YearLength(y - 1);
    if z < DayFromYear(y) then FindYear(z, y - 1)
    else if z < DayFromYear(y + 1) then y
    else FindYear(z, y + 1)
  }

  /** YearFromTime, on day numbers: the year whose days include `z`. */
  function YearFromDay(z: int): (y: int)
    ensures DayFromYear(y) <= z < DayFromYear(y + 1)
  {
    FindYear(z, 1970 + z / 365)
  }

  /** A day in a later year is past the end of every earlier year. */
  lemma PastEarlierYear(r: int, y: int, z: int)
    requires r < y && DayFromYear(y) <= z
    ensures DayFromYear(r + 1) <= z
  {
    DayFromYearGrows(r + 1, y);
  }

  /** Only one year contains a given day. */
  lemma YearFromDayUnique(z: int, y: int)
    requires DayFromYear(y) <= z < DayFromYear(y + 1)
    ensures YearFromDay(z) == y
  {
    var r := YearFromDay(z);
    if r < y {
      PastEarlierYear(r, y, z);
    } else if y < r {
      PastEarlierYear(y, r, z);
    }
  }

  /** Days before the first of month `m` (1 = January; 13 stands for the end
      of the year). */
  function DaysBeforeMonth(m: int, leap: bool): int
    requires 1 <= m <= 13
  {
    var common :=
      if m <= 6 then
        if m <= 3 then (if m == 1 then 0 else if m == 2 then 31 else 59)
        else (if m == 4 then 90 else if m == 5 then 120 else 151)
      else if m <= 9 then (if m == 7 then 181 else if m == 8 then 212 else 243)
      else (if m == 10 then 273 else if m == 11 then 304 else if m == 12 then 334 else 365);
    common + (if leap && m >= 3 then 1 else 0)
  }

  function DaysInMonth(m: int, leap: bool): (n: int)
    requires 1 <= m <= 12
    ensures 28 <= n <= 31
    ensures m == 2 ==> n == (if leap then 29 else 28)
  {
    DaysBeforeMonth(m + 1, leap) - DaysBeforeMonth(m, leap)
  }

  /** MonthFromTime, on the day within the year: searches down from month `m`. */
  function FindMonth(d: int, leap: bool, m: int): (r: int)
    requires 1 <= m <= 12 && 0 <= d < DaysBeforeMonth(m + 1, leap)
    ensures 1 <= r <= m
    ensures DaysBeforeMonth(r, leap) <= d < DaysBeforeMonth(r + 1, leap)
    decreases m
  {
    if DaysBeforeMonth(m, leap) <= d then m else FindMonth(d, leap, m - 1)
  }

  /** A calendar reading of an instant, months and days counted from 1. */
  datatype DateTime = DateTime(year: int, month: int, day: int,
                               hour: int, minute: int, second: int, millisecond: int)

  /** A reading that names an existing minute of an existing day. */
  predicate IsCanonical(dt: DateTime) {
    && 1 <= dt.month <= 12
    && 1 <= dt.day <= DaysInMonth(dt.month, IsLeap(dt.year))
    && 0 <= dt.hour < 24 && 0 <= dt.minute < 60
    && 0 <= dt.second < 60 && 0 <= dt.millisecond < 1000
  }

  /** MakeDay for a month in range: the day number of `year-month-day`; a day
      past the month's end spills into the next month, as the standard says. */
  function MakeDay(year: int, month: int, day: int): int
    requires 1 <= month <= 12
  {
    DayFromYear(year) + DaysBeforeMonth(month, IsLeap(year)) + day - 1
  }

  function MakeTime(hour: int, minute: int, second: int, millisecond: int): int {
    hour * MsPerHour + minute * MsPerMinute + second * MsPerSecond + millisecond
  }

  function MakeDate(day: int, time: int): int {
    day * MsPerDay + time
  }

  function TimeOf(dt: DateTime): int
    requires 1 <= dt.month <= 12
  {
    MakeDate(MakeDay(dt.year, dt.month, dt.day),
             MakeTime(dt.hour, dt.minute, dt.second, dt.millisecond))
  }

  lemma TimeWithinDayParts(tod: int)
    requires 0 <= tod < MsPerDay
    ensures tod / MsPerHour < 24
    ensures MakeTime(tod / MsPerHour, (tod / MsPerMinute) % 60, (tod / MsPerSecond) % 60, tod % MsPerSecond) == tod
    ensures ((tod / MsPerSecond) % 60) * MsPerSecond + tod % MsPerSecond == tod % MsPerMinute
  {
    var q1 := tod / MsPerSecond;
    var q2 := q1 / 60;
    assert q2 == tod / MsPerMinute;
    assert q2 / 60 == tod / MsPerHour;
  }

  /** Whole days are whole minutes, so the minute remainder only depends on the time within the day. */
  lemma MinuteRemainderWithinDay(t: int)
    ensures t % MsPerMinute == (t % MsPerDay) % MsPerMinute
  {
    var day := t / MsPerDay;
    var tod := t % MsPerDay;
    var k := 1440 * day + tod / MsPerMinute;
    assert t == MsPerMinute * k + tod % MsPerMinute;
  }

  /** The month and the day of the month of day `d` (from 0) of a year. */
  function MonthDay(d: int, leap: bool): (r: (int, int))
    requires 0 <= d < DaysBeforeMonth(13, leap)
    ensures 1 <= r.0 <= 12 && 1 <= r.1 <= DaysInMonth(r.0, leap)
    ensures DaysBeforeMonth(r.0, leap) + r.1 - 1 == d
  {
    var month := FindMonth(d, leap, 12);
    (month, d - DaysBeforeMonth(month, leap) + 1)
  }

  /** The calendar date of day number `z`. */
  function DayToDate(z: int): (r: (int, int, int))
    ensures 1 <= r.1 <= 12 && 1 <= r.2 <= DaysInMonth(r.1, IsLeap(r.0))
    ensures MakeDay(r.0, r.1, r.2) == z
  {
    var year := YearFromDay(z);
    DayWithinYear(z, year);
    var md := MonthDay(z - DayFromYear(year), IsLeap(year));
    (year, md.0, md.1)
  }

  /** The UTC calendar reading of instant `t` (YearFromTime, MonthFromTime,
      DateFromTime, HourFromTime, MinFromTime, SecFromTime, msFromTime). */
  function ToDateTime(t: int): (dt: DateTime)
    ensures IsCanonical(dt)
    ensures TimeOf(dt) == t
    ensures dt.second * MsPerSecond + dt.millisecond == t % MsPerMinute
  {
    var day := t / MsPerDay;
    var tod := t % MsPerDay;
    var date := DayToDate(day);
    TimeWithinDayParts(tod);
    MinuteRemainderWithinDay(t);
    var dt := DateTime(date.0, date.1, date.2,
                       tod / MsPerHour, (tod / MsPerMinute) % 60, (tod / MsPerSecond) % 60, tod % MsPerSecond);
    assert TimeOf(dt) == day * MsPerDay + tod;
    dt
  }

  /** Every time value falls in a year of at most six digits. */
  lemma YearOfTimeValue(t: int)
    requires IsTimeValue(t)
    ensures -999999 <= ToDateTime(t).year <= 999999
  {
    var z := t / MsPerDay;
    var y := YearFromDay(z);
    assert ToDateTime(t).year == y;
    if y > 1970 {
      DayFromYearGrows(1970, y);
    } else if y < 1970 {
      DayFromYearGrows(y + 1, 1970);
    }
  }

  lemma Pow10Values()
    ensures Pow10(2) == 100 && Pow10(3) == 1000 && Pow10(4) == 10_000 && Pow10(6) == 1_000_000
  {
    assert Pow10(1) == 10;
    assert Pow10(5) == 100_000;
  }

  /** The year field of `toISOString`: four digits for years 0 to 9999,
      otherwise a sign and six digits (the expanded years of the Date Time
      String Format). */
  function YearString(y: int): (r: string)
    requires -999999 <= y <= 999999
    ensures |r| == (if 0 <= y <= 9999 then 4 else 7)
  {
    Pow10Values();
    if 0 <= y <= 9999 then PadDigits(y, 4)
    else if y < 0 then "-" + PadDigits(-y, 6)
    else "+" + PadDigits(y, 6)
  }

  /** `-MM-DDTHH:mm`: the part of the ISO form between the year and the seconds. */
  function MonthToMinute(dt: DateTime): (r: string)
    requires IsCanonical(dt)
    ensures |r| == 12
  {
    "-" + (PadDigits(dt.month, 2) + ("-" + (PadDigits(dt.day, 2)
      + ("T" + (PadDigits(dt.hour, 2) + (":" + PadDigits(dt.minute, 2)))))))
  }

  /** The Date Time String Format with every element present, on the UTC
      time scale: `YYYY-MM-DDTHH:mm:ss.sssZ`. */
  function FormatIso(dt: DateTime): (r: string)
    requires IsCanonical(dt) && -999999 <= dt.year <= 999999
    ensures |r| == (if 0 <= dt.year <= 9999 then 24 else 27)
  {
    YearString(dt.year) + (MonthToMinute(dt)
      + (":" + PadDigits(dt.second, 2) + "." + PadDigits(dt.millisecond, 3) + "Z"))
  }

  /** `Date.prototype.toISOString` (section 21.4.4.36 of ECMA-262). An
      instant that is not a time value makes it throw; callers check
      `IsTimeValue` first. */
  function ToIsoString(t: int): (r: string)
    requires IsTimeValue(t)
    ensures |r| == (if 0 <= ToDateTime(t).year <= 9999 then 24 else 27)
  {
    YearOfTimeValue(t);
    FormatIso(ToDateTime(t))
  }

  /** `toISOString().slice(0, 16)`: the UTC minute, `YYYY-MM-DDTHH:mm` for
      years 0 to 9999. */
  function IsoMinute(t: int): (r: string)
    requires IsTimeValue(t)
    ensures |r| == 16
  {
    ToIsoString(t)[..16]
  }

  /** The shape of a datetime-local value: `YYYY-MM-DDTHH:mm`. */
  predicate HasLocalDateTimeShape(s: string) {
    && |s| == 16
    && AllDigits(s[0..4]) && s[4] == '-' && AllDigits(s[5..7]) && s[7] == '-'
    && AllDigits(s[8..10]) && s[10] == 'T' && AllDigits(s[11..13]) && s[13] == ':'
    && AllDigits(s[14..16])
  }

  /** `new Date(s).getTime()` for a date-time string without a UTC offset,
      which the Date Time String Format reads as local time; `offset` is the
      local time minus UTC, in ms. Field values out of bounds (month 13, day
      32, minute 60, hour 24 other than `24:00`) and strings of any other
      shape give NaN (`None`); so does a result outside the time-value range. */
  function ParseLocalDateTime(s: string, offset: int): Option<int> {
    if !HasLocalDateTimeShape(s) then None
    else
      var (year, month, day, hour, minute) := LocalDateTimeFields(s);
      if 1 <= month <= 12 && 1 <= day <= 31 && minute <= 59 && (hour <= 23 || (hour == 24 && minute == 0)) then
        TimeClip(MakeDate(MakeDay(year, month, day), MakeTime(hour, minute, 0, 0)) - offset)
      else None
  }

  /** The first sixteen characters of the ISO form of a reading in years 0
      to 9999. */
  function MinuteString(dt: DateTime): (r: string)
    requires IsCanonical(dt) && 0 <= dt.year <= 9999
    ensures |r| == 16
  {
    PadDigits(dt.year, 4) + MonthToMinute(dt)
  }

  lemma FormatIsoPrefix(dt: DateTime)
    requires IsCanonical(dt) && 0 <= dt.year <= 9999
    ensures FormatIso(dt)[..16] == MinuteString(dt)
  {
    var tail := ":" + PadDigits(dt.second, 2) + "." + PadDigits(dt.millisecond, 3) + "Z";
    assert FormatIso(dt) == PadDigits(dt.year, 4) + (MonthToMinute(dt) + tail);
    assert FormatIso(dt) == MinuteString(dt) + tail;
  }

  lemma IsoMinuteFields(t: int)
    requires IsTimeValue(t) && 0 <= ToDateTime(t).year <= 9999
    ensures IsoMinute(t) == MinuteString(ToDateTime(t))
  {
    FormatIsoPrefix(ToDateTime(t));
  }

  /** The five numeric fields of a `YYYY-MM-DDTHH:mm` string. */
  function LocalDateTimeFields(s: string): (f: (int, int, int, int, int))
    requires HasLocalDateTimeShape(s)
  {
    (DigitsValue(s[0..4]), DigitsValue(s[5..7]), DigitsValue(s[8..10]),
     DigitsValue(s[11..13]), DigitsValue(s[14..16]))
  }

  lemma SplitAt(s: string, a: string, b: string)
    requires s == a + b
    ensures s[..|a|] == a && s[|a|..] == b
  {
  }

  /** Where each field of a minute string sits. */
  lemma MinuteStringSlices(dt: DateTime)
    requires IsCanonical(dt) && 0 <= dt.year <= 9999
    ensures var s := MinuteString(dt);
      && s[0..4] == PadDigits(dt.year, 4) && s[4] == '-'
      && s[5..7] == PadDigits(dt.month, 2) && s[7] == '-'
      && s[8..10] == PadDigits(dt.day, 2) && s[10] == 'T'
      && s[11..13] == PadDigits(dt.hour, 2) && s[13] == ':'
      && s[14..16] == PadDigits(dt.minute, 2)
  {
    var s := MinuteString(dt);
    var y, mo, d, h, mi := PadDigits(dt.year, 4), PadDigits(dt.month, 2), PadDigits(dt.day, 2),
      PadDigits(dt.hour, 2), PadDigits(dt.minute, 2);
    var r4 := ":" + mi;
    var r3 := "T" + (h + r4);
    var r2 := "-" + (d + r3);
    var r1 := "-" + (mo + r2);
    assert s == y + r1;
    SplitAt(s, y, r1);
    SplitAt(r1, "-", mo + r2);
    SplitAt(mo + r2, mo, r2);
    SplitAt(r2, "-", d + r3);
    SplitAt(d + r3, d, r3);
    SplitAt(r3, "T", h + r4);
    SplitAt(h + r4, h, r4);
    SplitAt(r4, ":", mi);
    assert s[4..] == r1 && s[5..] == mo + r2 && s[7..] == r2;
    assert s[8..] == d + r3 && s[10..] == r3 && s[11..] == h + r4;
    assert s[13..] == r4 && s[14..] == mi;
  }

  /** A minute string has the datetime-local shape, and its fields are the
      reading's. */
  lemma MinuteStringFields(dt: DateTime)
    requires IsCanonical(dt) && 0 <= dt.year <= 9999
    ensures HasLocalDateTimeShape(MinuteString(dt))
    ensures LocalDateTimeFields(MinuteString(dt)) == (dt.year, dt.month, dt.day, dt.hour, dt.minute)
  {
    Pow10Values();
    PadDigitsValue(dt.year, 4);
    PadDigitsValue(dt.month, 2);
    PadDigitsValue(dt.day, 2);
    PadDigitsValue(dt.hour, 2);
    PadDigitsValue(dt.minute, 2);
    MinuteStringSlices(dt);
  }

  /** A datetime-local value whose fields name an existing minute reads as
      that minute, in local time. */
  lemma ParseLocalDateTimeOfFields(s: string, offset: int, dt: DateTime)
    requires IsCanonical(dt) && HasLocalDateTimeShape(s)
    requires LocalDateTimeFields(s) == (dt.year, dt.month, dt.day, dt.hour, dt.minute)
    ensures ParseLocalDateTime(s, offset)
         == TimeClip(MakeDate(MakeDay(dt.year, dt.month, dt.day), MakeTime(dt.hour, dt.minute, 0, 0)) - offset)
  {
    assert dt.day <= DaysInMonth(dt.month, IsLeap(dt.year));
  }

  /** A minute string reads back as the minute it names, in local time. */
  lemma MinuteStringReadsBack(dt: DateTime, offset: int)
    requires IsCanonical(dt) && 0 <= dt.year <= 9999
    ensures ParseLocalDateTime(MinuteString(dt), offset)
         == TimeClip(MakeDate(MakeDay(dt.year, dt.month, dt.day), MakeTime(dt.hour, dt.minute, 0, 0)) - offset)
  {
    MinuteStringFields(dt);
    ParseLocalDateTimeOfFields(MinuteString(dt), offset, dt);
  }

  /** Setting the seconds and milliseconds of a reading of `t` to zero
      truncates `t` to its minute. */
  lemma MinuteOfReading(t: int, dt: DateTime)
    requires 1 <= dt.month <= 12
    requires TimeOf(dt) == t && dt.second * MsPerSecond + dt.millisecond == t % MsPerMinute
    ensures MakeDate(MakeDay(dt.year, dt.month, dt.day), MakeTime(dt.hour, dt.minute, 0, 0))
         == t - t % MsPerMinute
  {
  }

  /** A datetime-local value naming the minute of a reading of `t` reads
      back as `t` truncated to its minute, shifted by the offset. */
  lemma ReadingReadsBack(t: int, dt: DateTime, iso: string, offset: int)
    requires IsCanonical(dt)
    requires TimeOf(dt) == t && dt.second * MsPerSecond + dt.millisecond == t % MsPerMinute
    requires HasLocalDateTimeShape(iso)
    requires LocalDateTimeFields(iso) == (dt.year, dt.month, dt.day, dt.hour, dt.minute)
    ensures ParseLocalDateTime(iso, offset) == TimeClip(t - t % MsPerMinute - offset)
  {
    MinuteOfReading(t, dt);
    ParseLocalDateTimeOfFields(iso, offset, dt);
  }

  /** Reading the UTC minute string back as local time gives the instant
      truncated to its minute and shifted by the offset: the two agree only
      when the offset is zero. */
  lemma IsoMinuteReadsBack(t: int, offset: int)
    requires IsTimeValue(t) && 0 <= ToDateTime(t).year <= 9999
    ensures ParseLocalDateTime(IsoMinute(t), offset) == TimeClip(t - t % MsPerMinute - offset)
  {
    IsoMinuteFields(t);
    MinuteStringFields(ToDateTime(t));
    ReadingReadsBack(t, ToDateTime(t), IsoMinute(t), offset);
  }

  /** The same, for an instant whose shifted minute is a valid time value. */
  lemma IsoMinuteReadsBackAt(t: int, offset: int, m: int)
    requires IsTimeValue(t) && 0 <= ToDateTime(t).year <= 9999
    requires m == t - t % MsPerMinute - offset && IsTimeValue(m)
    ensures ParseLocalDateTime(IsoMinute(t), offset) == Some(m)
  {
    IsoMinuteReadsBack(t, offset);
    ClipShiftedMinute(t, offset, m);
  }

  lemma ClipShiftedMinute(t: int, offset: int, m: int)
    requires m == t - t % MsPerMinute - offset && IsTimeValue(m)
    ensures TimeClip(t - t % MsPerMinute - offset) == Some(m)
  {
  }

  lemma {:induction false} DaysBeforeMonthGrows(a: int, b: int, leap: bool)
    requires 1 <= a < b <= 13
    ensures DaysBeforeMonth(a + 1, leap) <= DaysBeforeMonth(b, leap)
    decreases b - a
  {
    if a + 1 < b {
      DaysBeforeMonthGrows(a + 1, b, leap);
      assert DaysInMonth(a + 1, leap) >= 28;
    }
  }

  /** Only one month contains a given day of the year. */
  lemma FindMonthUnique(d: int, leap: bool, m: int)
    requires 1 <= m <= 12 && DaysBeforeMonth(m, leap) <= d < DaysBeforeMonth(m + 1, leap)
    ensures FindMonth(d, leap, 12) == m
  {
    var r := FindMonth(d, leap, 12);
    if r < m {
      DaysBeforeMonthGrows(r, m, leap);
    } else if m < r {
      DaysBeforeMonthGrows(m, r, leap);
    }
  }

  /** An existing day of the year `year` is one of that year's days. */
  lemma MakeDayInYear(year: int, month: int, day: int)
    requires 1 <= month <= 12 && 1 <= day <= DaysInMonth(month, IsLeap(year))
    ensures DayFromYear(year) <= MakeDay(year, month, day) < DayFromYear(year + 1)
  {
    DayFromYearStep(year);
    DaysBeforeMonthGrows(month, 13, IsLeap(year));
  }

  /** Only one month and day name a given day of the year. */
  lemma MonthDayUnique(month: int, day: int, leap: bool)
    requires 1 <= month <= 12 && 1 <= day <= DaysInMonth(month, leap)
    ensures 0 <= DaysBeforeMonth(month, leap) + day - 1 < DaysBeforeMonth(13, leap)
    ensures MonthDay(DaysBeforeMonth(month, leap) + day - 1, leap) == (month, day)
  {
    DaysBeforeMonthGrows(month, 13, leap);
    FindMonthUnique(DaysBeforeMonth(month, leap) + day - 1, leap, month);
  }

  lemma DayToDateOfMakeDay(year: int, month: int, day: int)
    requires 1 <= month <= 12 && 1 <= day <= DaysInMonth(month, IsLeap(year))
    ensures DayToDate(MakeDay(year, month, day)) == (year, month, day)
  {
    var z := MakeDay(year, month, day);
    MakeDayInYear(year, month, day);
    YearFromDayUnique(z, year);
    MonthDayUnique(month, day, IsLeap(year));
  }

  lemma TimeOfDayOfParts(hour: int, minute: int, second: int, millisecond: int)
    requires 0 <= hour < 24 && 0 <= minute < 60 && 0 <= second < 60 && 0 <= millisecond < 1000
    ensures var tod := MakeTime(hour, minute, second, millisecond);
      && 0 <= tod < MsPerDay
      && tod / MsPerHour == hour && (tod / MsPerMinute) % 60 == minute
      && (tod / MsPerSecond) % 60 == second && tod % MsPerSecond == millisecond
  {
    var tod := MakeTime(hour, minute, second, millisecond);
    var s := second * MsPerSecond + millisecond;
    assert tod / MsPerSecond == hour * 3600 + minute * 60 + second;
    assert tod / MsPerMinute == hour * 60 + minute;
  }

  /** A canonical reading is the calendar reading of its own instant. */
  lemma ToDateTimeOfTimeOf(dt: DateTime)
    requires IsCanonical(dt)
    ensures ToDateTime(TimeOf(dt)) == dt
  {
    var z := MakeDay(dt.year, dt.month, dt.day);
    var tod := MakeTime(dt.hour, dt.minute, dt.second, dt.millisecond);
    TimeOfDayOfParts(dt.hour, dt.minute, dt.second, dt.millisecond);
    var t := TimeOf(dt);
    assert t == z * MsPerDay + tod;
    assert t / MsPerDay == z && t % MsPerDay == tod;
    DayToDateOfMakeDay(dt.year, dt.month, dt.day);
  }

  /** The minute string of the instant a canonical reading denotes. */
  lemma IsoMinuteOfReading(dt: DateTime)
    requires IsCanonical(dt) && 0 <= dt.year <= 9999
    ensures IsTimeValue(TimeOf(dt))
    ensures IsoMinute(TimeOf(dt)) == MinuteString(dt)
  {
    DayFromYearGrows(0, 1970);
    DayFromYearGrows(1970, 10000);
    ToDateTimeOfTimeOf(dt);
    IsoMinuteFields(TimeOf(dt));
  }

  /** Two datetime-local strings that agree field by field are equal. */
  lemma SameSlicesSameString(m: string, s: string)
    requires |m| == 16 && |s| == 16
    requires m[0..4] == s[0..4] && m[4] == s[4] && m[5..7] == s[5..7] && m[7] == s[7]
    requires m[8..10] == s[8..10] && m[10] == s[10] && m[11..13] == s[11..13] && m[13] == s[13]
    requires m[14..16] == s[14..16]
    ensures m == s
  {
    forall i | 0 <= i < 16
      ensures m[i] == s[i]
    {
      if i < 4 { assert m[i] == m[0..4][i]; assert s[i] == s[0..4][i]; }
      else if 5 <= i < 7 { assert m[i] == m[5..7][i - 5]; assert s[i] == s[5..7][i - 5]; }
      else if 8 <= i < 10 { assert m[i] == m[8..10][i - 8]; assert s[i] == s[8..10][i - 8]; }
      else if 11 <= i < 13 { assert m[i] == m[11..13][i - 11]; assert s[i] == s[11..13][i - 11]; }
      else if 14 <= i { assert m[i] == m[14..16][i - 14]; assert s[i] == s[14..16][i - 14]; }
    }
  }

  /** A datetime-local value is the minute string of the reading its fields
      name. */
  lemma MinuteStringOfFields(s: string, dt: DateTime)
    requires HasLocalDateTimeShape(s) && IsCanonical(dt) && 0 <= dt.year <= 9999
    requires LocalDateTimeFields(s) == (dt.year, dt.month, dt.day, dt.hour, dt.minute)
    ensures MinuteString(dt) == s
  {
    MinuteStringSlices(dt);
    LocalDateTimeSlices(s, dt.year, dt.month, dt.day, dt.hour, dt.minute);
    SameSlicesSameString(MinuteString(dt), s);
  }

  /** Each field of a datetime-local value is the padded rendering of its value. */
  lemma LocalDateTimeSlices(s: string, year: int, month: int, day: int, hour: int, minute: int)
    requires HasLocalDateTimeShape(s)
    requires LocalDateTimeFields(s) == (year, month, day, hour, minute)
    ensures year >= 0 && month >= 0 && day >= 0 && hour >= 0 && minute >= 0
    ensures s[0..4] == PadDigits(year, 4) && s[4] == '-'
    ensures s[5..7] == PadDigits(month, 2) && s[7] == '-'
    ensures s[8..10] == PadDigits(day, 2) && s[10] == 'T'
    ensures s[11..13] == PadDigits(hour, 2) && s[13] == ':'
    ensures s[14..16] == PadDigits(minute, 2)
  {
    PadDigitsOfValue(s[0..4]);
    PadDigitsOfValue(s[5..7]);
    PadDigitsOfValue(s[8..10]);
    PadDigitsOfValue(s[11..13]);
    PadDigitsOfValue(s[14..16]);
  }

  /** The year field of a datetime-local value has four digits. */
  lemma LocalYearRange(s: string)
    requires HasLocalDateTimeShape(s)
    ensures 0 <= LocalDateTimeFields(s).0 <= 9999
  {
    Pow10Values();
    DigitsValueBound(s[0..4]);
  }

  /** `2024-02-29T23:59` and every other canonical datetime-local value is the
      UTC minute string of the instant it denotes when the offset is zero. */
  lemma LocalDateTimeFormatsBack(s: string)
    requires HasLocalDateTimeShape(s)
    requires var (y, mo, d, h, mi) := LocalDateTimeFields(s);
      1 <= mo <= 12 && 1 <= d <= DaysInMonth(mo, IsLeap(y)) && h <= 23 && mi <= 59
    ensures ParseLocalDateTime(s, 0).Some?
    ensures IsoMinute(ParseLocalDateTime(s, 0).value) == s
  {
    var f := LocalDateTimeFields(s);
    var dt := DateTime(f.0, f.1, f.2, f.3, f.4, 0, 0);
    LocalYearRange(s);
    IsoMinuteOfReading(dt);
    ParseLocalDateTimeOfFields(s, 0, dt);
    MinuteStringOfFields(s, dt);
  }

  /** Outside years 0 to 9999 the ISO form starts with a sign, so its first
      sixteen characters are not a datetime-local value and read as NaN. */
  lemma IsoMinuteOutsideFourDigitYears(t: int, offset: int)
    requires IsTimeValue(t) && !(0 <= ToDateTime(t).year <= 9999)
    ensures IsoMinute(t)[0] == (if ToDateTime(t).year < 0 then '-' else '+')
    ensures ParseLocalDateTime(IsoMinute(t), offset) == None
  {
    var dt := ToDateTime(t);
    YearOfTimeValue(t);
    assert IsoMinute(t)[0] == FormatIso(dt)[0] == YearString(dt.year)[0];
    assert !IsDigit(IsoMinute(t)[0]);
    assert IsoMinute(t)[0..4][0] == IsoMinute(t)[0];
  }
}
