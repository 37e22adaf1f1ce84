/** Extension methods on `DateTime`: the Chinese zodiac animal and the star sign of a
  * date, and truncation of a time of day to the minute, to a 10-, 15- or 30-minute
  * boundary or to the hour. A `DateTime` is modelled by its calendar fields. */
module DateTimeExtensions {
  import opened ChineseZodiacs
  import opened Constellations

  datatype DateTimeKind = Unspecified | Utc | Local

  /** A `DateTime` as its fields; `fraction` is the number of 100-nanosecond ticks
    * within the second. */
  datatype DateTime = DateTime(year: int, month: int, day: int, hour: int, minute: int,
                               second: int, fraction: int, kind: DateTimeKind)

  predicate IsLeapYear(year: int)
  {
    year % 4 == 0 && (year % 100 != 0 || year % 400 == 0)
  }

  function DaysInMonth(year: int, month: int): (n: int)
    ensures 28 <= n <= 31
  {
    if month == 2 then (if IsLeapYear(year) then 29 else 28)
    else if month == 4 || month == 6 || month == 9 || month == 11 then 30
    else 31
  }

  /** The range every `DateTime` value lies in. */
  predicate Valid(d: DateTime)
  {
    1 <= d.year <= 9999 && 1 <= d.month <= 12 && 1 <= d.day <= DaysInMonth(d.year, d.month) &&
    0 <= d.hour < 24 && 0 <= d.minute < 60 && 0 <= d.second < 60 &&
    0 <= d.fraction < 10_000_000
  }

  /** `new DateTime(year, month, day, hour, minute, second)`: no sub-second part and an
    * unspecified kind. */
  function Make(year: int, month: int, day: int, hour: int, minute: int, second: int): (r: DateTime)
    requires 1 <= year <= 9999 && 1 <= month <= 12 && 1 <= day <= DaysInMonth(year, month)
    requires 0 <= hour < 24 && 0 <= minute < 60 && 0 <= second < 60
    ensures Valid(r) && r.fraction == 0 && r.kind == Unspecified
  {
    DateTime(year, month, day, hour, minute, second, 0, Unspecified)
  }

  // ---------------------------------------------------------------- Chinese zodiac

  /** `GetChineseZodiac`: the year modulo 12, shifted by 8 and wrapped to 0..11, then
    * numbered from 1. */
  function GetChineseZodiac(d: DateTime): (z: ChineseZodiac)
    requires Valid(d)
    ensures z != ChineseZodiacs.Unknown
  {
    var v := d.year % 12 + 8;
    var v := if v > 11 then v % 12 else v;
    FromNumber(v + 1)
  }

  /** The remainder modulo 12 read off a decomposition. */
  lemma ModTwelve(a: int, q: int, k: int)
    requires a == 12 * q + k && 0 <= k < 12
    ensures a % 12 == k
  {
  }

  /** The animal of a year is the `(year + 8) mod 12`-th. */
  lemma ZodiacClosedForm(d: DateTime)
    requires Valid(d)
    ensures GetChineseZodiac(d) == FromNumber((d.year + 8) % 12 + 1)
  {
    var q, k := d.year / 12, d.year % 12;
    if k + 8 > 11 {
      ModTwelve(k + 8, 1, k - 4);
      ModTwelve(d.year + 8, q + 1, k - 4);
    } else {
      ModTwelve(d.year + 8, q, k + 8);
    }
  }

  /** The animals repeat every twelve years. */
  lemma ZodiacPeriod(d: DateTime, e: DateTime)
    requires Valid(d) && Valid(e) && e.year == d.year + 12
    ensures GetChineseZodiac(e) == GetChineseZodiac(d)
  {
    ZodiacClosedForm(d);
    ZodiacClosedForm(e);
    ModTwelve(e.year + 8, (d.year + 8) / 12 + 1, (d.year + 8) % 12);
  }

  /** The animals of 2017 to 2021: 2017 is the year of the cock, 2020 the year of the rat. */
  lemma ZodiacYearsFrom2017()
    ensures GetChineseZodiac(DateTime(2017, 1, 1, 0, 0, 0, 0, Unspecified)) == Cock
    ensures GetChineseZodiac(DateTime(2018, 1, 1, 0, 0, 0, 0, Unspecified)) == Dog
    ensures GetChineseZodiac(DateTime(2019, 1, 1, 0, 0, 0, 0, Unspecified)) == Boar
    ensures GetChineseZodiac(DateTime(2020, 1, 1, 0, 0, 0, 0, Unspecified)) == Rat
    ensures GetChineseZodiac(DateTime(2021, 1, 1, 0, 0, 0, 0, Unspecified)) == Ox
  {
  }

  /** The animals of 2022 to 2024. */
  lemma ZodiacYearsFrom2022()
    ensures GetChineseZodiac(DateTime(2022, 1, 1, 0, 0, 0, 0, Unspecified)) == Tiger
    ensures GetChineseZodiac(DateTime(2023, 1, 1, 0, 0, 0, 0, Unspecified)) == Hare
    ensures GetChineseZodiac(DateTime(2024, 1, 1, 0, 0, 0, 0, Unspecified)) == Dragon
  {
  }

  /** The animals of 2025 and 2026. */
  lemma ZodiacYearsFrom2025()
    ensures GetChineseZodiac(DateTime(2025, 1, 1, 0, 0, 0, 0, Unspecified)) == Snake
    ensures GetChineseZodiac(DateTime(2026, 1, 1, 0, 0, 0, 0, Unspecified)) == Horse
  {
  }

  /** The animals of 2027 to 2030, where the cycle comes back to the cock and the dog. */
  lemma ZodiacYearsFrom2027()
    ensures GetChineseZodiac(DateTime(2027, 1, 1, 0, 0, 0, 0, Unspecified)) == Sheep
    ensures GetChineseZodiac(DateTime(2028, 1, 1, 0, 0, 0, 0, Unspecified)) == Monkey
    ensures GetChineseZodiac(DateTime(2029, 1, 1, 0, 0, 0, 0, Unspecified)) == Cock
    ensures GetChineseZodiac(DateTime(2030, 1, 1, 0, 0, 0, 0, Unspecified)) == Dog
  {
  }

  // ---------------------------------------------------------------- star signs

  /** A sign's description covers the date when the date is on or after its first day in
    * its first month, or on or before its last day in its last month. */
  predicate Covers(c: Constellation, month: int, day: int)
  {
    var desc := Describe(c);
    (desc.startMonth == month && day >= desc.startDay) || (desc.endMonth == month && day <= desc.endDay)
  }

  /** The first of `signs` that covers the date, or `Unknown` when none does. */
  function FirstCovering(signs: seq<Constellation>, month: int, day: int): (c: Constellation)
    ensures c in signs || c == Constellations.Unknown
    ensures c != Constellations.Unknown ==> Covers(c, month, day)
    ensures (forall i | 0 <= i < |signs| :: !Covers(signs[i], month, day)) ==> c == Constellations.Unknown
  {
    if signs == [] then Constellations.Unknown
    else if Covers(signs[0], month, day) then signs[0]
    else FirstCovering(signs[1..], month, day)
  }

  /** `GetStarSign`: the first sign, in declaration order, whose description covers the
    * date; `Unknown` when none does. */
  function GetStarSign(d: DateTime): (c: Constellation)
    requires Valid(d)
    ensures c != Constellations.Unknown ==> Covers(c, d.month, d.day)
  {
    FirstCovering(Signs, d.month, d.day)
  }

  /** The sign of a date read off the calendar: each month holds the end of one sign and
    * the start of the next. */
  function CalendarSign(month: int, day: int): Constellation
  {
    match month
    case 1 => if day >= 20 then Aquarius else Capricorn
    case 2 => if day >= 19 then Pisces else Aquarius
    case 3 => if day >= 21 then Aries else Pisces
    case 4 => if day >= 21 then Taurus else Aries
    case 5 => if day >= 21 then Gemini else Taurus
    case 6 => if day >= 22 then Cancer else Gemini
    case 7 => if day >= 23 then Leo else Cancer
    case 8 => if day >= 23 then Virgo else Leo
    case 9 => if day >= 23 then Libra else Virgo
    case 10 => if day >= 23 then Scorpio else Libra
    case 11 => if day >= 22 then Sagittarius else Scorpio
    case _ => if day >= 22 then Capricorn else Sagittarius
  }

  /** The table has no gaps and no overlaps: on a real date exactly one description
    * covers it, the calendar's sign. */
  lemma CoversExactlyCalendar(month: int, day: int, c: Constellation)
    requires 1 <= month <= 12 && 1 <= day <= 31
    ensures Covers(c, month, day) <==> c == CalendarSign(month, day)
  {
  }

  /** When exactly one sign covers a date and it is listed, the search finds it. */
  lemma {:induction false} FirstCoveringFinds(signs: seq<Constellation>, month: int, day: int, x: Constellation)
    requires x in signs
    requires forall c :: Covers(c, month, day) <==> c == x
    ensures FirstCovering(signs, month, day) == x
  {
    if signs[0] != x {
      FirstCoveringFinds(signs[1..], month, day, x);
    }
  }

  /** Every date gets its calendar sign, so `Unknown` never comes back for a real date,
    * and no other sign covers it. */
  lemma StarSignUnique(d: DateTime, c: Constellation)
    requires Valid(d)
    ensures GetStarSign(d) == CalendarSign(d.month, d.day) != Constellations.Unknown
    ensures Covers(c, d.month, d.day) <==> c == GetStarSign(d)
  {
    var x := CalendarSign(d.month, d.day);
    forall c' ensures Covers(c', d.month, d.day) <==> c' == x {
      CoversExactlyCalendar(d.month, d.day, c');
    }
    FirstCoveringFinds(Signs, d.month, d.day, x);
  }

  // ---------------------------------------------------------------- truncation

  /** Same date and hour. */
  predicate SameHour(a: DateTime, b: DateTime)
  {
    a.year == b.year && a.month == b.month && a.day == b.day && a.hour == b.hour
  }

  /** The date and hour of `d` with the given minute and nothing below it. */
  predicate TruncatedTo(r: DateTime, d: DateTime, minute: int)
  {
    Valid(r) && SameHour(r, d) && r.minute == minute && r.second == 0 && r.fraction == 0 &&
    r.kind == Unspecified
  }

  /** `AccurateToMinute`: the seconds and their fraction are dropped. */
  function AccurateToMinute(d: DateTime): (r: DateTime)
    requires Valid(d)
    ensures TruncatedTo(r, d, d.minute)
  {
    Make(d.year, d.month, d.day, d.hour, d.minute, 0)
  }

  /** The minute `AccurateTo10Minute` keeps. */
  function TenMinuteMark(m: int): (r: int)
    requires 0 <= m < 60
    ensures r == 10 * (m / 10)
  {
    if m < 10 then 0
    else if m < 20 then 10
    else if m < 30 then 20
    else if m < 40 then 30
    else if m < 50 then 40
    else 50
  }

  /** `AccurateTo10Minute`: the minute drops to the start of its ten-minute block. */
  function AccurateTo10Minute(d: DateTime): (r: DateTime)
    requires Valid(d)
    ensures TruncatedTo(r, d, 10 * (d.minute / 10))
    ensures r.minute <= d.minute < r.minute + 10
  {
    Make(d.year, d.month, d.day, d.hour, TenMinuteMark(d.minute), 0)
  }

  /** The minute `AccurateTo15Minute` keeps. */
  function QuarterMark(m: int): (r: int)
    requires 0 <= m < 60
    ensures r == 15 * (m / 15)
  {
    if m < 15 then 0
    else if m < 30 then 15
    else if m < 45 then 30
    else 45
  }

  /** `AccurateTo15Minute`: the minute drops to the start of its quarter hour. */
  function AccurateTo15Minute(d: DateTime): (r: DateTime)
    requires Valid(d)
    ensures TruncatedTo(r, d, 15 * (d.minute / 15))
    ensures r.minute <= d.minute < r.minute + 15
  {
    Make(d.year, d.month, d.day, d.hour, QuarterMark(d.minute), 0)
  }

  /** `AccurateTo30Minute` as the source writes it: minutes up to and including 30 go to
    * 0, later ones to 30. */
  function AccurateTo30MinuteAsWritten(d: DateTime): (r: DateTime)
    requires Valid(d)
    ensures TruncatedTo(r, d, if d.minute <= 30 then 0 else 30)
  {
    var minute := if d.minute <= 30 then 0 else 30;
    Make(d.year, d.month, d.day, d.hour, minute, 0)
  }

  /** At half past the hour the written code returns the full hour, thirty minutes back,
    * although half past is itself a half-hour mark that the quarter-hour truncation keeps;
    * and truncating 12:35 first to ten minutes (12:30) and then to the half hour gives
    * 12:00 instead of 12:30. */
  lemma HalfPastDropsToHour()
    ensures var d := Make(2020, 1, 1, 12, 30, 0);
      AccurateTo30MinuteAsWritten(d).minute == 0 && AccurateTo15Minute(d).minute == 30
    ensures var d := Make(2020, 1, 1, 12, 35, 0);
      AccurateTo30MinuteAsWritten(AccurateTo10Minute(d)).minute == 0 &&
      AccurateTo30MinuteAsWritten(d).minute == 30
  {
  }

  /** `AccurateTo30Minute` as intended: the minute drops to the start of its half hour,
    * like the other truncations. */
  function AccurateTo30Minute(d: DateTime): (r: DateTime)
    requires Valid(d)
    ensures TruncatedTo(r, d, 30 * (d.minute / 30))
    ensures r.minute <= d.minute < r.minute + 30
  {
    var minute := if d.minute < 30 then 0 else 30;
    Make(d.year, d.month, d.day, d.hour, minute, 0)
  }

  /** `AccurateToHour`: minutes, seconds and their fraction are dropped. */
  function AccurateToHour(d: DateTime): (r: DateTime)
    requires Valid(d)
    ensures TruncatedTo(r, d, 0)
  {
    Make(d.year, d.month, d.day, d.hour, 0, 0)
  }

  /** Each truncation is idempotent, and truncating first to a finer boundary that the
    * coarser one is a multiple of changes nothing. */
  lemma TruncationsCompose(d: DateTime)
    requires Valid(d)
    ensures AccurateToMinute(AccurateToMinute(d)) == AccurateToMinute(d)
    ensures AccurateTo10Minute(AccurateTo10Minute(d)) == AccurateTo10Minute(d)
    ensures AccurateTo15Minute(AccurateTo15Minute(d)) == AccurateTo15Minute(d)
    ensures AccurateTo30Minute(AccurateTo30Minute(d)) == AccurateTo30Minute(d)
    ensures AccurateToHour(AccurateToHour(d)) == AccurateToHour(d)
    ensures AccurateTo10Minute(AccurateToMinute(d)) == AccurateTo10Minute(d)
    ensures AccurateTo15Minute(AccurateToMinute(d)) == AccurateTo15Minute(d)
    ensures AccurateTo30Minute(AccurateTo10Minute(d)) == AccurateTo30Minute(d)
    ensures AccurateTo30Minute(AccurateTo15Minute(d)) == AccurateTo30Minute(d)
    ensures AccurateToHour(AccurateTo30Minute(d)) == AccurateToHour(d)
    ensures AccurateToHour(AccurateTo15Minute(d)) == AccurateToHour(d)
    ensures AccurateToHour(AccurateTo10Minute(d)) == AccurateToHour(d)
  {
  }
}
