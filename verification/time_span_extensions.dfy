/** Extension methods on `TimeSpan` that drop the parts of an interval below a second, a
  * minute, an hour or a day. A `TimeSpan` is a signed 64-bit count of 100-nanosecond
  * ticks, and its components are read off with C#'s truncating division. */
module TimeSpanExtensions {
  import opened MathUtils

  const TicksPerSecond: int := 10_000_000
  const TicksPerMinute: int := 600_000_000
  const TicksPerHour: int := 36_000_000_000
  const TicksPerDay: int := 864_000_000_000

  /** The whole seconds a `TimeSpan` can hold either way, `Int64.MaxValue / TicksPerSecond`. */
  const MaxSeconds: int := 922_337_203_685

  datatype TimeSpan = TimeSpan(ticks: int)

  /** A tick count that fits a `long`. */
  predicate Valid(t: TimeSpan)
  {
    -0x8000_0000_0000_0000 <= t.ticks < 0x8000_0000_0000_0000
  }

  function Days(t: TimeSpan): int
  {
    Quot(t.ticks, TicksPerDay)
  }

  function Hours(t: TimeSpan): int
  {
    Rem(Quot(t.ticks, TicksPerHour), 24)
  }

  function Minutes(t: TimeSpan): int
  {
    Rem(Quot(t.ticks, TicksPerMinute), 60)
  }

  function Seconds(t: TimeSpan): int
  {
    Rem(Quot(t.ticks, TicksPerSecond), 60)
  }

  /** The total number of seconds `new TimeSpan(days, hours, minutes, seconds)` stands for. */
  function TotalSeconds(days: int, hours: int, minutes: int, seconds: int): int
  {
    days * 86400 + hours * 3600 + minutes * 60 + seconds
  }

  /** `new TimeSpan(days, hours, minutes, seconds)`, which throws unless the total fits in
    * `MaxSeconds` either way. */
  function FromParts(days: int, hours: int, minutes: int, seconds: int): (r: TimeSpan)
    requires -MaxSeconds <= TotalSeconds(days, hours, minutes, seconds) <= MaxSeconds
    ensures Valid(r)
    ensures r.ticks == TotalSeconds(days, hours, minutes, seconds) * TicksPerSecond
  {
    TimeSpan(TotalSeconds(days, hours, minutes, seconds) * TicksPerSecond)
  }

  /** The reference for every trim: the tick count truncated toward zero to a whole number
    * of units. */
  function Truncate(ticks: int, unit: int): int
    requires unit > 0
  {
    Quot(ticks, unit) * unit
  }

  // ---------------------------------------------------------------- arithmetic

  /** Minutes, hours and days are whole numbers of the next smaller unit, so dividing
    * the ticks by a unit goes through the smaller units. */
  lemma NestedUnits(a: int)
    ensures Quot(a, TicksPerMinute) == Quot(Quot(a, TicksPerSecond), 60)
    ensures Quot(a, TicksPerHour) == Quot(Quot(a, TicksPerMinute), 60)
    ensures Quot(a, TicksPerDay) == Quot(Quot(a, TicksPerHour), 24)
  {
  }

  /** The components of an interval put back together, down to the seconds, minutes,
    * hours or days, give its whole number of that unit: the components carry the sign of
    * the interval, so nothing is lost between them. */
  lemma {:induction false} PartsAddUp(t: TimeSpan)
    ensures TotalSeconds(Days(t), Hours(t), Minutes(t), Seconds(t)) == Quot(t.ticks, TicksPerSecond)
    ensures TotalSeconds(Days(t), Hours(t), Minutes(t), 0) == Quot(t.ticks, TicksPerMinute) * 60
    ensures TotalSeconds(Days(t), Hours(t), 0, 0) == Quot(t.ticks, TicksPerHour) * 3600
    ensures TotalSeconds(Days(t), 0, 0, 0) == Quot(t.ticks, TicksPerDay) * 86400
  {
    NestedUnits(t.ticks);
    var sec := Quot(t.ticks, TicksPerSecond);
    var min := Quot(t.ticks, TicksPerMinute);
    var hour := Quot(t.ticks, TicksPerHour);
    QuotRem(sec, 60);
    QuotRem(min, 60);
    QuotRem(hour, 24);
  }

  /** `TrimToSeconds`: the interval rebuilt from its days, hours, minutes and seconds,
    * which is its tick count truncated toward zero to whole seconds. */
  function TrimToSeconds(t: TimeSpan): (r: TimeSpan)
    requires Valid(t)
    ensures Valid(r) && r.ticks == Truncate(t.ticks, TicksPerSecond)
  {
    PartsAddUp(t);
    FromParts(Days(t), Hours(t), Minutes(t), Seconds(t))
  }

  /** `TrimToMinutes`: the interval rebuilt from its days, hours and minutes. */
  function TrimToMinutes(t: TimeSpan): (r: TimeSpan)
    requires Valid(t)
    ensures Valid(r) && r.ticks == Truncate(t.ticks, TicksPerMinute)
  {
    PartsAddUp(t);
    FromParts(Days(t), Hours(t), Minutes(t), 0)
  }

  /** `TrimToHours`: the interval rebuilt from its days and hours. */
  function TrimToHours(t: TimeSpan): (r: TimeSpan)
    requires Valid(t)
    ensures Valid(r) && r.ticks == Truncate(t.ticks, TicksPerHour)
  {
    PartsAddUp(t);
    FromParts(Days(t), Hours(t), 0, 0)
  }

  /** `TrimToDays`: the interval rebuilt from its days. */
  function TrimToDays(t: TimeSpan): (r: TimeSpan)
    requires Valid(t)
    ensures Valid(r) && r.ticks == Truncate(t.ticks, TicksPerDay)
  {
    PartsAddUp(t);
    FromParts(Days(t), 0, 0, 0)
  }

  /** Truncation moves toward zero and by less than one unit. */
  lemma TruncateTowardZero(a: int, unit: int)
    requires unit > 0
    ensures 0 <= a ==> 0 <= Truncate(a, unit) <= a < Truncate(a, unit) + unit
    ensures a <= 0 ==> Truncate(a, unit) - unit < a <= Truncate(a, unit) <= 0
  {
    QuotRem(a, unit);
  }

  /** `TrimToSeconds` moves toward zero by less than a second, keeps every component, and
    * changes nothing the second time. */
  lemma TrimToSecondsKeeps(t: TimeSpan)
    requires Valid(t)
    ensures 0 <= t.ticks ==> 0 <= TrimToSeconds(t).ticks <= t.ticks < TrimToSeconds(t).ticks + TicksPerSecond
    ensures t.ticks <= 0 ==> TrimToSeconds(t).ticks - TicksPerSecond < t.ticks <= TrimToSeconds(t).ticks <= 0
    ensures Days(TrimToSeconds(t)) == Days(t) && Hours(TrimToSeconds(t)) == Hours(t)
    ensures Minutes(TrimToSeconds(t)) == Minutes(t) && Seconds(TrimToSeconds(t)) == Seconds(t)
    ensures TrimToSeconds(TrimToSeconds(t)) == TrimToSeconds(t)
  {
    var r := TrimToSeconds(t);
    TruncateTowardZero(t.ticks, TicksPerSecond);
    NestedUnits(t.ticks);
    NestedUnits(r.ticks);
    assert Quot(r.ticks, TicksPerSecond) == Quot(t.ticks, TicksPerSecond);
  }

  /** `TrimToMinutes` moves toward zero by less than a minute, keeps the days, hours and
    * minutes and clears the seconds, changes nothing the second time, and gives the same
    * after `TrimToSeconds`. */
  lemma TrimToMinutesKeeps(t: TimeSpan)
    requires Valid(t)
    ensures 0 <= t.ticks ==> 0 <= TrimToMinutes(t).ticks <= t.ticks < TrimToMinutes(t).ticks + TicksPerMinute
    ensures t.ticks <= 0 ==> TrimToMinutes(t).ticks - TicksPerMinute < t.ticks <= TrimToMinutes(t).ticks <= 0
    ensures Days(TrimToMinutes(t)) == Days(t) && Hours(TrimToMinutes(t)) == Hours(t)
    ensures Minutes(TrimToMinutes(t)) == Minutes(t) && Seconds(TrimToMinutes(t)) == 0
    ensures TrimToMinutes(TrimToMinutes(t)) == TrimToMinutes(t)
    ensures TrimToMinutes(TrimToSeconds(t)) == TrimToMinutes(t)
  {
    var r, s := TrimToMinutes(t), TrimToSeconds(t);
    TruncateTowardZero(t.ticks, TicksPerMinute);
    NestedUnits(t.ticks);
    NestedUnits(r.ticks);
    NestedUnits(s.ticks);
    assert Quot(r.ticks, TicksPerMinute) == Quot(t.ticks, TicksPerMinute);
    assert Quot(s.ticks, TicksPerSecond) == Quot(t.ticks, TicksPerSecond);
  }

  /** `TrimToHours` moves toward zero by less than an hour, keeps the days and hours and
    * clears the minutes, changes nothing the second time, and gives the same after
    * `TrimToMinutes`. */
  lemma TrimToHoursKeeps(t: TimeSpan)
    requires Valid(t)
    ensures 0 <= t.ticks ==> 0 <= TrimToHours(t).ticks <= t.ticks < TrimToHours(t).ticks + TicksPerHour
    ensures t.ticks <= 0 ==> TrimToHours(t).ticks - TicksPerHour < t.ticks <= TrimToHours(t).ticks <= 0
    ensures Days(TrimToHours(t)) == Days(t) && Hours(TrimToHours(t)) == Hours(t)
    ensures Minutes(TrimToHours(t)) == 0 && Seconds(TrimToHours(t)) == 0
    ensures TrimToHours(TrimToHours(t)) == TrimToHours(t)
    ensures TrimToHours(TrimToMinutes(t)) == TrimToHours(t)
  {
    var r, m := TrimToHours(t), TrimToMinutes(t);
    TruncateTowardZero(t.ticks, TicksPerHour);
    NestedUnits(t.ticks);
    NestedUnits(r.ticks);
    NestedUnits(m.ticks);
    assert Quot(r.ticks, TicksPerHour) == Quot(t.ticks, TicksPerHour);
    assert Quot(m.ticks, TicksPerMinute) == Quot(t.ticks, TicksPerMinute);
  }

  /** `TrimToDays` moves toward zero by less than a day, keeps the days and clears the
    * rest, changes nothing the second time, and gives the same after `TrimToHours`. */
  lemma TrimToDaysKeeps(t: TimeSpan)
    requires Valid(t)
    ensures 0 <= t.ticks ==> 0 <= TrimToDays(t).ticks <= t.ticks < TrimToDays(t).ticks + TicksPerDay
    ensures t.ticks <= 0 ==> TrimToDays(t).ticks - TicksPerDay < t.ticks <= TrimToDays(t).ticks <= 0
    ensures Days(TrimToDays(t)) == Days(t) && Hours(TrimToDays(t)) == 0
    ensures Minutes(TrimToDays(t)) == 0 && Seconds(TrimToDays(t)) == 0
    ensures TrimToDays(TrimToDays(t)) == TrimToDays(t)
    ensures TrimToDays(TrimToHours(t)) == TrimToDays(t)
  {
    var r, h := TrimToDays(t), TrimToHours(t);
    TruncateTowardZero(t.ticks, TicksPerDay);
    NestedUnits(t.ticks);
    NestedUnits(r.ticks);
    NestedUnits(h.ticks);
    assert Quot(r.ticks, TicksPerDay) == Quot(t.ticks, TicksPerDay);
    assert Quot(h.ticks, TicksPerHour) == Quot(t.ticks, TicksPerHour);
  }
}
