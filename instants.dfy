/**
 * Time as the calendar engine sees it: instants are whole seconds since the Unix
 * epoch (UTC) and a local civil date is a whole day number in a fixed-offset zone.
 */
module Instants {

  /** Seconds since 1970-01-01T00:00:00Z. */
  type Instant = int

  /** Days since 1970-01-01 in some local zone. */
  type Day = int

  const SecondsPerDay: int := 86400

  /** The local civil date of `t` in a zone `offset` seconds east of UTC (floor division). */
  function LocalDate(t: Instant, offset: int): Day {
    (t + offset) / SecondsPerDay
  }

  /** A later instant never falls on an earlier local date. */
  lemma LocalDateMonotone(a: Instant, b: Instant, offset: int)
    requires a <= b
    ensures LocalDate(a, offset) <= LocalDate(b, offset)
  {
  }

  /** An instant on a strictly later local date is strictly later. */
  lemma LaterDateLaterInstant(a: Instant, b: Instant, offset: int)
    requires LocalDate(a, offset) < LocalDate(b, offset)
    ensures a < b
  {
    if b <= a {
      LocalDateMonotone(b, a, offset);
    }
  }

  /** One day later is the next local date. */
  lemma NextDayDate(t: Instant, offset: int)
    ensures LocalDate(t + SecondsPerDay, offset) == LocalDate(t, offset) + 1
  {
  }

  /**
   * The proleptic Gregorian (year, month) of the UTC day containing `t`, as
   * Python's `datetime.year` and `datetime.month` report it for a UTC datetime.
   */
  function CivilYearMonth(t: Instant): (int, int) {
    CivilFromDays(LocalDate(t, 0) + 719468)
  }

  /**
   * Howard Hinnant's days-to-civil conversion for day `z` counted from
   * 0000-03-01; the Gregorian calendar repeats every 400 years (146097 days),
   * so days outside the first cycle are shifted into it.
   */
  function CivilFromDays(z: int): (int, int)
    decreases if z < 0 then 146097 - z else if z >= 146097 then z else 0
  {
    if z < 0 then
      var c := CivilFromDays(z + 146097);
      (c.0 - 400, c.1)
    else if z >= 146097 then
      var c := CivilFromDays(z - 146097);
      (c.0 + 400, c.1)
    else
      var doe := z;
      var yoe := (doe - doe / 1460 + doe / 36524 - doe / 146096) / 365;
      var doy := doe - (365 * yoe + yoe / 4 - yoe / 100);
      var mp := (5 * doy + 2) / 153;
      var m := if mp < 10 then mp + 3 else mp - 9;
      (if m <= 2 then yoe + 1 else yoe, m)
  }

  /** The UTC calendar year of `t`. */
  function YearOf(t: Instant): int {
    CivilYearMonth(t).0
  }

  /** The UTC calendar month (1..12) of `t`. */
  function MonthOf(t: Instant): int {
    CivilYearMonth(t).1
  }
}
