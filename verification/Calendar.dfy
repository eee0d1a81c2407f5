/** Timestamps: the 64-bit tick arithmetic of CalendarConverter, and Timestamp's conversions to and from local time. */
module Calendar {
  import opened Collections
  import opened Decimal
  import opened NumericConverter

  const TICKS_PER_DAY := 24 * 60 * 60 * 10000
  const MICROS_PER_DAY := 24 * 60 * 60 * 1000000
  const BASE_EPOCH := -40587   // 17 November 1858, in days from 1 January 1970

  // ---------------------------------------------------------------- local time

  /** A day number and the microseconds of a time of day, which need not lie within the day. */
  datatype Timestamp = Timestamp(day: int, time: int)

  /** std::chrono::floor: truncated, and one less when that is above the value. */
  function FloorDays(micros: int): int {
    var days := TruncDiv(micros, MICROS_PER_DAY);
    if days * MICROS_PER_DAY > micros then days - 1 else days
  }

  function ToLocalTime(t: Timestamp): int { t.day * MICROS_PER_DAY + t.time }

  function FromLocalTime(micros: int): Timestamp {
    var days := FloorDays(micros);
    Timestamp(days, micros - days * MICROS_PER_DAY)
  }

  /** Every instant splits into its day and a time within that day, before the epoch as after it. */
  lemma FromLocalTimeSplits(micros: int)
    ensures ToLocalTime(FromLocalTime(micros)) == micros && 0 <= FromLocalTime(micros).time < MICROS_PER_DAY
  {
  }

  /** The conversions are inverse to one another exactly for times of day in [0, 24h). */
  lemma LocalTimeRoundTrip(t: Timestamp)
    ensures FromLocalTime(ToLocalTime(t)) == t <==> 0 <= t.time < MICROS_PER_DAY
  {
    FromLocalTimeSplits(ToLocalTime(t));
    var u := FromLocalTime(ToLocalTime(t));
    if 0 <= t.time < MICROS_PER_DAY {
      assert (t.day - u.day) * MICROS_PER_DAY == u.time - t.time;
    }
  }

  // ---------------------------------------------------------------- 64-bit arithmetic

  /** A signed 64-bit result; None is an overflow. */
  function Checked(v: int): Option<int> { if Fits(v, Int64) then Some(v) else None }

  /** `(date * TICKS_PER_DAY + time) * 100`, every step in 64 bits. */
  function TickMicros(date: int, time: int): Option<int> {
    match Checked(date * TICKS_PER_DAY)
    case None => None
    case Some(days) =>
      match Checked(days + time)
      case None => None
      case Some(ticks) => Checked(ticks * 100)
  }

  /** opaqueTimestampTzToTimestampTz: the instant, counted from BASE_EPOCH, as a Timestamp. */
  function UtcTimestamp(date: int, time: int): Option<Timestamp> {
    match TickMicros(date, time)
    case None => None
    case Some(micros) =>
      match Checked(BASE_EPOCH * MICROS_PER_DAY + micros)
      case None => None
      case Some(local) => Some(FromLocalTime(local))
  }

  /** A date and a time of day split again into the day they came from and that time, also for negative day numbers. */
  lemma TicksSplit(date: int, time: int)
    requires 0 <= time < TICKS_PER_DAY && UtcTimestamp(date, time).Some?
    ensures UtcTimestamp(date, time) == Some(Timestamp(BASE_EPOCH + date, 100 * time))
  {
    LocalTimeRoundTrip(Timestamp(BASE_EPOCH + date, 100 * time));
  }

  const FIRST_DAY := -106_711_404
  const LAST_DAY := 106_751_990

  /** Every tick of the day comes back as that day and that time. */
  ghost predicate SplitsBack(date: int) {
    forall time :: 0 <= time < TICKS_PER_DAY ==>
      UtcTimestamp(date, time) == Some(Timestamp(BASE_EPOCH + date, 100 * time))
  }

  predicate LeapYear(year: int) { year % 4 == 0 && (year % 100 != 0 || year % 400 == 0) }

  /** 1 January of a year of the proleptic Gregorian calendar, in days from 1 January 1970. */
  function NewYear(year: int): int {
    365 * (year - 1970) + (year - 1) / 4 - (year - 1) / 100 + (year - 1) / 400 - 477
  }

  lemma YearsFollow(year: int)
    ensures NewYear(1970) == 0 && NewYear(year + 1) == NewYear(year) + if LeapYear(year) then 366 else 365
  {
    NextQuotient(year - 1, 4);
    NextQuotient(year - 1, 100);
    NextQuotient(year - 1, 400);
  }

  lemma NextQuotient(a: int, b: int)
    requires b > 0
    ensures (a + 1) / b == a / b + if (a + 1) % b == 0 then 1 else 0
  {
    var q, r := a / b, a % b;
    if r + 1 < b {
      DivisionIs(a + 1, b, q, r + 1);
    } else {
      DivisionIs(a + 1, b, q + 1, 0);
    }
  }

  /** A day number whose year fits the 16 bits of a std::chrono::year. */
  predicate IsDate(day: int) { NewYear(-32767) <= day < NewYear(32768) }

  /** Every day of a Date is far from overflow, so all its ticks come back as that Date and that time. */
  lemma DatesSplitBack(date: int)
    requires IsDate(BASE_EPOCH + date)
    ensures SplitsBack(date)
  {
    DaysThatSplitBack(date);
  }

  /**
    The tick arithmetic alone, before a day number becomes a Date:
    the days whose ticks all come back are exactly those from FIRST_DAY to LAST_DAY, every day within 10^8 of the base
    epoch among them; on any other day some tick overflows.
   */
  lemma DaysThatSplitBack(date: int)
    ensures SplitsBack(date) <==> FIRST_DAY <= date <= LAST_DAY
    ensures -100_000_000 <= date <= 100_000_000 ==> SplitsBack(date)
    ensures !SplitsBack(date) ==> exists time :: 0 <= time < TICKS_PER_DAY && UtcTimestamp(date, time).None?
  {
    if date > LAST_DAY {
      assert UtcTimestamp(date, TICKS_PER_DAY - 1).None?;
    } else if date < FIRST_DAY {
      assert UtcTimestamp(date, 0).None?;
    } else {
      forall time | 0 <= time < TICKS_PER_DAY
        ensures UtcTimestamp(date, time) == Some(Timestamp(BASE_EPOCH + date, 100 * time))
      {
        TicksSplit(date, time);
      }
    }
  }
}
