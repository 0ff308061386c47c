/** UTC calendar time as Go's time.Time reports it in the UTC location, the
    instant it denotes (nanoseconds since the Unix epoch, unbounded), and the two
    pieces of calendar arithmetic the program performs: t.AddDate(0, 0, 1) and
    time.Date(y, m, d, h + 1, 0, 0, 0, loc), "the next full hour". */
module Clock {

  /** A UTC date and wall-clock time. */
  datatype Time = Time(year: int, month: int, day: int, hour: int, minute: int, second: int, nanos: int)

  /** Go's zero time.Time{}: January 1 of year 1, 00:00:00 UTC. */
  const Zero: Time := Time(1, 1, 1, 0, 0, 0, 0)

  const NanosPerSecond: int := 1_000_000_000
  const NanosPerHour: int := 3_600_000_000_000
  const NanosPerDay: int := 86_400_000_000_000

  predicate IsLeap(y: int) {
    y % 4 == 0 && (y % 100 != 0 || y % 400 == 0)
  }

  function DaysIn(m: int, y: int): int
    requires 1 <= m <= 12
  {
    if m == 2 then (if IsLeap(y) then 29 else 28)
    else if m == 4 || m == 6 || m == 9 || m == 11 then 30
    else 31
  }

  /** Every field in its calendar range; the year is unbounded. */
  predicate WellFormed(t: Time) {
    && 1 <= t.month <= 12
    && 1 <= t.day <= DaysIn(t.month, t.year)
    && 0 <= t.hour < 24
    && 0 <= t.minute < 60
    && 0 <= t.second < 60
    && 0 <= t.nanos < NanosPerSecond
  }

  /** Days from 0001-01-01 to January 1 of year y, proleptic Gregorian
      (Dafny's division rounds down, which is what year <= 0 needs). */
  function DaysBeforeYear(y: int): int {
    var p := y - 1;
    365 * p + p / 4 - p / 100 + p / 400
  }

  /** Days in a common year before the first of month m. */
  function CommonDaysBeforeMonth(m: int): int {
    if m <= 1 then 0 else if m == 2 then 31 else if m == 3 then 59
    else if m == 4 then 90 else if m == 5 then 120 else if m == 6 then 151
    else if m == 7 then 181 else if m == 8 then 212 else if m == 9 then 243
    else if m == 10 then 273 else if m == 11 then 304 else 334
  }

  function DaysBeforeMonth(m: int, y: int): int {
    CommonDaysBeforeMonth(m) + if 2 < m && IsLeap(y) then 1 else 0
  }

  /** 1970-01-01 counted from 0001-01-01. */
  const UnixEpochDay: int := 719162

  /** Days since 1970-01-01, negative before it. */
  function DayNumber(t: Time): int {
    DaysBeforeYear(t.year) + DaysBeforeMonth(t.month, t.year) + (t.day - 1) - UnixEpochDay
  }

  function NanosOfDay(t: Time): int {
    ((t.hour * 60 + t.minute) * 60 + t.second) * NanosPerSecond + t.nanos
  }

  /** Nanoseconds since 1970-01-01T00:00:00Z: Go's t.UnixNano() without the
      64-bit limit. */
  function Instant(t: Time): int {
    DayNumber(t) * NanosPerDay + NanosOfDay(t)
  }

  /** Go's t.After(u). */
  predicate After(t: Time, u: Time) {
    Instant(t) > Instant(u)
  }

  /** Field-by-field (lexicographic) order of calendar times. */
  predicate Before(a: Time, b: Time) {
    || a.year < b.year
    || (a.year == b.year && a.month < b.month)
    || (a.year == b.year && a.month == b.month && a.day < b.day)
    || (a.year == b.year && a.month == b.month && a.day == b.day && a.hour < b.hour)
    || (a.year == b.year && a.month == b.month && a.day == b.day && a.hour == b.hour && a.minute < b.minute)
    || (a.year == b.year && a.month == b.month && a.day == b.day && a.hour == b.hour && a.minute == b.minute
        && a.second < b.second)
    || (a.year == b.year && a.month == b.month && a.day == b.day && a.hour == b.hour && a.minute == b.minute
        && a.second == b.second && a.nanos < b.nanos)
  }

  /** t.AddDate(0, 0, 1) in UTC: the same clock time on the next calendar day
      (Go normalises day d + 1 past the end of the month into the next month,
      and past December into the next year). */
  function AddOneDay(t: Time): Time
    requires WellFormed(t)
  {
    if t.day < DaysIn(t.month, t.year) then t.(day := t.day + 1)
    else if t.month < 12 then t.(month := t.month + 1, day := 1)
    else t.(year := t.year + 1, month := 1, day := 1)
  }

  /** time.Date(t.Year(), t.Month(), t.Day(), t.Hour() + 1, 0, 0, 0, UTC): the
      next full hour, hour 24 normalised into the next day. */
  function NextHourMark(t: Time): Time
    requires WellFormed(t)
  {
    if t.hour < 23 then Time(t.year, t.month, t.day, t.hour + 1, 0, 0, 0)
    else
      var n := AddOneDay(t);
      Time(n.year, n.month, n.day, 0, 0, 0, 0)
  }

  // ---------------------------------------------------------------------------
  // Calendar facts

  /** floor(y / k) steps up by one exactly at the multiples of k, for the
      three divisors of the leap-year rule. */
  lemma FloorStep4(y: int)
    ensures y / 4 - (y - 1) / 4 == if y % 4 == 0 then 1 else 0
  {
    var q, r := (y - 1) / 4, (y - 1) % 4;
    if r == 3 {
      assert y == 4 * (q + 1) + 0;
    } else {
      assert y == 4 * q + (r + 1);
    }
  }

  lemma FloorStep100(y: int)
    ensures y / 100 - (y - 1) / 100 == if y % 100 == 0 then 1 else 0
  {
    var q, r := (y - 1) / 100, (y - 1) % 100;
    if r == 99 {
      assert y == 100 * (q + 1) + 0;
    } else {
      assert y == 100 * q + (r + 1);
    }
  }

  lemma FloorStep400(y: int)
    ensures y / 400 - (y - 1) / 400 == if y % 400 == 0 then 1 else 0
  {
    var q, r := (y - 1) / 400, (y - 1) % 400;
    if r == 399 {
      assert y == 400 * (q + 1) + 0;
    } else {
      assert y == 400 * q + (r + 1);
    }
  }

  /** Multiples of 400 are multiples of 100, and those are multiples of 4. */
  lemma Multiples(y: int)
    ensures y % 400 == 0 ==> y % 100 == 0
    ensures y % 100 == 0 ==> y % 4 == 0
  {
    if y % 400 == 0 {
      MultipleOf400(y, y / 400);
    }
    if y % 100 == 0 {
      MultipleOf100(y, y / 100);
    }
  }

  lemma MultipleOf400(y: int, q: int)
    requires y == 400 * q
    ensures y % 100 == 0
  {
    assert y == 100 * (4 * q);
  }

  lemma MultipleOf100(y: int, q: int)
    requires y == 100 * q
    ensures y % 4 == 0
  {
    assert y == 4 * (25 * q);
  }

  /** The constant UnixEpochDay puts instant 0 at 1970-01-01T00:00:00Z. */
  lemma UnixEpochIsZero()
    ensures Instant(Time(1970, 1, 1, 0, 0, 0, 0)) == 0
  {
  }

  /** A year has 366 days when it is a leap year and 365 otherwise. */
  lemma YearLength(y: int)
    ensures DaysBeforeYear(y + 1) == DaysBeforeYear(y) + (if IsLeap(y) then 366 else 365)
  {
    FloorStep4(y);
    FloorStep100(y);
    FloorStep400(y);
    Multiples(y);
  }

  lemma {:induction false} DaysBeforeYearGrows(a: int, b: int)
    requires a <= b
    ensures DaysBeforeYear(a) + 365 * (b - a) <= DaysBeforeYear(b)
    decreases b - a
  {
    if a < b {
      DaysBeforeYearGrows(a, b - 1);
      YearLength(b - 1);
    }
  }

  lemma MonthStep(m: int, y: int)
    requires 1 <= m < 12
    ensures DaysBeforeMonth(m + 1, y) == DaysBeforeMonth(m, y) + DaysIn(m, y)
  {
  }

  lemma {:induction false} MonthsGrow(m1: int, m2: int, y: int)
    requires 1 <= m1 < m2 <= 12
    ensures DaysBeforeMonth(m1, y) + DaysIn(m1, y) <= DaysBeforeMonth(m2, y)
    decreases m2 - m1
  {
    MonthStep(m1, y);
    if m1 + 1 < m2 {
      MonthsGrow(m1 + 1, m2, y);
    }
  }

  /** The day of a well-formed date lies inside its year. */
  lemma DayOfYearBounds(t: Time)
    requires WellFormed(t)
    ensures DaysBeforeYear(t.year) - UnixEpochDay <= DayNumber(t) < DaysBeforeYear(t.year + 1) - UnixEpochDay
  {
    YearLength(t.year);
    if t.month < 12 {
      MonthsGrow(t.month, 12, t.year);
    }
  }

  lemma NanosOfDayBounds(t: Time)
    requires WellFormed(t)
    ensures 0 <= NanosOfDay(t) < NanosPerDay
  {
  }

  /** A calendar-earlier day has a smaller day number. */
  lemma DayNumberOrder(a: Time, b: Time)
    requires WellFormed(a) && WellFormed(b)
    requires a.year < b.year || (a.year == b.year && (a.month < b.month || (a.month == b.month && a.day < b.day)))
    ensures DayNumber(a) < DayNumber(b)
  {
    if a.year < b.year {
      DayOfYearBounds(a);
      DayOfYearBounds(b);
      DaysBeforeYearGrows(a.year + 1, b.year);
    } else if a.month < b.month {
      MonthsGrow(a.month, b.month, a.year);
    }
  }

  /** Instant is order-preserving: it compares two well-formed times exactly
      as their calendar fields do, so Go's After is the calendar order. */
  lemma InstantOrder(a: Time, b: Time)
    requires WellFormed(a) && WellFormed(b)
    ensures Before(a, b) <==> Instant(a) < Instant(b)
  {
    InstantOrderOneWay(a, b);
    InstantOrderOneWay(b, a);
  }

  lemma InstantOrderOneWay(a: Time, b: Time)
    requires WellFormed(a) && WellFormed(b)
    ensures Before(a, b) ==> Instant(a) < Instant(b)
  {
    if Before(a, b) {
      NanosOfDayBounds(a);
      NanosOfDayBounds(b);
      if a.year < b.year || (a.year == b.year && (a.month < b.month || (a.month == b.month && a.day < b.day))) {
        DayNumberOrder(a, b);
      }
    }
  }

  /** Different well-formed times denote different instants. */
  lemma InstantInjective(a: Time, b: Time)
    requires WellFormed(a) && WellFormed(b)
    ensures Instant(a) == Instant(b) <==> a == b
  {
    InstantOrder(a, b);
    InstantOrder(b, a);
  }

  /** AddDate(0, 0, 1) in UTC is exactly 24 hours later. */
  lemma AddOneDayInstant(t: Time)
    requires WellFormed(t)
    ensures WellFormed(AddOneDay(t))
    ensures Instant(AddOneDay(t)) == Instant(t) + NanosPerDay
  {
    if t.day == DaysIn(t.month, t.year) {
      if t.month < 12 {
        MonthStep(t.month, t.year);
      } else {
        YearLength(t.year);
      }
    }
  }

  lemma HourDivision(x: int, q: int, r: int)
    requires x == q * NanosPerHour + r && 0 <= r < NanosPerHour
    ensures x / NanosPerHour == q && x % NanosPerHour == r
  {
  }

  /** The next full hour: minutes, seconds and nanoseconds are zero, it is
      strictly after t and at most one hour later, and it is the first multiple
      of an hour after t's instant. */
  lemma NextHourMarkSpec(t: Time)
    requires WellFormed(t)
    ensures var r := NextHourMark(t);
      && WellFormed(r)
      && r.minute == 0 && r.second == 0 && r.nanos == 0
      && Instant(t) < Instant(r) <= Instant(t) + NanosPerHour
      && Instant(r) % NanosPerHour == 0
      && Instant(r) == (Instant(t) / NanosPerHour + 1) * NanosPerHour
  {
    var r := NextHourMark(t);
    var base := DayNumber(t) * 24 + t.hour;
    var off := (t.minute * 60 + t.second) * NanosPerSecond + t.nanos;
    assert Instant(t) == base * NanosPerHour + off && 0 <= off < NanosPerHour;
    HourDivision(Instant(t), base, off);
    if t.hour == 23 {
      AddOneDayInstant(t);
      assert DayNumber(r) == DayNumber(t) + 1;
    }
    assert Instant(r) == (base + 1) * NanosPerHour;
    HourDivision(Instant(r), base + 1, 0);
  }
}
