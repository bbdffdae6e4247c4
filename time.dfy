/**
 * `TimeStartOf` and `TimeEndOf` of the `util` package over UTC civil time.
 *
 * A `Time` is a proleptic Gregorian date and a clock with nanoseconds, as a
 * UTC `time.Time` is. `DayNumber` counts days from January 1 of year 1 (day 0,
 * a Monday), so `Instant` is the number of nanoseconds since Go's zero time.
 * `Add` is `Time.Add` (an instant plus a duration), `AddDate` is
 * `Time.AddDate` (fields added, then normalized as `time.Date` does), and
 * `Truncate` to an hour, minute or second is field zeroing, which the lemma
 * `TruncateIsAbsolute` shows equals Go's rounding down since the zero time.
 */
module TimeUtil {

  datatype Date = Date(year: int, month: int, day: int)
  datatype Time = Time(date: Date, hour: int, minute: int, second: int, nanos: int)

  const NanosPerMicrosecond: int := 1000
  const NanosPerSecond: int := 1_000_000_000
  const NanosPerMinute: int := 60 * NanosPerSecond
  const NanosPerHour: int := 60 * NanosPerMinute
  const NanosPerDay: int := 24 * NanosPerHour

  // ---------------------------------------------------------------------------
  // The calendar

  predicate IsLeap(y: int) {
    y % 4 == 0 && (y % 100 != 0 || y % 400 == 0)
  }

  function YearLength(y: int): int {
    if IsLeap(y) then 366 else 365
  }

  function DaysIn(y: int, m: int): (n: int)
    ensures 28 <= n <= 31
  {
    if m == 2 then (if IsLeap(y) then 29 else 28)
    else if m == 4 || m == 6 || m == 9 || m == 11 then 30
    else 31
  }

  predicate ValidDate(d: Date) {
    1 <= d.month <= 12 && 1 <= d.day <= DaysIn(d.year, d.month)
  }

  /** What a UTC `time.Time` always holds: a real date and an in-range clock. */
  predicate Valid(t: Time) {
    ValidDate(t.date) && 0 <= t.hour < 24 && 0 <= t.minute < 60 && 0 <= t.second < 60 &&
    0 <= t.nanos < NanosPerSecond
  }

  /** Days from January 1 of year 1 to January 1 of year `y`. */
  function DaysBeforeYear(y: int): int {
    365 * (y - 1) + (y - 1) / 4 - (y - 1) / 100 + (y - 1) / 400
  }

  /** Days from January 1 to the first of month `m` (month 13 is the next January). */
  function DaysBeforeMonth(y: int, m: int): int
    requires 1 <= m <= 13
  {
    [0, 31, 59, 90, 120, 151, 181, 212, 243, 273, 304, 334, 365][m - 1] + (if m > 2 && IsLeap(y) then 1 else 0)
  }

  /** Days since January 1 of year 1. */
  function DayNumber(d: Date): int
    requires 1 <= d.month <= 12
  {
    DaysBeforeYear(d.year) + DaysBeforeMonth(d.year, d.month) + d.day - 1
  }

  /** `t.Weekday()`: Sunday is 0, Monday is 1, ..., Saturday is 6. */
  function Weekday(d: Date): (w: int)
    requires 1 <= d.month <= 12
    ensures 0 <= w < 7
  {
    (DayNumber(d) + 1) % 7
  }

  function NextDay(d: Date): (r: Date)
    requires ValidDate(d)
    ensures ValidDate(r)
  {
    if d.day < DaysIn(d.year, d.month) then Date(d.year, d.month, d.day + 1)
    else if d.month < 12 then Date(d.year, d.month + 1, 1)
    else Date(d.year + 1, 1, 1)
  }

  function PrevDay(d: Date): (r: Date)
    requires ValidDate(d)
    ensures ValidDate(r)
  {
    if d.day > 1 then Date(d.year, d.month, d.day - 1)
    else if d.month > 1 then Date(d.year, d.month - 1, DaysIn(d.year, d.month - 1))
    else Date(d.year - 1, 12, 31)
  }

  /** The date `k` days after `d` (before it when `k` is negative). */
  function AddDays(d: Date, k: int): (r: Date)
    requires ValidDate(d)
    ensures ValidDate(r)
    decreases if k < 0 then -k else k
  {
    if k == 0 then d
    else if k > 0 then NextDay(AddDays(d, k - 1))
    else PrevDay(AddDays(d, k + 1))
  }

  /**
   * The date `time.Date(y, m, d, ...)` denotes: the month is first brought into
   * 1..12 by moving whole years, then the day counts on from the first of that month.
   */
  function Normalize(y: int, m: int, d: int): (r: Date)
    ensures ValidDate(r)
  {
    var y1 := y + (m - 1) / 12;
    var m1 := (m - 1) % 12 + 1;
    AddDays(Date(y1, m1, 1), d - 1)
  }

  // ---------------------------------------------------------------------------
  // Instants and clocks

  function ClockNanos(t: Time): int {
    t.hour * NanosPerHour + t.minute * NanosPerMinute + t.second * NanosPerSecond + t.nanos
  }

  /** Nanoseconds since January 1 of year 1, 00:00:00 UTC: the order of times. */
  function Instant(t: Time): int
    requires 1 <= t.date.month <= 12
  {
    DayNumber(t.date) * NanosPerDay + ClockNanos(t)
  }

  /** The time `c` nanoseconds after the midnight that starts `d`. */
  function AtClock(d: Date, c: int): (t: Time)
    requires ValidDate(d) && 0 <= c < NanosPerDay
    ensures Valid(t)
  {
    var inHour := c % NanosPerHour;
    var inMinute := inHour % NanosPerMinute;
    Time(d, c / NanosPerHour, inHour / NanosPerMinute, inMinute / NanosPerSecond, inMinute % NanosPerSecond)
  }

  function Midnight(d: Date): Time {
    Time(d, 0, 0, 0, 0)
  }

  /** `t.Add(dur)`: the time `dur` nanoseconds later (earlier when negative). */
  function Add(t: Time, dur: int): (r: Time)
    requires Valid(t)
    ensures Valid(r)
  {
    var total := ClockNanos(t) + dur;
    AtClock(AddDays(t.date, total / NanosPerDay), total % NanosPerDay)
  }

  /** `t.AddDate(years, months, days)`: fields added, then normalized; the clock is kept. */
  function AddDate(t: Time, years: int, months: int, days: int): (r: Time)
    requires Valid(t)
    ensures Valid(r)
  {
    Time(Normalize(t.date.year + years, t.date.month + months, t.date.day + days),
         t.hour, t.minute, t.second, t.nanos)
  }

  /** `t.Truncate(time.Hour)`. */
  function TruncateHour(t: Time): Time {
    Time(t.date, t.hour, 0, 0, 0)
  }

  /** `t.Truncate(time.Minute)`. */
  function TruncateMinute(t: Time): Time {
    Time(t.date, t.hour, t.minute, 0, 0)
  }

  /** `t.Truncate(time.Second)`. */
  function TruncateSecond(t: Time): Time {
    Time(t.date, t.hour, t.minute, t.second, 0)
  }

  // ---------------------------------------------------------------------------
  // TimeStartOf and TimeEndOf

  predicate Recognised(g: string) {
    g == "year" || g == "month" || g == "week" || g == "day" || g == "hour" || g == "minute" || g == "second"
  }

  /** The day offset back to the Monday of the week: 0 on Monday, -6 on Sunday. */
  function WeekDayDiff(d: Date): (k: int)
    requires 1 <= d.month <= 12
    ensures -6 <= k <= 0
  {
    if Weekday(d) == 0 then -6 else -(Weekday(d) - 1)
  }

  /** `TimeStartOf(t, g)`. */
  function StartOf(t: Time, g: string): (r: Time)
    requires Valid(t)
    ensures Valid(r)
  {
    if g == "year" then Midnight(Date(t.date.year, 1, 1))
    else if g == "month" then Midnight(Date(t.date.year, t.date.month, 1))
    else if g == "week" then Midnight(AddDate(t, 0, 0, WeekDayDiff(t.date)).date)
    else if g == "day" then Midnight(t.date)
    else if g == "hour" then TruncateHour(t)
    else if g == "minute" then TruncateMinute(t)
    else if g == "second" then TruncateSecond(t)
    else t
  }

  /** `TimeEndOf(t, g)`: the start of the following period, less one microsecond. */
  function EndOf(t: Time, g: string): (r: Time)
    requires Valid(t)
    ensures Valid(r)
  {
    if g == "year" then Add(StartOf(AddDate(t, 1, 0, 0), "year"), -NanosPerMicrosecond)
    else if g == "month" then
      Add(StartOf(AddDate(StartOf(t, "month"), 0, 1, 0), "month"), -NanosPerMicrosecond)
    else if g == "week" then Add(StartOf(AddDate(t, 0, 0, 7), "week"), -NanosPerMicrosecond)
    else if g == "day" then Add(StartOf(AddDate(t, 0, 0, 1), "day"), -NanosPerMicrosecond)
    else if g == "hour" then Add(StartOf(Add(t, NanosPerHour), "hour"), -NanosPerMicrosecond)
    else if g == "minute" then Add(StartOf(Add(t, NanosPerMinute), "minute"), -NanosPerMicrosecond)
    else if g == "second" then Add(StartOf(Add(t, NanosPerSecond), "second"), -NanosPerMicrosecond)
    else t
  }

  // ---------------------------------------------------------------------------
  // Calendar lemmas

  lemma YearStep(y: int)
    ensures DaysBeforeYear(y + 1) == DaysBeforeYear(y) + YearLength(y)
  {
    assert y / 4 - (y - 1) / 4 == if y % 4 == 0 then 1 else 0;
    assert y / 100 - (y - 1) / 100 == if y % 100 == 0 then 1 else 0;
    assert y / 400 - (y - 1) / 400 == if y % 400 == 0 then 1 else 0;
    assert y % 400 == 0 ==> y % 100 == 0 && y % 4 == 0;
    assert y % 100 == 0 ==> y % 4 == 0;
  }

  /** Each month starts where the one before it ends. */
  lemma MonthStep(y: int, m: int)
    requires 1 <= m <= 12
    ensures DaysBeforeMonth(y, m + 1) == DaysBeforeMonth(y, m) + DaysIn(y, m)
  {
  }

  /** The twelve months fill the year exactly. */
  lemma WholeYear(y: int)
    ensures DaysBeforeMonth(y, 13) == YearLength(y)
  {
  }

  lemma NextDayNumber(d: Date)
    requires ValidDate(d)
    ensures DayNumber(NextDay(d)) == DayNumber(d) + 1
  {
    if d.day == DaysIn(d.year, d.month) {
      MonthStep(d.year, d.month);
      if d.month == 12 {
        YearStep(d.year);
        WholeYear(d.year);
      }
    }
  }

  lemma PrevDayNumber(d: Date)
    requires ValidDate(d)
    ensures DayNumber(PrevDay(d)) == DayNumber(d) - 1
  {
    if d.day == 1 {
      if d.month == 1 {
        YearStep(d.year - 1);
        WholeYear(d.year - 1);
        MonthStep(d.year - 1, 12);
      } else {
        MonthStep(d.year, d.month - 1);
      }
    }
  }

  lemma StepNumber(a: Date, b: Date, n: int)
    requires ValidDate(a) && b == NextDay(a) && DayNumber(a) == n
    ensures DayNumber(b) == n + 1
  {
    NextDayNumber(a);
  }

  lemma BackStepNumber(a: Date, b: Date, n: int)
    requires ValidDate(a) && b == PrevDay(a) && DayNumber(a) == n
    ensures DayNumber(b) == n - 1
  {
    PrevDayNumber(a);
  }

  /** Moving `k` days moves the day number by exactly `k`. */
  lemma AddDaysNumber(d: Date, k: int)
    requires ValidDate(d)
    ensures DayNumber(AddDays(d, k)) == DayNumber(d) + k
  {
    if k >= 0 {
      ForwardDaysNumber(d, k);
    } else {
      BackwardDaysNumber(d, (-k) as nat);
    }
  }

  lemma {:induction false} ForwardDaysNumber(d: Date, k: nat)
    requires ValidDate(d)
    ensures DayNumber(AddDays(d, k)) == DayNumber(d) + k
  {
    if k > 0 {
      ForwardDaysNumber(d, k - 1);
      StepNumber(AddDays(d, k - 1), AddDays(d, k), DayNumber(d) + k - 1);
    }
  }

  lemma {:induction false} BackwardDaysNumber(d: Date, k: nat)
    requires ValidDate(d)
    ensures DayNumber(AddDays(d, -(k as int))) == DayNumber(d) - k
  {
    if k > 0 {
      BackwardDaysNumber(d, k - 1);
      assert -((k - 1) as int) == -(k as int) + 1;
      BackStepNumber(AddDays(d, -(k as int) + 1), AddDays(d, -(k as int)), DayNumber(d) - k + 1);
    }
  }

  /** Moving forward inside a month only changes the day. */
  lemma {:induction false} AddDaysWithinMonth(d: Date, k: nat)
    requires ValidDate(d) && d.day + k <= DaysIn(d.year, d.month)
    ensures AddDays(d, k) == Date(d.year, d.month, d.day + k)
  {
    if k > 0 {
      AddDaysWithinMonth(d, k - 1);
    }
  }

  lemma PrevNextDay(d: Date)
    requires ValidDate(d)
    ensures PrevDay(NextDay(d)) == d
  {
  }

  /** `time.Date` leaves a date that is already valid unchanged. */
  lemma NormalizeValid(d: Date)
    requires ValidDate(d)
    ensures Normalize(d.year, d.month, d.day) == d
  {
    AddDaysWithinMonth(Date(d.year, d.month, 1), d.day - 1);
  }

  /** Adding days with `AddDate` moves the day number by that many days. */
  lemma NormalizeDays(d: Date, k: int)
    requires ValidDate(d)
    ensures DayNumber(Normalize(d.year, d.month, d.day + k)) == DayNumber(d) + k
  {
    var first := Date(d.year, d.month, 1);
    NormalizeInMonth(d.year, d.month, d.day + k);
    AddDaysNumber(first, d.day + k - 1);
    DayNumberFromFirst(d);
  }

  lemma DayNumberFromFirst(d: Date)
    requires 1 <= d.month <= 12
    ensures DayNumber(d) == DayNumber(Date(d.year, d.month, 1)) + d.day - 1
  {
  }

  /** With the month already in range, `time.Date` counts the day on from the first of that month. */
  lemma NormalizeInMonth(y: int, m: int, day: int)
    requires 1 <= m <= 12
    ensures Normalize(y, m, day) == AddDays(Date(y, m, 1), day - 1)
  {
    assert (m - 1) / 12 == 0 && (m - 1) % 12 == m - 1;
  }

  /** The next day, as `AddDate(0, 0, 1)` computes it. */
  lemma NormalizeNextDay(d: Date)
    requires ValidDate(d)
    ensures Normalize(d.year, d.month, d.day + 1) == NextDay(d)
  {
    var first := Date(d.year, d.month, 1);
    NormalizeInMonth(d.year, d.month, d.day + 1);
    AddDaysWithinMonth(first, d.day - 1);
    assert AddDays(first, d.day) == NextDay(AddDays(first, d.day - 1));
  }

  /** A valid date's day number lies inside its year. */
  lemma DayNumberInYear(d: Date)
    requires ValidDate(d)
    ensures DaysBeforeYear(d.year) <= DayNumber(d) < DaysBeforeYear(d.year) + YearLength(d.year)
  {
    MonthsBefore(d.year, d.month);
    WholeYear(d.year);
  }

  lemma {:induction false} MonthsBefore(y: int, m: int)
    requires 1 <= m <= 12
    ensures 0 <= DaysBeforeMonth(y, m) && DaysBeforeMonth(y, m) + DaysIn(y, m) <= DaysBeforeMonth(y, 13)
    decreases 12 - m
  {
    MonthStep(y, m);
    if m < 12 {
      MonthsBefore(y, m + 1);
    }
  }

  lemma {:induction false} YearsOrdered(a: int, b: int)
    requires a < b
    ensures DaysBeforeYear(a) + YearLength(a) <= DaysBeforeYear(b)
    decreases b - a
  {
    YearStep(a);
    if a + 1 < b {
      YearsOrdered(a + 1, b);
    }
  }

  /** The year of a valid date is the one whose day range holds its day number. */
  lemma YearOfDayNumber(d: Date, y: int)
    requires ValidDate(d)
    requires DaysBeforeYear(y) <= DayNumber(d) < DaysBeforeYear(y) + YearLength(y)
    ensures d.year == y
  {
    DayNumberInYear(d);
    if d.year < y {
      YearsOrdered(d.year, y);
    } else if y < d.year {
      YearsOrdered(y, d.year);
    }
  }

  /** `AddDate(1, 0, 0)` lands in the next year, even from February 29. */
  lemma NextYear(d: Date)
    requires ValidDate(d)
    ensures Normalize(d.year + 1, d.month, d.day).year == d.year + 1
  {
    NormalizeInYear(d.year + 1, d.month, d.day);
  }

  /** A month and a day that are valid in some year give a date inside year `y`. */
  lemma NormalizeInYear(y: int, m: int, day: int)
    requires 1 <= m <= 12 && 1 <= day <= 31 && (m == 2 ==> day <= 29)
    ensures Normalize(y, m, day).year == y
  {
    var first := Date(y, m, 1);
    var r := AddDays(first, day - 1);
    NormalizeInMonth(y, m, day);
    AddDaysNumber(first, day - 1);
    DayInAnyYear(y, m, day);
    YearOfDayNumber(r, y);
  }

  /** A month-and-day that is valid in some year falls inside every year's days. */
  lemma DayInAnyYear(y: int, m: int, day: int)
    requires 1 <= m <= 12 && 1 <= day <= 31 && (m == 2 ==> day <= 29)
    ensures 0 <= DaysBeforeMonth(y, m) + day - 1 < YearLength(y)
  {
  }

  // ---------------------------------------------------------------------------
  // Clock lemmas

  lemma AtClockNanos(d: Date, c: int)
    requires ValidDate(d) && 0 <= c < NanosPerDay
    ensures ClockNanos(AtClock(d, c)) == c
  {
    var inHour := c % NanosPerHour;
    var inMinute := inHour % NanosPerMinute;
    assert c == (c / NanosPerHour) * NanosPerHour + inHour;
    assert inHour == (inHour / NanosPerMinute) * NanosPerMinute + inMinute;
    assert inMinute == (inMinute / NanosPerSecond) * NanosPerSecond + inMinute % NanosPerSecond;
  }

  /** `Add` moves the instant by exactly the duration. */
  lemma AddInstant(t: Time, dur: int)
    requires Valid(t)
    ensures Instant(Add(t, dur)) == Instant(t) + dur
  {
    var total := ClockNanos(t) + dur;
    var q, r := total / NanosPerDay, total % NanosPerDay;
    var d := AddDays(t.date, q);
    assert Add(t, dur) == AtClock(d, r);
    AddDaysNumber(t.date, q);
    AtClockNanos(d, r);
    DaySplit(DayNumber(t.date), ClockNanos(t), dur, DayNumber(d), r);
  }

  /** Moving by whole days and a remainder adds up to the duration. */
  lemma DaySplit(n: int, c: int, dur: int, n2: int, r: int)
    requires n2 == n + (c + dur) / NanosPerDay && r == (c + dur) % NanosPerDay
    ensures n2 * NanosPerDay + r == n * NanosPerDay + c + dur
  {
    var total := c + dur;
    assert total == (total / NanosPerDay) * NanosPerDay + r;
  }

  /** One microsecond before a midnight is 23:59:59.999999 of the day before. */
  lemma MicrosecondBeforeMidnight(d: Date)
    requires ValidDate(d)
    ensures Add(Midnight(d), -NanosPerMicrosecond) == Time(PrevDay(d), 23, 59, 59, 999_999_000)
  {
    var total := -NanosPerMicrosecond;
    assert total / NanosPerDay == -1 && total % NanosPerDay == NanosPerDay - 1000;
    assert AddDays(d, -1) == PrevDay(d);
  }

  lemma {:induction false} MulAtLeast(k: int, n: int)
    requires k >= 1 && n > 0
    ensures k * n >= n
    decreases k
  {
    if k > 1 {
      MulAtLeast(k - 1, n);
      assert k * n == (k - 1) * n + n;
    }
  }

  /** The remainder of `q * n + r` by `n` is `r` when `r` is a remainder. */
  lemma ModOfSplit(x: int, q: int, n: int, r: int)
    requires n > 0 && 0 <= r < n && x == q * n + r
    ensures x % n == r
  {
    var q1 := x / n;
    assert x == q1 * n + x % n;
    assert (q - q1) * n == x % n - r;
    if q > q1 {
      MulAtLeast(q - q1, n);
    } else if q < q1 {
      MulAtLeast(q1 - q, n);
    }
  }

  /**
   * Truncating to an hour, minute or second by zeroing fields is Go's
   * `Truncate`: the instant rounded down to a multiple of the unit.
   */
  lemma TruncateIsAbsolute(t: Time)
    requires Valid(t)
    ensures Instant(TruncateHour(t)) == Instant(t) - Instant(t) % NanosPerHour
    ensures Instant(TruncateMinute(t)) == Instant(t) - Instant(t) % NanosPerMinute
    ensures Instant(TruncateSecond(t)) == Instant(t) - Instant(t) % NanosPerSecond
  {
    var hours := DayNumber(t.date) * 24 + t.hour;
    var minutes := hours * 60 + t.minute;
    var seconds := minutes * 60 + t.second;
    ModOfSplit(Instant(t), hours, NanosPerHour, t.minute * NanosPerMinute + t.second * NanosPerSecond + t.nanos);
    ModOfSplit(Instant(t), minutes, NanosPerMinute, t.second * NanosPerSecond + t.nanos);
    ModOfSplit(Instant(t), seconds, NanosPerSecond, t.nanos);
  }

  /** The clock fields of a valid time are recovered from its nanoseconds since midnight. */
  lemma AtClockFields(t: Time)
    requires Valid(t)
    ensures AtClock(t.date, ClockNanos(t)) == t
  {
    var c := ClockNanos(t);
    var inHour := t.minute * NanosPerMinute + t.second * NanosPerSecond + t.nanos;
    var inMinute := t.second * NanosPerSecond + t.nanos;
    ModOfSplit(c, t.hour, NanosPerHour, inHour);
    ModOfSplit(inHour, t.minute, NanosPerMinute, inMinute);
    ModOfSplit(inMinute, t.second, NanosPerSecond, t.nanos);
  }

  lemma {:induction false} MonthsOrdered(y: int, i: int, j: int)
    requires 1 <= i < j <= 13
    ensures DaysBeforeMonth(y, i) + DaysIn(y, i) <= DaysBeforeMonth(y, j)
    decreases j - i
  {
    MonthStep(y, i);
    if i + 1 < j {
      MonthsOrdered(y, i + 1, j);
    }
  }

  /** Different valid dates have different day numbers. */
  lemma DayNumberInjective(a: Date, b: Date)
    requires ValidDate(a) && ValidDate(b) && DayNumber(a) == DayNumber(b)
    ensures a == b
  {
    DayNumberInYear(a);
    YearOfDayNumber(b, a.year);
    if a.month < b.month {
      MonthsOrdered(a.year, a.month, b.month);
    } else if b.month < a.month {
      MonthsOrdered(a.year, b.month, a.month);
    }
  }

  /** Different valid times are different instants. */
  lemma InstantInjective(a: Time, b: Time)
    requires Valid(a) && Valid(b) && Instant(a) == Instant(b)
    ensures a == b
  {
    ClockBound(a);
    ClockBound(b);
    SplitUnique(DayNumber(a.date), ClockNanos(a), DayNumber(b.date), ClockNanos(b), NanosPerDay);
    DayNumberInjective(a.date, b.date);
    AtClockFields(a);
    AtClockFields(b);
  }

  /** A whole number of units and a remainder below one unit determine each other. */
  lemma SplitUnique(qa: int, ra: int, qb: int, rb: int, n: int)
    requires n > 0 && 0 <= ra < n && 0 <= rb < n && qa * n + ra == qb * n + rb
    ensures qa == qb && ra == rb
  {
    ModOfSplit(qa * n + ra, qa, n, ra);
    ModOfSplit(qb * n + rb, qb, n, rb);
    assert qa * n == qb * n;
  }

  // ---------------------------------------------------------------------------
  // The periods TimeStartOf and TimeEndOf delimit

  /** The last microsecond of a day: how every `TimeEndOf` clock reads for "day" and longer. */
  function LastMicrosecond(d: Date): Time {
    Time(d, 23, 59, 59, 999_999_000)
  }

  /** "year": from January 1 00:00 to December 31 23:59:59.999999, leap year or not. */
  lemma YearBounds(t: Time)
    requires Valid(t)
    ensures StartOf(t, "year") == Midnight(Date(t.date.year, 1, 1))
    ensures EndOf(t, "year") == LastMicrosecond(Date(t.date.year, 12, 31))
  {
    NextYear(t.date);
    MicrosecondBeforeMidnight(Date(t.date.year + 1, 1, 1));
  }

  /** "month": from day 1 00:00 to the month's last day 23:59:59.999999, for 30- and 31-day months and February. */
  lemma MonthBounds(t: Time)
    requires Valid(t)
    ensures StartOf(t, "month") == Midnight(Date(t.date.year, t.date.month, 1))
    ensures EndOf(t, "month") == LastMicrosecond(Date(t.date.year, t.date.month, DaysIn(t.date.year, t.date.month)))
  {
    var y, m := t.date.year, t.date.month;
    var next := if m == 12 then Date(y + 1, 1, 1) else Date(y, m + 1, 1);
    assert Normalize(y, m + 1, 1) == next;
    MicrosecondBeforeMidnight(next);
  }

  /** Going back `WeekDayDiff` days from day number `n` lands on a Monday. */
  lemma MondayOf(n: int)
    ensures var w := (n + 1) % 7;
            var k := if w == 0 then -6 else -(w - 1);
            (n + k + 1) % 7 == 1
  {
    var q, w := (n + 1) / 7, (n + 1) % 7;
    if w == 0 {
      ModOfSplit(n - 6 + 1, q - 1, 7, 1);
    } else {
      ModOfSplit(n - (w - 1) + 1, q, 7, 1);
    }
  }

  /** `AddDate(0, 0, k)` moves the day number by `k` and keeps the clock. */
  lemma AddDateDays(t: Time, k: int)
    requires Valid(t)
    ensures var r := AddDate(t, 0, 0, k);
            DayNumber(r.date) == DayNumber(t.date) + k && ClockNanos(r) == ClockNanos(t)
  {
    assert AddDate(t, 0, 0, k).date == Normalize(t.date.year, t.date.month, t.date.day + k);
    NormalizeDays(t.date, k);
  }

  /** Six days after a Monday is a Sunday. */
  lemma SundayOfDate(a: Date, b: Date)
    requires 1 <= a.month <= 12 && 1 <= b.month <= 12
    requires Weekday(a) == 1 && DayNumber(b) == DayNumber(a) + 6
    ensures Weekday(b) == 0
  {
    var n := DayNumber(a);
    ModOfSplit(n + 1, (n + 1) / 7, 7, 1);
    ModOfSplit(n + 7, (n + 1) / 7 + 1, 7, 0);
  }

  /** A date a week later has the same weekday, so the same offset back to its Monday. */
  lemma WeekLater(a: Date, b: Date)
    requires 1 <= a.month <= 12 && 1 <= b.month <= 12
    requires DayNumber(b) == DayNumber(a) + 7
    ensures WeekDayDiff(b) == WeekDayDiff(a)
  {
    ModShift(DayNumber(a) + 1, 7);
  }

  /** `TimeStartOf(t, "week")` is 00:00 of the Monday on or before `t`: a Sunday goes six days back. */
  lemma WeekStart(t: Time)
    requires Valid(t)
    ensures var s := StartOf(t, "week");
            s == Midnight(s.date) && Weekday(s.date) == 1 &&
            DayNumber(s.date) == DayNumber(t.date) + WeekDayDiff(t.date) &&
            DayNumber(t.date) - 6 <= DayNumber(s.date) <= DayNumber(t.date)
  {
    var k := WeekDayDiff(t.date);
    var d := Normalize(t.date.year, t.date.month, t.date.day + k);
    StartOfWeekIs(t);
    assert StartOf(t, "week").date == d;
    NormalizeDays(t.date, k);
    assert DayNumber(d) == DayNumber(t.date) + k;
    MondayOfDate(t.date, d);
  }

  /** A date `WeekDayDiff` days before another is a Monday. */
  lemma MondayOfDate(a: Date, b: Date)
    requires 1 <= a.month <= 12 && 1 <= b.month <= 12
    requires DayNumber(b) == DayNumber(a) + WeekDayDiff(a)
    ensures Weekday(b) == 1
  {
    MondayOf(DayNumber(a));
  }

  lemma StartOfWeekIs(t: Time)
    requires Valid(t)
    ensures StartOf(t, "week") == Midnight(Normalize(t.date.year, t.date.month, t.date.day + WeekDayDiff(t.date)))
  {
  }

  /**
   * "week": from 00:00 of the Monday on or before `t` to 23:59:59.999999 of
   * the Sunday six days after that Monday.
   */
  lemma WeekBounds(t: Time)
    requires Valid(t)
    ensures var s := StartOf(t, "week");
            s == Midnight(s.date) && Weekday(s.date) == 1 &&
            DayNumber(t.date) - 6 <= DayNumber(s.date) <= DayNumber(t.date)
    ensures var e := EndOf(t, "week");
            e == LastMicrosecond(e.date) && Weekday(e.date) == 0 &&
            DayNumber(e.date) == DayNumber(StartOf(t, "week").date) + 6
  {
    WeekStart(t);
    var s := StartOf(t, "week");
    var t2 := AddDate(t, 0, 0, 7);
    AddDateDays(t, 7);
    WeekLater(t.date, t2.date);
    var s2 := StartOf(t2, "week");
    WeekStart(t2);
    assert DayNumber(s2.date) == DayNumber(s.date) + 7;
    MicrosecondBeforeMidnight(s2.date);
    PrevDayNumber(s2.date);
    var e := EndOf(t, "week");
    assert e == Add(s2, -NanosPerMicrosecond);
    assert e == LastMicrosecond(PrevDay(s2.date));
    SundayOfDate(s.date, e.date);
  }

  /** "day": from 00:00 to 23:59:59.999999 of `t`'s own date. */
  lemma DayBounds(t: Time)
    requires Valid(t)
    ensures StartOf(t, "day") == Midnight(t.date)
    ensures EndOf(t, "day") == LastMicrosecond(t.date)
  {
    NormalizeNextDay(t.date);
    MicrosecondBeforeMidnight(NextDay(t.date));
    PrevNextDay(t.date);
  }

  /** Adding a whole unit keeps the remainder by that unit. */
  lemma ModShift(x: int, u: int)
    requires u > 0
    ensures (x + u) % u == x % u
  {
    ModOfSplit(x + u, x / u + 1, u, x % u);
  }

  /** "hour": the larger fields are kept, the smaller ones run from zero to 59:59.999999. */
  lemma HourBounds(t: Time)
    requires Valid(t)
    ensures StartOf(t, "hour") == Time(t.date, t.hour, 0, 0, 0)
    ensures EndOf(t, "hour") == Time(t.date, t.hour, 59, 59, 999_999_000)
  {
    var next := Add(t, NanosPerHour);
    AddInstant(t, NanosPerHour);
    TruncateIsAbsolute(next);
    ModShift(Instant(t), NanosPerHour);
    AddInstant(TruncateHour(next), -NanosPerMicrosecond);
    TruncateIsAbsolute(t);
    InstantInjective(EndOf(t, "hour"), Time(t.date, t.hour, 59, 59, 999_999_000));
  }

  /** "minute": the larger fields are kept, the seconds run from zero to 59.999999. */
  lemma MinuteBounds(t: Time)
    requires Valid(t)
    ensures StartOf(t, "minute") == Time(t.date, t.hour, t.minute, 0, 0)
    ensures EndOf(t, "minute") == Time(t.date, t.hour, t.minute, 59, 999_999_000)
  {
    var next := Add(t, NanosPerMinute);
    AddInstant(t, NanosPerMinute);
    TruncateIsAbsolute(next);
    ModShift(Instant(t), NanosPerMinute);
    AddInstant(TruncateMinute(next), -NanosPerMicrosecond);
    TruncateIsAbsolute(t);
    InstantInjective(EndOf(t, "minute"), Time(t.date, t.hour, t.minute, 59, 999_999_000));
  }

  /** "second": the larger fields are kept, the nanoseconds run from zero to .999999. */
  lemma SecondBounds(t: Time)
    requires Valid(t)
    ensures StartOf(t, "second") == Time(t.date, t.hour, t.minute, t.second, 0)
    ensures EndOf(t, "second") == Time(t.date, t.hour, t.minute, t.second, 999_999_000)
  {
    var next := Add(t, NanosPerSecond);
    AddInstant(t, NanosPerSecond);
    TruncateIsAbsolute(next);
    ModShift(Instant(t), NanosPerSecond);
    AddInstant(TruncateSecond(next), -NanosPerMicrosecond);
    TruncateIsAbsolute(t);
    InstantInjective(EndOf(t, "second"), Time(t.date, t.hour, t.minute, t.second, 999_999_000));
  }

  /** An unrecognised granularity leaves the time as it is, in both functions. */
  lemma UnrecognisedIsIdentity(t: Time, g: string)
    requires Valid(t) && !Recognised(g)
    ensures StartOf(t, g) == t && EndOf(t, g) == t
  {
  }

  // ---------------------------------------------------------------------------
  // Order, idempotence and the package's tests

  /** Two numbers less than a week apart that fall on the same weekday are equal. */
  lemma SameWeekday(a: int, b: int)
    requires a - 7 < b < a + 7 && (a + 1) % 7 == (b + 1) % 7
    ensures a == b
  {
    var qa, qb := (a + 1) / 7, (b + 1) / 7;
    assert b - a == (qb - qa) * 7;
    if qb > qa {
      MulAtLeast(qb - qa, 7);
    } else if qb < qa {
      MulAtLeast(qa - qb, 7);
    }
  }

  /** A time on one of the days `first` to `last` lies between their first and last microseconds. */
  lemma WithinDays(t: Time, first: Date, last: Date)
    requires Valid(t) && ValidDate(first) && ValidDate(last)
    requires DayNumber(first) <= DayNumber(t.date) <= DayNumber(last)
    ensures Instant(Midnight(first)) <= Instant(t) < Instant(LastMicrosecond(last)) + NanosPerMicrosecond
    ensures t.nanos % NanosPerMicrosecond == 0 ==> Instant(t) <= Instant(LastMicrosecond(last))
  {
    var c := ClockNanos(t);
    assert Instant(LastMicrosecond(last)) == DayNumber(last) * NanosPerDay + (NanosPerDay - NanosPerMicrosecond);
    ClockBound(t);
    DaysOrder(DayNumber(first), DayNumber(t.date), DayNumber(last), c);
  }

  lemma ClockBound(t: Time)
    requires Valid(t)
    ensures 0 <= ClockNanos(t) < NanosPerDay
    ensures t.nanos % NanosPerMicrosecond == 0 ==> ClockNanos(t) <= NanosPerDay - NanosPerMicrosecond
  {
    if t.nanos % NanosPerMicrosecond == 0 {
      assert t.nanos <= 999_999_000;
    }
  }

  lemma DaysOrder(a: int, n: int, b: int, c: int)
    requires a <= n <= b && 0 <= c < NanosPerDay
    ensures a * NanosPerDay <= n * NanosPerDay + c < b * NanosPerDay + (NanosPerDay - NanosPerMicrosecond) + NanosPerMicrosecond
    ensures c <= NanosPerDay - NanosPerMicrosecond ==> n * NanosPerDay + c <= b * NanosPerDay + (NanosPerDay - NanosPerMicrosecond)
  {
  }

  /**
   * `TimeStartOf(t, g)` is never after `t`, and `t` is before `TimeEndOf(t, g)`
   * plus one microsecond; when `t` has no sub-microsecond part, `t` is never
   * after `TimeEndOf(t, g)`.
   */
  lemma StartAndEndAroundTime(t: Time, g: string)
    requires Valid(t) && Recognised(g)
    ensures Instant(StartOf(t, g)) <= Instant(t)
    ensures Instant(t) < Instant(EndOf(t, g)) + NanosPerMicrosecond
    ensures t.nanos % NanosPerMicrosecond == 0 ==> Instant(t) <= Instant(EndOf(t, g))
  {
    if g == "year" {
      AroundYear(t);
    } else if g == "month" {
      AroundMonth(t);
    } else if g == "week" {
      AroundWeek(t);
    } else if g == "day" {
      AroundDay(t);
    } else if g == "hour" {
      AroundHour(t);
    } else if g == "minute" {
      AroundMinute(t);
    } else {
      AroundSecond(t);
    }
  }

  /** `t` lies between `s` and the microsecond that starts at `e`, and not after `e` when it has no sub-microsecond part. */
  predicate Around(t: Time, s: Time, e: Time)
    requires 1 <= t.date.month <= 12 && 1 <= s.date.month <= 12 && 1 <= e.date.month <= 12
  {
    Instant(s) <= Instant(t) && Instant(t) < Instant(e) + NanosPerMicrosecond &&
    (t.nanos % NanosPerMicrosecond == 0 ==> Instant(t) <= Instant(e))
  }

  lemma AroundYear(t: Time)
    requires Valid(t)
    ensures Around(t, StartOf(t, "year"), EndOf(t, "year"))
  {
    var y, m := t.date.year, t.date.month;
    YearBounds(t);
    MonthsBefore(y, m);
    MonthStep(y, 12);
    WithinDays(t, Date(y, 1, 1), Date(y, 12, 31));
  }

  lemma AroundMonth(t: Time)
    requires Valid(t)
    ensures Around(t, StartOf(t, "month"), EndOf(t, "month"))
  {
    var y, m := t.date.year, t.date.month;
    MonthBounds(t);
    WithinDays(t, Date(y, m, 1), Date(y, m, DaysIn(y, m)));
  }

  lemma AroundWeek(t: Time)
    requires Valid(t)
    ensures Around(t, StartOf(t, "week"), EndOf(t, "week"))
  {
    WeekBounds(t);
    WithinDays(t, StartOf(t, "week").date, EndOf(t, "week").date);
  }

  lemma AroundDay(t: Time)
    requires Valid(t)
    ensures Around(t, StartOf(t, "day"), EndOf(t, "day"))
  {
    DayBounds(t);
    WithinDays(t, t.date, t.date);
  }

  lemma AroundHour(t: Time)
    requires Valid(t)
    ensures Around(t, StartOf(t, "hour"), EndOf(t, "hour"))
  {
    HourBounds(t);
    var s, e := Time(t.date, t.hour, 0, 0, 0), Time(t.date, t.hour, 59, 59, 999_999_000);
    HourClock(t);
    assert ClockNanos(s) == t.hour * NanosPerHour;
    assert ClockNanos(e) == t.hour * NanosPerHour + NanosPerHour - NanosPerMicrosecond;
    SameDayAround(t, s, e);
  }

  /** The clock of `t` lies inside its hour, and inside its last microsecond when it has no sub-microsecond part. */
  lemma HourClock(t: Time)
    requires Valid(t)
    ensures t.hour * NanosPerHour <= ClockNanos(t) < t.hour * NanosPerHour + NanosPerHour
    ensures t.nanos % NanosPerMicrosecond == 0 ==> ClockNanos(t) <= t.hour * NanosPerHour + NanosPerHour - NanosPerMicrosecond
  {
    if t.nanos % NanosPerMicrosecond == 0 {
      assert t.nanos <= 999_999_000;
    }
  }

  lemma AroundMinute(t: Time)
    requires Valid(t)
    ensures Around(t, StartOf(t, "minute"), EndOf(t, "minute"))
  {
    ClockBound(t);
    MinuteBounds(t);
    SameDayAround(t, Time(t.date, t.hour, t.minute, 0, 0), Time(t.date, t.hour, t.minute, 59, 999_999_000));
  }

  lemma AroundSecond(t: Time)
    requires Valid(t)
    ensures Around(t, StartOf(t, "second"), EndOf(t, "second"))
  {
    ClockBound(t);
    SecondBounds(t);
    SameDayAround(t, Time(t.date, t.hour, t.minute, t.second, 0), Time(t.date, t.hour, t.minute, t.second, 999_999_000));
  }

  /** On one day, the order of instants is the order of clocks. */
  lemma SameDayAround(t: Time, s: Time, e: Time)
    requires 1 <= t.date.month <= 12 && s.date == t.date && e.date == t.date
    requires ClockNanos(s) <= ClockNanos(t) < ClockNanos(e) + NanosPerMicrosecond
    requires t.nanos % NanosPerMicrosecond == 0 ==> ClockNanos(t) <= ClockNanos(e)
    ensures Around(t, s, e)
  {
  }

  /**
   * The bound above needs the microsecond condition: at 04:05:06.9999995 the end
   * of the second, 04:05:06.999999, is already in the past.
   */
  lemma EndOfBeforeSubMicrosecondTime()
    ensures var t := Time(Date(2016, 2, 3), 4, 5, 6, 999_999_500);
            Valid(t) && Instant(EndOf(t, "second")) < Instant(t)
  {
    SecondBounds(Time(Date(2016, 2, 3), 4, 5, 6, 999_999_500));
  }

  /** Truncating twice to the same granularity is truncating once. */
  lemma StartOfIdempotent(t: Time, g: string)
    requires Valid(t)
    ensures StartOf(StartOf(t, g), g) == StartOf(t, g)
  {
    if g == "week" {
      var s := StartOf(t, g);
      WeekStart(t);
      NormalizeValid(s.date);
    }
  }

  /** `TimeEndOf(t, g)` lies in the same period as `t`: its start and its end are those of `t`. */
  lemma EndOfSamePeriod(t: Time, g: string)
    requires Valid(t)
    ensures StartOf(EndOf(t, g), g) == StartOf(t, g)
    ensures EndOf(EndOf(t, g), g) == EndOf(t, g)
  {
    var e := EndOf(t, g);
    if g == "year" {
      YearBounds(t);
      YearBounds(e);
    } else if g == "month" {
      MonthBounds(t);
      MonthBounds(e);
    } else if g == "week" {
      WeekSamePeriod(t);
    } else if g == "day" {
      DayBounds(t);
      DayBounds(e);
    } else if g == "hour" {
      HourBounds(t);
      HourBounds(e);
    } else if g == "minute" {
      MinuteBounds(t);
      MinuteBounds(e);
    } else if g == "second" {
      SecondBounds(t);
      SecondBounds(e);
    }
  }

  lemma WeekSamePeriod(t: Time)
    requires Valid(t)
    ensures StartOf(EndOf(t, "week"), "week") == StartOf(t, "week")
    ensures EndOf(EndOf(t, "week"), "week") == EndOf(t, "week")
  {
    var e := EndOf(t, "week");
    WeekBounds(t);
    WeekBounds(e);
    var s, s1, e1 := StartOf(t, "week"), StartOf(e, "week"), EndOf(e, "week");
    SameMonday(s.date, s1.date, DayNumber(e.date));
    assert DayNumber(e1.date) == DayNumber(e.date);
    DayNumberInjective(e.date, e1.date);
  }

  /** Two Mondays in the six days up to one day are the same date. */
  lemma SameMonday(a: Date, b: Date, n: int)
    requires ValidDate(a) && ValidDate(b) && Weekday(a) == 1 && Weekday(b) == 1
    requires n - 6 <= DayNumber(a) <= n && n - 6 <= DayNumber(b) <= n
    ensures a == b
  {
    SameWeekday(DayNumber(a), DayNumber(b));
    DayNumberInjective(a, b);
  }

  /** February 3, 2016, 04:05:06, the time most of the package's tests use. */
  const Feb3: Time := Time(Date(2016, 2, 3), 4, 5, 6, 0)

  /** `TimeStartOf` on February 3, 2016, 04:05:06, granularity by granularity. */
  lemma StartOfExamples()
    ensures StartOf(Feb3, "year") == Midnight(Date(2016, 1, 1))
    ensures StartOf(Feb3, "month") == Midnight(Date(2016, 2, 1))
    ensures StartOf(Feb3, "day") == Midnight(Date(2016, 2, 3))
    ensures StartOf(Feb3, "hour") == Time(Date(2016, 2, 3), 4, 0, 0, 0)
    ensures StartOf(Feb3, "minute") == Time(Date(2016, 2, 3), 4, 5, 0, 0)
    ensures StartOf(Feb3, "second") == Feb3
    ensures StartOf(Feb3, "total") == Feb3
  {
  }

  /**
   * `TimeEndOf` on February 3, 2016, 04:05:06. The tests print these with
   * RFC 3339 seconds, which drop the final .999999.
   */
  lemma EndOfExamples()
    ensures EndOf(Feb3, "year") == LastMicrosecond(Date(2016, 12, 31))
    ensures EndOf(Feb3, "month") == LastMicrosecond(Date(2016, 2, 29))
    ensures EndOf(Feb3, "day") == LastMicrosecond(Date(2016, 2, 3))
    ensures EndOf(Feb3, "hour") == Time(Date(2016, 2, 3), 4, 59, 59, 999_999_000)
    ensures EndOf(Feb3, "minute") == Time(Date(2016, 2, 3), 4, 5, 59, 999_999_000)
    ensures EndOf(Feb3, "second") == Time(Date(2016, 2, 3), 4, 5, 6, 999_999_000)
    ensures EndOf(Feb3, "total") == Feb3
  {
    YearBounds(Feb3);
    assert DaysIn(2016, 2) == 29;
    MonthBounds(Feb3);
    DayBounds(Feb3);
    ClockEndExamples();
    UnrecognisedIsIdentity(Feb3, "total");
  }

  lemma ClockEndExamples()
    ensures EndOf(Feb3, "hour") == Time(Date(2016, 2, 3), 4, 59, 59, 999_999_000)
    ensures EndOf(Feb3, "minute") == Time(Date(2016, 2, 3), 4, 5, 59, 999_999_000)
    ensures EndOf(Feb3, "second") == Time(Date(2016, 2, 3), 4, 5, 6, 999_999_000)
  {
    HourBounds(Feb3);
    MinuteBounds(Feb3);
    SecondBounds(Feb3);
  }

  /** The month and year edge cases: 31-day months, and December 31 of a leap and of a common year. */
  lemma EndOfEdgeExamples()
    ensures EndOf(Time(Date(2016, 3, 31), 4, 5, 6, 0), "month") == LastMicrosecond(Date(2016, 3, 31))
    ensures EndOf(Time(Date(2016, 1, 31), 4, 5, 6, 0), "month") == LastMicrosecond(Date(2016, 1, 31))
    ensures EndOf(Time(Date(2016, 12, 31), 4, 5, 6, 0), "year") == LastMicrosecond(Date(2016, 12, 31))
    ensures EndOf(Time(Date(2015, 12, 31), 4, 5, 6, 0), "year") == LastMicrosecond(Date(2015, 12, 31))
  {
    MonthEndExample(2016, 3);
    MonthEndExample(2016, 1);
    YearEndExample(2016);
    YearEndExample(2015);
  }

  lemma MonthEndExample(y: int, m: int)
    requires 1 <= m <= 12 && DaysIn(y, m) == 31
    ensures EndOf(Time(Date(y, m, 31), 4, 5, 6, 0), "month") == LastMicrosecond(Date(y, m, 31))
  {
    MonthBounds(Time(Date(y, m, 31), 4, 5, 6, 0));
  }

  lemma YearEndExample(y: int)
    ensures EndOf(Time(Date(y, 12, 31), 4, 5, 6, 0), "year") == LastMicrosecond(Date(y, 12, 31))
  {
    YearBounds(Time(Date(y, 12, 31), 4, 5, 6, 0));
  }

  /** Every day from Monday February 8 to Sunday February 14, 2016 lies in the week Feb 8 00:00 to Feb 14 23:59:59.999999. */
  lemma WeekExamples(day: int)
    requires 8 <= day <= 14
    ensures StartOf(Time(Date(2016, 2, day), 4, 5, 6, 0), "week") == Midnight(Date(2016, 2, 8))
    ensures EndOf(Time(Date(2016, 2, day), 4, 5, 6, 0), "week") == LastMicrosecond(Date(2016, 2, 14))
  {
    var t := Time(Date(2016, 2, day), 4, 5, 6, 0);
    WeekBounds(t);
    var s, e := StartOf(t, "week"), EndOf(t, "week");
    assert DayNumber(Date(2016, 2, 8)) == 736001;
    assert DayNumber(t.date) == 736001 + day - 8;
    ModOfSplit(736002, 105143, 7, 1);
    SameWeekday(DayNumber(s.date), 736001);
    DayNumberInjective(s.date, Date(2016, 2, 8));
    assert DayNumber(Date(2016, 2, 14)) == 736007;
    DayNumberInjective(e.date, Date(2016, 2, 14));
  }
}
