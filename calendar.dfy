/**
 * Dates as the application reads them from JavaScript `Date` objects, and
 * `getDaysUntilBirthday`, computed over whole day numbers plus a time of day.
 */
module Calendar {
  import opened Wrappers

  /** What `getFullYear()`, `getMonth()` (0 = January) and `getDate()` report. */
  datatype CalDate = CalDate(year: int, month: int, day: int)

  predicate IsLeapYear(y: int)
  {
    y % 4 == 0 && (y % 100 != 0 || y % 400 == 0)
  }

  function YearLength(y: int): int
  {
    if IsLeapYear(y) then 366 else 365
  }

  function DaysInMonth(y: int, m: int): int
    requires 0 <= m < 12
  {
    if m == 1 then (if IsLeapYear(y) then 29 else 28)
    else if m == 3 || m == 5 || m == 8 || m == 10 then 30
    else 31
  }

  predicate ValidDate(d: CalDate)
  {
    0 <= d.month < 12 && 1 <= d.day <= DaysInMonth(d.year, d.month)
  }

  /** A real calendar date. */
  type Date = d: CalDate | ValidDate(d) witness CalDate(1970, 0, 1)

  /** Days in the months before month `m` of a common year. */
  function CommonDaysBeforeMonth(m: int): int
    requires 0 <= m < 12
  {
    if m == 0 then 0 else if m == 1 then 31 else if m == 2 then 59 else if m == 3 then 90
    else if m == 4 then 120 else if m == 5 then 151 else if m == 6 then 181
    else if m == 7 then 212 else if m == 8 then 243 else if m == 9 then 273
    else if m == 10 then 304 else 334
  }

  function DaysBeforeMonth(y: int, m: int): int
    requires 0 <= m < 12
  {
    CommonDaysBeforeMonth(m) + (if m >= 2 && IsLeapYear(y) then 1 else 0)
  }

  /** Days from 1 January of year 0 (proleptic Gregorian) to 1 January of year `y`. */
  function DaysBeforeYear(y: int): int
  {
    365 * y + (y + 3) / 4 - (y + 99) / 100 + (y + 399) / 400
  }

  /** The day number of `new Date(y, m, d)`. A day past the end of the month rolls over into
      the next month, as the JavaScript constructor does (29 February of a common year is 1 March). */
  function DayNumber(y: int, m: int, d: int): int
    requires 0 <= m < 12
  {
    DaysBeforeYear(y) + DaysBeforeMonth(y, m) + d - 1
  }

  function DayOf(d: Date): int
  {
    DayNumber(d.year, d.month, d.day)
  }

  /** For the leap-year divisors, adding one to `y` moves `(y + k - 1) / k` up by one exactly
      when `k` divides `y`. */
  lemma Carry(y: int, k: int)
    requires k == 4 || k == 100 || k == 400
    ensures (y + k) / k - (y + k - 1) / k == if y % k == 0 then 1 else 0
  {
    if k == 4 {
      var q, r := y / 4, y % 4;
      assert y + 4 == 4 * (q + 1) + r;
      assert (y + 4) / 4 == q + 1;
      assert (y + 3) / 4 == if r == 0 then q else q + 1;
    } else if k == 100 {
      var q, r := y / 100, y % 100;
      assert y + 100 == 100 * (q + 1) + r;
      assert (y + 100) / 100 == q + 1;
      assert (y + 99) / 100 == if r == 0 then q else q + 1;
    } else {
      var q, r := y / 400, y % 400;
      assert y + 400 == 400 * (q + 1) + r;
      assert (y + 400) / 400 == q + 1;
      assert (y + 399) / 400 == if r == 0 then q else q + 1;
    }
  }

  /** A multiple of 4 or of 100 leaves no remainder. */
  lemma MultipleMod(m: int, k: int)
    requires k == 4 || k == 100
    ensures (k * m) % k == 0
  {
    if k == 4 {
      assert (4 * m) % 4 == 0;
    } else {
      assert (100 * m) % 100 == 0;
    }
  }

  /** Consecutive years start exactly one year length apart. */
  lemma YearStep(y: int)
    ensures DaysBeforeYear(y + 1) == DaysBeforeYear(y) + YearLength(y)
  {
    Carry(y, 4);
    Carry(y, 100);
    Carry(y, 400);
    if y % 400 == 0 {
      var m := y / 400;
      assert y == 100 * (4 * m);
      MultipleMod(4 * m, 100);
    }
    if y % 100 == 0 {
      var m := y / 100;
      assert y == 4 * (25 * m);
      MultipleMod(25 * m, 4);
    }
  }

  /** Every day of a real date falls inside its year. */
  lemma DayInsideYear(d: Date)
    ensures DaysBeforeYear(d.year) <= DayOf(d) < DaysBeforeYear(d.year) + YearLength(d.year)
  {
  }

  const MsPerDay: int := 86400000

  /** The clock reading `new Date()`: today's date plus milliseconds since local midnight. */
  datatype Instant = Instant(date: Date, msOfDay: int)

  type Now = n: Instant | 0 <= n.msOfDay < MsPerDay witness Instant(CalDate(1970, 0, 1), 0)

  /** The birthday field of a record: empty, not a date, or a date. */
  datatype DateField = NoDate | BadDate | OnDate(date: Date)

  /** `Math.ceil(a / b)` for a positive divisor. */
  function CeilDiv(a: int, b: int): int
    requires b > 0
  {
    -((-a) / b)
  }

  /** `new Date(y, m, d)` for a day of at most 31: a day past the end of month `m` rolls over
      into the next month (29 February of a common year becomes 1 March). */
  function RolledDate(y: int, m: int, d: int): (r: Date)
    requires 0 <= m < 12 && 1 <= d <= 31
    ensures DayNumber(r.year, r.month, r.day) == DayNumber(y, m, d)
    ensures d <= DaysInMonth(y, m) ==> r == CalDate(y, m, d)
    ensures d > DaysInMonth(y, m) ==> r.year == y && r.month == m + 1
  {
    if d <= DaysInMonth(y, m) then CalDate(y, m, d)
    else CalDate(y, m + 1, d - DaysInMonth(y, m))
  }

  /**
   * `getDaysUntilBirthday(birthDate)`: this year's occurrence at midnight (rolled over as the
   * `Date` constructor does); if that instant is before now, the same month and day of next year
   * (`setFullYear`); the difference in milliseconds rounded up to whole days. An empty or
   * unparsable date gives NaN, written None.
   */
  function DaysUntilBirthday(birth: DateField, now: Now): (r: Option<int>)
    ensures r.Some? <==> birth.OnDate?
  {
    match birth
    case OnDate(b) =>
      var y := now.date.year;
      var nowMs := DayOf(now.date) * MsPerDay + now.msOfDay;
      var thisYear := RolledDate(y, b.month, b.day);
      var thisMs := DayOf(thisYear) * MsPerDay;
      var target := if thisMs < nowMs then DayNumber(y + 1, thisYear.month, thisYear.day) * MsPerDay else thisMs;
      Some(CeilDiv(target - nowMs, MsPerDay))
    case _ => None
  }

  /** Rounding up a whole number of days less a part of one day gives the whole number. */
  lemma CeilDays(k: int, ms: int)
    requires 0 <= ms < MsPerDay
    ensures CeilDiv(k * MsPerDay - ms, MsPerDay) == k
  {
    var a := ms - k * MsPerDay;
    assert a == (-k) * MsPerDay + ms;
  }

  /** The day number of the occurrence `getDaysUntilBirthday` counts to: this year's rolled-over
      date, or the same month and day of next year once it is before now. */
  ghost function OccurrenceDay(b: Date, now: Now): int
  {
    var rolled := RolledDate(now.date.year, b.month, b.day);
    var thisDay := DayOf(rolled);
    if thisDay < DayOf(now.date) || (thisDay == DayOf(now.date) && now.msOfDay > 0)
    then DayNumber(now.date.year + 1, rolled.month, rolled.day)
    else thisDay
  }

  /** Midnight of day `d` is before the instant `ms` into day `t` exactly when `d` is an earlier
      day, or the same day and the instant is past midnight. */
  lemma PassedInDays(d: int, t: int, ms: int)
    requires 0 <= ms < MsPerDay
    ensures d * MsPerDay < t * MsPerDay + ms <==> d < t || (d == t && ms > 0)
  {
    var k := d - t;
    assert d * MsPerDay == t * MsPerDay + k * MsPerDay;
    if k < 0 {
      assert k * MsPerDay <= -MsPerDay;
    } else if k > 0 {
      assert k * MsPerDay >= MsPerDay;
    }
  }

  /** The count is the number of days from today to the occurrence day. */
  lemma {:induction false} DaysUntilInDays(b: Date, now: Now)
    ensures DaysUntilBirthday(OnDate(b), now) == Some(OccurrenceDay(b, now) - DayOf(now.date))
  {
    var t := DayOf(now.date);
    var ms := now.msOfDay;
    var thisDay := DayOf(RolledDate(now.date.year, b.month, b.day));
    PassedInDays(thisDay, t, ms);
    var target := OccurrenceDay(b, now);
    CeilDays(target - t, ms);
    assert (target - t) * MsPerDay - ms == target * MsPerDay - (t * MsPerDay + ms);
  }

  /** The occurrence day is never before today, and it is today only when this year's date is
      today and it is exactly midnight. */
  lemma {:induction false} OccurrenceNotBeforeToday(b: Date, now: Now)
    ensures OccurrenceDay(b, now) >= DayOf(now.date)
    ensures OccurrenceDay(b, now) == DayOf(now.date)
            <==> now.msOfDay == 0 && DayNumber(now.date.year, b.month, b.day) == DayOf(now.date)
  {
    var y := now.date.year;
    var t := DayOf(now.date);
    var rolled := RolledDate(y, b.month, b.day);
    var thisDay := DayOf(rolled);
    if thisDay < t || (thisDay == t && now.msOfDay > 0) {
      YearStep(y);
      DayInsideYear(now.date);
      assert DayNumber(y + 1, rolled.month, rolled.day) >= DaysBeforeYear(y + 1) > t;
    }
  }

  /**
   * The result for a real date is never negative, and it is the number of calendar days from
   * today to the occurrence chosen; it is 0 only at exactly midnight of that day.
   */
  lemma {:induction false} DaysUntilNonNegative(b: Date, now: Now)
    ensures DaysUntilBirthday(OnDate(b), now).Some?
    ensures DaysUntilBirthday(OnDate(b), now).value >= 0
    ensures DaysUntilBirthday(OnDate(b), now).value == 0
            <==> now.msOfDay == 0 && DayNumber(now.date.year, b.month, b.day) == DayOf(now.date)
  {
    DaysUntilInDays(b, now);
    OccurrenceNotBeforeToday(b, now);
  }

  /**
   * A birthday whose month and day are today's is already "passed" once the clock is past
   * midnight, so it is rolled over to next year: at least 365 days away, not 0.
   */
  lemma {:induction false} BirthdayTodayRollsOver(b: Date, now: Now)
    requires b.month == now.date.month && b.day == now.date.day && now.msOfDay > 0
    ensures DaysUntilBirthday(OnDate(b), now).Some?
    ensures DaysUntilBirthday(OnDate(b), now).value >= 365
  {
    var y := now.date.year;
    var t := DayOf(now.date);
    var ms := now.msOfDay;
    assert RolledDate(y, b.month, b.day) == now.date;
    var nextDay := DayNumber(y + 1, b.month, b.day);
    YearStep(y);
    assert nextDay - t >= 365;
    CeilDays(nextDay - t, ms);
    assert (nextDay - t) * MsPerDay - ms == nextDay * MsPerDay - (t * MsPerDay + ms);
  }

  /** A birthday whose month and day fall on the day after today is 1 day away at any time of
      day. */
  lemma TomorrowIsOneDay(b: Date, now: Now)
    requires DayNumber(now.date.year, b.month, b.day) == DayOf(now.date) + 1
    ensures DaysUntilBirthday(OnDate(b), now) == Some(1)
  {
    var t := DayOf(now.date);
    var ms := now.msOfDay;
    CeilDays(1, ms);
    assert (t + 1) * MsPerDay - (t * MsPerDay + ms) == 1 * MsPerDay - ms;
  }

  /**
   * A 29 February birthday seen in a common year after it has "passed" counts to 1 March of
   * next year, because the rolled-over date is what moves a year: from 1 June 2023 that is
   * 274 days (1 March 2024), not 273 (29 February 2024).
   */
  lemma LeapDayBirthdayInCommonYear(b: Date, now: Now)
    requires b == CalDate(2000, 1, 29) && now == Instant(CalDate(2023, 5, 1), 0)
    ensures DaysUntilBirthday(OnDate(b), now) == Some(274)
  {
    assert RolledDate(2023, 1, 29) == CalDate(2023, 2, 1);
    DaysUntilInDays(b, now);
    YearStep(2023);
    assert DaysBeforeMonth(2023, 2) == 59 && DaysBeforeMonth(2023, 5) == 151 && DaysBeforeMonth(2024, 2) == 60;
  }
}
