/**
 * Civil dates of the proleptic Gregorian calendar as JavaScript's `Date`
 * reports them (getFullYear, getMonth counted from 0, getDate), a day number
 * counted from 1970-01-01 (the ECMAScript epoch) with its inverse, and the
 * day-of-month and month overflow of `new Date(y, m, d)`, `setDate` and
 * `setMonth` (sections 21.4.1.28, 21.4.4.20 and 21.4.4.25 of ECMA-262).
 */
module CivilCalendar {

  datatype Date = Date(year: int, month0: int, day: int)

  predicate IsLeapYear(y: int) {
    y % 4 == 0 && (y % 100 != 0 || y % 400 == 0)
  }

  function DaysInYear(y: int): int {
    if IsLeapYear(y) then 366 else 365
  }

  /** Length of month m (0 = January) of year y. */
  function MonthLength(y: int, m: int): int
    requires 0 <= m < 12
  {
    if m == 1 then (if IsLeapYear(y) then 29 else 28)
    else if m == 3 || m == 5 || m == 8 || m == 10 then 30
    else 31
  }

  predicate ValidDate(d: Date) {
    0 <= d.month0 < 12 && 1 <= d.day <= MonthLength(d.year, d.month0)
  }

  /** Days of year y that lie in the months before month m. */
  function DaysBeforeMonth(y: int, m: int): int
    requires 0 <= m <= 12
    decreases m
  {
    if m == 0 then 0 else DaysBeforeMonth(y, m - 1) + MonthLength(y, m - 1)
  }

  lemma DaysBeforeYearEnd(y: int)
    ensures DaysBeforeMonth(y, 12) == DaysInYear(y)
  {
    assert DaysBeforeMonth(y, 2) == 31 + MonthLength(y, 1);
    assert DaysBeforeMonth(y, 7) == DaysBeforeMonth(y, 2) + 153;
    assert DaysBeforeMonth(y, 12) == DaysBeforeMonth(y, 7) + 153;
  }

  lemma {:induction false} DaysBeforeMonthMonotone(y: int, a: int, b: int)
    requires 0 <= a < b <= 12
    ensures DaysBeforeMonth(y, a) + MonthLength(y, a) <= DaysBeforeMonth(y, b)
    decreases b - a
  {
    if a + 1 < b {
      DaysBeforeMonthMonotone(y, a + 1, b);
    }
  }

  /** Day number of January 1st of year y; 1970-01-01 is day 0. */
  function YearStart(y: int): int
    decreases if y < 1970 then 1970 - y else y - 1970
  {
    if y == 1970 then 0
    else if y > 1970 then YearStart(y - 1) + DaysInYear(y - 1)
    else YearStart(y + 1) - DaysInYear(y)
  }

  lemma YearStartStep(y: int)
    ensures YearStart(y + 1) == YearStart(y) + DaysInYear(y)
  {
  }

  lemma {:induction false} YearStartMonotone(a: int, b: int)
    requires a < b
    ensures YearStart(a + 1) <= YearStart(b)
    decreases b - a
  {
    if a + 1 < b {
      YearStartMonotone(a + 1, b);
      YearStartStep(a + 1);
    }
  }

  /** ECMA-262's closed form DayFromYear (section 21.4.1.3). */
  function DayFromYear(y: int): int {
    365 * (y - 1970) + (y - 1969) / 4 - (y - 1901) / 100 + (y - 1601) / 400
  }

  /** Going from year y - 1 to y, each floor term of DayFromYear steps up exactly when its divisor divides y. */
  lemma FloorStep4(y: int)
    ensures (y - 1968) / 4 - (y - 1969) / 4 == if y % 4 == 0 then 1 else 0
  {
    var q := y / 4;
    assert y - 1968 == 4 * (q - 492) + y % 4;
  }

  lemma FloorStep100(y: int)
    ensures (y - 1900) / 100 - (y - 1901) / 100 == if y % 100 == 0 then 1 else 0
  {
    var q := y / 100;
    assert y - 1900 == 100 * (q - 19) + y % 100;
  }

  lemma FloorStep400(y: int)
    ensures (y - 1600) / 400 - (y - 1601) / 400 == if y % 400 == 0 then 1 else 0
  {
    var q := y / 400;
    assert y - 1600 == 400 * (q - 4) + y % 400;
  }

  lemma DayFromYearStep(y: int)
    ensures DayFromYear(y + 1) == DayFromYear(y) + DaysInYear(y)
  {
    var a4, b4 := (y - 1968) / 4, (y - 1969) / 4;
    var a100, b100 := (y - 1900) / 100, (y - 1901) / 100;
    var a400, b400 := (y - 1600) / 400, (y - 1601) / 400;
    assert DayFromYear(y + 1) == 365 * (y - 1969) + a4 - a100 + a400;
    assert DayFromYear(y) == 365 * (y - 1970) + b4 - b100 + b400;
    FloorStep4(y);
    FloorStep100(y);
    FloorStep400(y);
    LeapCount(y);
  }

  /** The leap rule as the three divisibility counts of DayFromYear. */
  lemma LeapCount(y: int)
    ensures DaysInYear(y) == 365 + (if y % 4 == 0 then 1 else 0) - (if y % 100 == 0 then 1 else 0) + (if y % 400 == 0 then 1 else 0)
  {
    if y % 400 == 0 {
      var k := y / 400;
      assert y == 100 * (4 * k);
      assert y == 4 * (100 * k);
    } else if y % 100 == 0 {
      var k := y / 100;
      assert y == 4 * (25 * k);
    }
  }

  /** The recursive year table agrees with the standard's closed form. */
  lemma {:induction false} YearStartIsDayFromYear(y: int)
    ensures YearStart(y) == DayFromYear(y)
    decreases if y < 1970 then 1970 - y else y - 1970
  {
    if y > 1970 {
      YearStartIsDayFromYear(y - 1);
      DayFromYearStep(y - 1);
    } else if y < 1970 {
      YearStartIsDayFromYear(y + 1);
      DayFromYearStep(y);
    }
  }

  /** Day number of a civil date (ECMA-262's MakeDay for an in-range date). */
  function ToDays(d: Date): int
    requires ValidDate(d)
  {
    YearStart(d.year) + DaysBeforeMonth(d.year, d.month0) + d.day - 1
  }

  function YearSearchUp(n: int, y: int): (r: int)
    requires YearStart(y) <= n
    ensures YearStart(r) <= n < YearStart(r + 1)
    decreases n - YearStart(y)
  {
    YearStartStep(y);
    if n < YearStart(y + 1) then y else YearSearchUp(n, y + 1)
  }

  function YearSearchDown(n: int, y: int): (r: int)
    requires n < YearStart(y + 1)
    ensures YearStart(r) <= n < YearStart(r + 1)
    decreases YearStart(y + 1) - n
  {
    YearStartStep(y);
    if YearStart(y) <= n then y else YearSearchDown(n, y - 1)
  }

  /** The year that contains day number n. */
  function YearOf(n: int): (r: int)
    ensures YearStart(r) <= n < YearStart(r + 1)
  {
    if n >= 0 then YearSearchUp(n, 1970) else YearSearchDown(n, 1969)
  }

  lemma YearOfUnique(n: int, y: int)
    requires YearStart(y) <= n < YearStart(y + 1)
    ensures YearOf(n) == y
  {
    var r := YearOf(n);
    if r < y {
      YearStartMonotone(r, y);
    } else if y < r {
      YearStartMonotone(y, r);
    }
  }

  /** The month of year y that holds day r of that year (counted from 0). */
  function MonthSearch(y: int, r: int, m: int): (k: int)
    requires 0 <= m < 12 && DaysBeforeMonth(y, m) <= r < DaysBeforeMonth(y, 12)
    ensures m <= k < 12 && DaysBeforeMonth(y, k) <= r < DaysBeforeMonth(y, k + 1)
    decreases 12 - m
  {
    if r < DaysBeforeMonth(y, m + 1) then m else MonthSearch(y, r, m + 1)
  }

  lemma MonthSearchUnique(y: int, r: int, m: int)
    requires 0 <= m < 12 && DaysBeforeMonth(y, m) <= r < DaysBeforeMonth(y, m + 1)
    ensures MonthSearch(y, r, 0) == m
  {
    DaysBeforeMonthMonotone(y, m, 12);
    var k := MonthSearch(y, r, 0);
    if k < m {
      DaysBeforeMonthMonotone(y, k, m);
    } else if m < k {
      DaysBeforeMonthMonotone(y, m, k);
    }
  }

  /** The civil date of day number n, found by searching years and then months (ECMA-262's YearFromTime, MonthFromTime, DateFromTime). */
  function DateSearch(n: int): (d: Date)
    ensures ValidDate(d) && ToDays(d) == n
  {
    var y := YearOf(n);
    var r := n - YearStart(y);
    YearStartStep(y);
    DaysBeforeYearEnd(y);
    var m := MonthSearch(y, r, 0);
    Date(y, m, r - DaysBeforeMonth(y, m) + 1)
  }

  /** The year holding a valid date's day number is that date's year. */
  lemma ToDaysInYear(d: Date)
    requires ValidDate(d)
    ensures YearStart(d.year) <= ToDays(d) < YearStart(d.year + 1)
    ensures DaysBeforeMonth(d.year, d.month0) <= ToDays(d) - YearStart(d.year) < DaysBeforeMonth(d.year, d.month0 + 1)
  {
    YearStartStep(d.year);
    DaysBeforeYearEnd(d.year);
    DaysBeforeMonthMonotone(d.year, d.month0, 12);
  }

  /** Distinct valid dates have distinct day numbers. */
  lemma ToDaysInjective(a: Date, b: Date)
    requires ValidDate(a) && ValidDate(b) && ToDays(a) == ToDays(b)
    ensures a == b
  {
    ToDaysInYear(a);
    ToDaysInYear(b);
    var n := ToDays(a);
    YearOfUnique(n, a.year);
    YearOfUnique(n, b.year);
    var r := n - YearStart(a.year);
    MonthSearchUnique(a.year, r, a.month0);
    MonthSearchUnique(a.year, r, b.month0);
  }

  lemma DayNumbersUnique()
    ensures forall a, b :: ValidDate(a) && ValidDate(b) && ToDays(a) == ToDays(b) ==> a == b
  {
    forall a, b | ValidDate(a) && ValidDate(b) && ToDays(a) == ToDays(b) ensures a == b {
      ToDaysInjective(a, b);
    }
  }

  /** The one valid date whose day number is n (civil-from-days). */
  function FromDays(n: int): (d: Date)
    ensures ValidDate(d) && ToDays(d) == n
  {
    assert ValidDate(DateSearch(n)) && ToDays(DateSearch(n)) == n;
    DayNumbersUnique();
    var d :| ValidDate(d) && ToDays(d) == n; d
  }

  lemma ToDaysFromDays(n: int)
    ensures ToDays(FromDays(n)) == n
  {
  }

  lemma FromDaysToDays(d: Date)
    requires ValidDate(d)
    ensures FromDays(ToDays(d)) == d
  {
    ToDaysInjective(FromDays(ToDays(d)), d);
  }

  /** Day of the week, 0 = Sunday (ECMA-262's WeekDay: 1970-01-01 was a Thursday). */
  function Weekday(d: Date): (w: int)
    requires ValidDate(d)
    ensures 0 <= w < 7
  {
    (ToDays(d) + 4) % 7
  }

  /** The date k days after d (k may be negative). */
  function AddDays(d: Date, k: int): (r: Date)
    requires ValidDate(d)
    ensures ValidDate(r)
  {
    FromDays(ToDays(d) + k)
  }

  lemma AddDaysCount(d: Date, k: int)
    requires ValidDate(d)
    ensures ToDays(AddDays(d, k)) == ToDays(d) + k
  {
    ToDaysFromDays(ToDays(d) + k);
  }

  lemma WeekdayOfAddDays(d: Date, k: int)
    requires ValidDate(d)
    ensures Weekday(AddDays(d, k)) == (ToDays(d) + 4 + k) % 7
  {
    ToDaysFromDays(ToDays(d) + k);
  }

  /** Moving k days moves the weekday k places round the week. */
  lemma WeekdayAddDays(d: Date, k: int)
    requires ValidDate(d)
    ensures Weekday(AddDays(d, k)) == (Weekday(d) + k) % 7
  {
    var a, w, w' := ToDays(d) + 4, Weekday(d), Weekday(AddDays(d, k));
    WeekdayOfAddDays(d, k);
    assert w == a % 7 && w' == (a + k) % 7;
    WeekdayShift(a, k, w, w');
  }

  lemma WeekdayShift(a: int, k: int, w: int, w': int)
    requires w == a % 7 && w' == (a + k) % 7
    ensures w' == (w + k) % 7
  {
    var q := a / 7;
    assert a == 7 * q + a % 7;
    assert a + k == 7 * q + (a % 7 + k);
  }

  lemma AddDaysCompose(d: Date, a: int, b: int)
    requires ValidDate(d)
    ensures AddDays(AddDays(d, a), b) == AddDays(d, a + b)
  {
    AddDaysCount(d, a);
  }

  lemma AddDaysInverse(d: Date, k: int)
    requires ValidDate(d)
    ensures AddDays(AddDays(d, k), -k) == d
  {
    AddDaysCompose(d, k, -k);
    FromDaysToDays(d);
  }

  /**
   * ECMA-262's MakeDay(y, m, dt): the month is first folded into the year,
   * then dt - 1 days are added to the 1st; for a month 0 to 11 nothing is
   * folded and the result is the year's start plus the days before the month.
   */
  function MakeDay(y: int, m: int, dt: int): (n: int)
    ensures 0 <= m < 12 ==> n == YearStart(y) + DaysBeforeMonth(y, m) + dt - 1
  {
    ToDays(Date(y + m / 12, m % 12, 1)) + dt - 1
  }

  /** The civil date that MakeDay(y, m, dt) numbers, out-of-range months and days rolled over. */
  function Normalize(y: int, m: int, dt: int): (r: Date)
    ensures ValidDate(r) && ToDays(r) == MakeDay(y, m, dt)
  {
    FromDays(MakeDay(y, m, dt))
  }

  /**
   * The MakeFullYear step of the Date constructor (section 21.4.2.1 of
   * ECMA-262): a year from 0 to 99 stands for 1900 to 1999, any other year
   * is kept, so the result is never a two-digit year.
   */
  function FullYear(y: int): (r: int)
    ensures r == y || (0 <= y <= 99 && r == 1900 + y)
    ensures !(0 <= r <= 99)
  {
    if 0 <= y <= 99 then 1900 + y else y
  }

  /** Reading a year as a full year twice changes nothing more. */
  lemma FullYearIdempotent(y: int)
    ensures FullYear(FullYear(y)) == FullYear(y)
  {
  }

  /**
   * `new Date(y, m, dt)` with several arguments: the year is read with
   * MakeFullYear, then out-of-range months and days roll over.
   */
  function NewDate(y: int, m: int, dt: int): (r: Date)
    ensures ValidDate(r) && ToDays(r) == MakeDay(FullYear(y), m, dt)
  {
    Normalize(FullYear(y), m, dt)
  }

  /**
   * `d.setDate(dt)`: the date dt - d.day days from d, which keeps the year
   * and month and lets dt overflow either way (SetDateIsMakeDay).
   */
  function SetDate(d: Date, dt: int): (r: Date)
    requires ValidDate(d)
    ensures ValidDate(r)
  {
    AddDays(d, dt - d.day)
  }

  /**
   * `d.setMonth(m)` (section 21.4.4.25 of ECMA-262): MakeDay on the stored
   * year, the new month and the day of the month, so both may overflow; unlike
   * the constructor it does not reinterpret a two-digit year.
   */
  function SetMonth(d: Date, m: int): (r: Date)
    ensures ValidDate(r) && ToDays(r) == MakeDay(d.year, m, d.day)
  {
    Normalize(d.year, m, d.day)
  }

  /** An in-range month index is left alone by MakeDay's folding. */
  lemma MonthFold(m: int)
    requires 0 <= m < 12
    ensures m / 12 == 0 && m % 12 == m
  {
  }

  /** The month after (y, m). */
  function NextMonth(y: int, m: int): (r: (int, int))
    requires 0 <= m < 12
    ensures 0 <= r.1 < 12
  {
    if m == 11 then (y + 1, 0) else (y, m + 1)
  }

  /** Month index arithmetic of MakeDay: month m + 1 lands in the month after the folded month m. */
  lemma FoldSuccessor(y: int, m: int)
    ensures (y + (m + 1) / 12, (m + 1) % 12) == NextMonth(y + m / 12, m % 12)
  {
  }

  /** The 1st of the next month is MonthLength days after the 1st of this one. */
  lemma NextMonthStart(y: int, m: int)
    requires 0 <= m < 12
    ensures ToDays(Date(NextMonth(y, m).0, NextMonth(y, m).1, 1)) == ToDays(Date(y, m, 1)) + MonthLength(y, m)
  {
    if m == 11 {
      DaysBeforeYearEnd(y);
      YearStartStep(y);
    }
  }

  /** A date whose fields are in range is normalised to itself. */
  lemma NormalizeInRange(y: int, m: int, dt: int)
    requires ValidDate(Date(y, m, dt))
    ensures Normalize(y, m, dt) == Date(y, m, dt)
  {
    FromDaysToDays(Date(y, m, dt));
  }

  /**
   * `new Date(y, m, dt)` with an in-range month and day is day dt of month m
   * of the full year: years 0 to 99 land in 1900 to 1999.
   */
  lemma NewDateInRange(y: int, m: int, dt: int)
    requires ValidDate(Date(FullYear(y), m, dt))
    ensures NewDate(y, m, dt) == Date(FullYear(y), m, dt)
  {
    NormalizeInRange(FullYear(y), m, dt);
  }

  /**
   * `new Date(50, 0, 1)` is 1950-01-01, while `setMonth` on a date that
   * already lies in year 50 keeps it there.
   */
  lemma TwoDigitYear(y: int)
    requires 0 <= y <= 99
    ensures NewDate(y, 0, 1) == Date(1900 + y, 0, 1)
    ensures SetMonth(Date(y, 0, 1), 0) == Date(y, 0, 1)
  {
    var fy := FullYear(y);
    assert fy == 1900 + y;
    assert ValidDate(Date(fy, 0, 1));
    NewDateInRange(y, 0, 1);
    assert ValidDate(Date(y, 0, 1));
    NormalizeInRange(y, 0, 1);
  }

  lemma MakeDayOverflow(y: int, m: int, dt: int)
    requires 0 <= m < 12
    requires MonthLength(y, m) < dt <= MonthLength(y, m) + MonthLength(NextMonth(y, m).0, NextMonth(y, m).1)
    ensures MakeDay(y, m, dt) == ToDays(Date(NextMonth(y, m).0, NextMonth(y, m).1, dt - MonthLength(y, m)))
  {
    NextMonthStart(y, m);
  }

  /** A day past the end of the month rolls into the next month (no clamping). */
  lemma NormalizeOverflow(y: int, m: int, dt: int)
    requires 0 <= m < 12
    requires MonthLength(y, m) < dt <= MonthLength(y, m) + MonthLength(NextMonth(y, m).0, NextMonth(y, m).1)
    ensures Normalize(y, m, dt) == Date(NextMonth(y, m).0, NextMonth(y, m).1, dt - MonthLength(y, m))
  {
    MakeDayOverflow(y, m, dt);
    FromDaysToDays(Date(NextMonth(y, m).0, NextMonth(y, m).1, dt - MonthLength(y, m)));
  }

  lemma MakeDayDayZero(y: int, m: int)
    ensures MakeDay(y, m + 1, 0) == ToDays(Date(y + m / 12, m % 12, MonthLength(y + m / 12, m % 12)))
  {
    FoldSuccessor(y, m);
    NextMonthStart(y + m / 12, m % 12);
  }

  /**
   * `new Date(y, m + 1, 0)`: day 0 of a month is the last day of the month
   * before it, month m of the full year with m folded into the year.
   */
  lemma NewDateDayZero(y: int, m: int)
    ensures var fy := FullYear(y);
      NewDate(y, m + 1, 0) == Date(fy + m / 12, m % 12, MonthLength(fy + m / 12, m % 12))
  {
    var fy := FullYear(y);
    MakeDayDayZero(fy, m);
    FromDaysToDays(Date(fy + m / 12, m % 12, MonthLength(fy + m / 12, m % 12)));
  }

  /** Day dt of a month is dt - 1 days after its 1st. */
  lemma DayOfMonthOffset(y: int, m: int, dt: int)
    requires ValidDate(Date(y, m, dt))
    ensures Date(y, m, dt) == AddDays(Date(y, m, 1), dt - 1)
  {
    assert ToDays(Date(y, m, dt)) == ToDays(Date(y, m, 1)) + dt - 1;
    FromDaysToDays(Date(y, m, dt));
  }

  /** SetDate is section 21.4.4.20 of ECMA-262: MakeDay on the date's own year and month with the new day. */
  lemma SetDateIsMakeDay(d: Date, dt: int)
    requires ValidDate(d)
    ensures SetDate(d, dt) == Normalize(d.year, d.month0, dt)
  {
  }

  /** `setDate(getDate() + k)` moves exactly k days. */
  lemma SetDateShift(d: Date, k: int)
    requires ValidDate(d)
    ensures SetDate(d, d.day + k) == AddDays(d, k)
  {
    assert d.day + k - d.day == k;
  }
}
