/**
 * The state of src/Calendar.jsx — the anchor `date`, the current `view` and
 * the `selectedDate` — and the transitions the buttons and cell clicks
 * make on it.
 */
module Navigation {

  import opened CivilCalendar
  import opened CalendarMath

  /** The `view` state: `'month'`, `'week'` or `'day'`. */
  datatype View = Month | Week | Day

  /** The month before (y, m). */
  function PrevMonth(y: int, m: int): (r: (int, int))
    requires 0 <= m < 12
    ensures 0 <= r.1 < 12
    ensures NextMonth(r.0, r.1) == (y, m)
  {
    if m == 0 then (y - 1, 11) else (y, m - 1)
  }

  /** `prevDate.setMonth(prevDate.getMonth() - 1)`, `setDate(getDate() - 7)` or `setDate(getDate() - 1)`. */
  function PrevDate(d: Date, v: View): (r: Date)
    requires ValidDate(d)
    ensures ValidDate(r)
  {
    match v
    case Month => SetMonth(d, d.month0 - 1)
    case Week => SetDate(d, d.day - 7)
    case Day => SetDate(d, d.day - 1)
  }

  /** `prevDate.setMonth(prevDate.getMonth() + 1)`, `setDate(getDate() + 7)` or `setDate(getDate() + 1)`. */
  function NextDate(d: Date, v: View): (r: Date)
    requires ValidDate(d)
    ensures ValidDate(r)
  {
    match v
    case Month => SetMonth(d, d.month0 + 1)
    case Week => SetDate(d, d.day + 7)
    case Day => SetDate(d, d.day + 1)
  }

  /** The number of days a week or day step moves. */
  function StepDays(v: View): int
    requires v != Month
  {
    if v == Week then 7 else 1
  }

  /** In the week and day views a step moves by exactly 7 or 1 days, across month and year ends alike. */
  lemma StepIsDayCount(d: Date, v: View)
    requires ValidDate(d) && v != Month
    ensures NextDate(d, v) == AddDays(d, StepDays(v))
    ensures PrevDate(d, v) == AddDays(d, -StepDays(v))
  {
    NextStepDays(d, v);
    PrevStepDays(d, v);
  }

  lemma NextStepDays(d: Date, v: View)
    requires ValidDate(d) && v != Month
    ensures NextDate(d, v) == AddDays(d, StepDays(v))
  {
    if v == Week {
      SetDateShift(d, 7);
    } else {
      SetDateShift(d, 1);
    }
  }

  lemma PrevStepDays(d: Date, v: View)
    requires ValidDate(d) && v != Month
    ensures PrevDate(d, v) == AddDays(d, -StepDays(v))
  {
    var k := -StepDays(v);
    var dt := d.day + k;
    assert PrevDate(d, v) == SetDate(d, dt);
    SetDateShift(d, k);
  }

  /** In the week and day views, previous and next undo each other. */
  lemma StepInverse(d: Date, v: View)
    requires ValidDate(d) && v != Month
    ensures PrevDate(NextDate(d, v), v) == d
    ensures NextDate(PrevDate(d, v), v) == d
  {
    StepIsDayCount(d, v);
    StepIsDayCount(NextDate(d, v), v);
    StepIsDayCount(PrevDate(d, v), v);
    AddDaysInverse(d, StepDays(v));
    AddDaysInverse(d, -StepDays(v));
  }

  /** Month m + 1 of year y is folded to the month after (y, m). */
  lemma MakeDayNextMonth(y: int, m: int, dt: int)
    requires 0 <= m < 12
    ensures MakeDay(y, m + 1, dt) == MakeDay(NextMonth(y, m).0, NextMonth(y, m).1, dt)
  {
    FoldSuccessor(y, m);
    MonthFold(m);
    MonthFold(NextMonth(y, m).1);
  }

  /** Month m - 1 of year y is folded to the month before (y, m). */
  lemma MakeDayPrevMonth(y: int, m: int, dt: int)
    requires 0 <= m < 12
    ensures MakeDay(y, m - 1, dt) == MakeDay(PrevMonth(y, m).0, PrevMonth(y, m).1, dt)
  {
    if m == 0 {
      assert (m - 1) / 12 == -1 && (m - 1) % 12 == 11;
    } else {
      MonthFold(m - 1);
    }
  }

  /**
   * Where a month step from `d` to the month (ty, tm) lands: on the same day
   * of the month when the target month has it, otherwise rolled over into
   * the month after the target by the days it lacks (no clamping to the
   * month's end).
   */
  lemma MonthStepLanding(d: Date, ty: int, tm: int, r: Date)
    requires ValidDate(d) && 0 <= tm < 12
    requires r == Normalize(ty, tm, d.day)
    ensures d.day <= MonthLength(ty, tm) ==> r == Date(ty, tm, d.day)
    ensures d.day > MonthLength(ty, tm) ==>
      r == Date(NextMonth(ty, tm).0, NextMonth(ty, tm).1, d.day - MonthLength(ty, tm))
  {
    if d.day <= MonthLength(ty, tm) {
      NormalizeInRange(ty, tm, d.day);
    } else {
      NormalizeOverflow(ty, tm, d.day);
    }
  }

  /** `nextPeriod` in the month view: the same day of the next month, or the overflow rolled on. */
  lemma NextMonthStep(d: Date)
    requires ValidDate(d)
    ensures var (ny, nm) := NextMonth(d.year, d.month0);
      && (d.day <= MonthLength(ny, nm) ==> NextDate(d, Month) == Date(ny, nm, d.day))
      && (d.day > MonthLength(ny, nm) ==>
          NextDate(d, Month) == Date(NextMonth(ny, nm).0, NextMonth(ny, nm).1, d.day - MonthLength(ny, nm)))
  {
    var (ny, nm) := NextMonth(d.year, d.month0);
    MakeDayNextMonth(d.year, d.month0, d.day);
    MonthStepLanding(d, ny, nm, NextDate(d, Month));
  }

  /** `prevPeriod` in the month view: the same day of the previous month, or the overflow rolled back into this month. */
  lemma PrevMonthStep(d: Date)
    requires ValidDate(d)
    ensures var (py, pm) := PrevMonth(d.year, d.month0);
      && (d.day <= MonthLength(py, pm) ==> PrevDate(d, Month) == Date(py, pm, d.day))
      && (d.day > MonthLength(py, pm) ==> PrevDate(d, Month) == Date(d.year, d.month0, d.day - MonthLength(py, pm)))
  {
    var (py, pm) := PrevMonth(d.year, d.month0);
    MakeDayPrevMonth(d.year, d.month0, d.day);
    MonthStepLanding(d, py, pm, PrevDate(d, Month));
  }

  /** A month step forward and back returns to the same date when the next month has that day. */
  lemma MonthStepRoundTrip(d: Date)
    requires ValidDate(d)
    requires d.day <= MonthLength(NextMonth(d.year, d.month0).0, NextMonth(d.year, d.month0).1)
    ensures PrevDate(NextDate(d, Month), Month) == d
  {
    NextMonthStep(d);
    var n := NextDate(d, Month);
    PrevMonthStep(n);
  }

  /** January 31st plus one month is March 3rd in a common year and March 2nd in a leap year. */
  lemma JanuaryThirtyFirstRollsOver(y: int)
    ensures NextDate(Date(y, 0, 31), Month) == Date(y, 2, if IsLeapYear(y) then 2 else 3)
  {
    NextMonthStep(Date(y, 0, 31));
  }

  /**
   * In a common year, March 31st back one month is March 3rd, and forward
   * again April 3rd: month steps are not inverses once a day overflows.
   */
  lemma MarchThirtyFirstBackAndForth(y: int)
    requires !IsLeapYear(y)
    ensures PrevDate(Date(y, 2, 31), Month) == Date(y, 2, 3)
    ensures NextDate(Date(y, 2, 3), Month) == Date(y, 3, 3)
  {
    PrevMonthStep(Date(y, 2, 31));
    NextMonthStep(Date(y, 2, 3));
  }

  /** The component's state: `date`, `view` and `selectedDate`. */
  class Calendar {
    var date: Date
    var view: View
    var selectedDate: Date

    ghost predicate Valid()
      reads this
    {
      ValidDate(date) && ValidDate(selectedDate)
    }

    /** The initial state: both dates are `now` and the view is the month view. */
    constructor(now: Date)
      requires ValidDate(now)
      ensures Valid()
      ensures date == now && view == Month && selectedDate == now
    {
      date := now;
      view := Month;
      selectedDate := now;
    }

    /** `prevPeriod`: only `date` moves, by the current view's step. */
    method PrevPeriod()
      requires Valid()
      modifies this
      ensures Valid()
      ensures date == PrevDate(old(date), old(view))
      ensures view == old(view) && selectedDate == old(selectedDate)
    {
      var newDate := date;
      match view {
        case Month => newDate := SetMonth(date, date.month0 - 1);
        case Week => newDate := SetDate(date, date.day - 7);
        case Day => newDate := SetDate(date, date.day - 1);
      }
      date := newDate;
    }

    /** `nextPeriod`: only `date` moves, by the current view's step. */
    method NextPeriod()
      requires Valid()
      modifies this
      ensures Valid()
      ensures date == NextDate(old(date), old(view))
      ensures view == old(view) && selectedDate == old(selectedDate)
    {
      var newDate := date;
      match view {
        case Month => newDate := SetMonth(date, date.month0 + 1);
        case Week => newDate := SetDate(date, date.day + 7);
        case Day => newDate := SetDate(date, date.day + 1);
      }
      date := newDate;
    }

    /** `goToToday`: both dates become `now`; the view stays. */
    method GoToToday(now: Date)
      requires Valid() && ValidDate(now)
      modifies this
      ensures Valid()
      ensures date == now && selectedDate == now && view == old(view)
    {
      date := now;
      selectedDate := now;
    }

    /**
     * A click on day `day` of the month grid: select `new Date(year, month, day)`
     * and open the day view. For a day of the month this is that day of the
     * anchor's month in the full year, so a click in year 0 to 99 selects a
     * date of 1900 to 1999, the date the grid cell shows.
     */
    method SelectMonthDay(day: int)
      requires Valid()
      modifies this
      ensures Valid()
      ensures selectedDate == NewDate(old(date).year, old(date).month0, day)
      ensures var fy := FullYear(old(date).year);
        1 <= day <= MonthLength(fy, old(date).month0) ==> selectedDate == Date(fy, old(date).month0, day)
      ensures view == Day && date == old(date)
    {
      selectedDate := NewDate(date.year, date.month0, day);
      var fy := FullYear(date.year);
      if 1 <= day <= MonthLength(fy, date.month0) {
        NewDateInRange(date.year, date.month0, day);
      }
      view := Day;
    }

    /**
     * A click on column `i` of the week view: select a copy of that column's
     * date, the day of the anchor's week with weekday i, and open the day view.
     */
    method SelectWeekDay(i: nat)
      requires Valid() && i < 7
      modifies this
      ensures Valid()
      ensures selectedDate == WeekOf(old(date))[i] && Weekday(selectedDate) == i
      ensures view == Day && date == old(date)
    {
      var daysOfWeek := DaysOfWeek(date);
      selectedDate := daysOfWeek[i];
      view := Day;
    }

    /** The Day, Week and Month buttons: only the view changes. */
    method SetView(v: View)
      requires Valid()
      modifies this
      ensures Valid()
      ensures view == v && date == old(date) && selectedDate == old(selectedDate)
    {
      view := v;
    }
  }
}
