/**
 * The `calendarData` values of src/Calendar.jsx: the length and first
 * weekday of the displayed month, the 24 hourly slots of the day view and
 * the seven dates of the week view.
 */
module CalendarMath {

  import opened Text
  import opened CivilCalendar
  import opened DateKeyCodec

  /**
   * `getDaysInMonth`: the day number of `new Date(year, month + 1, 0)`, the
   * length of month `month` of the full year (years 0 to 99 read as 19xx).
   */
  function DaysInMonth(year: int, month: int): (n: int)
    ensures n == MonthLength(FullYear(year) + month / 12, month % 12)
  {
    NewDateDayZero(year, month);
    NewDate(year, month + 1, 0).day
  }

  /** For the months the component asks about (0 to 11) this is the Gregorian month length of the full year. */
  lemma DaysInMonthInYear(year: int, month: int)
    requires 0 <= month < 12
    ensures DaysInMonth(year, month) == MonthLength(FullYear(year), month)
    ensures 28 <= DaysInMonth(year, month) <= 31
  {
    MonthFold(month);
  }

  /** February has 29 days in leap years and 28 otherwise, the year read as a full year. */
  lemma FebruaryLength(year: int)
    ensures DaysInMonth(year, 1) == if IsLeapYear(FullYear(year)) then 29 else 28
  {
    DaysInMonthInYear(year, 1);
  }

  /** `getDaysInMonth(0, 1)` measures February 1900, a common year, while year 2000 is a leap year. */
  lemma FebruaryOfYearZero()
    ensures DaysInMonth(0, 1) == 28
    ensures DaysInMonth(2000, 1) == 29
  {
    FebruaryLength(0);
    FebruaryLength(2000);
  }

  lemma LeapYearExamples()
    ensures IsLeapYear(2024) && !IsLeapYear(2023) && !IsLeapYear(1900) && IsLeapYear(2000)
  {
  }

  /** `getFirstDayOfMonth`: the weekday (0 = Sunday) of `new Date(year, month, 1)`, in the full year. */
  function FirstDayOfMonth(year: int, month: int): (w: int)
    ensures 0 <= w < 7
    ensures w == Weekday(Date(FullYear(year) + month / 12, month % 12, 1))
  {
    NewDateFirst(year, month);
    Weekday(NewDate(year, month, 1))
  }

  lemma NewDateFirst(y: int, m: int)
    ensures NewDate(y, m, 1) == Date(FullYear(y) + m / 12, m % 12, 1)
  {
    FromDaysToDays(Date(FullYear(y) + m / 12, m % 12, 1));
  }

  lemma FirstDayInYear(y: int, m: int)
    requires 0 <= m < 12
    ensures FirstDayOfMonth(y, m) == Weekday(Date(FullYear(y), m, 1))
  {
    MonthFold(m);
  }

  /** Day dt of a month falls (dt - 1) places round the week after the 1st. */
  lemma DayOfMonthWeekday(y: int, m: int, dt: int)
    requires ValidDate(Date(y, m, dt))
    ensures Weekday(Date(y, m, dt)) == (Weekday(Date(y, m, 1)) + (dt - 1)) % 7
  {
    var first, d := Date(y, m, 1), Date(y, m, dt);
    DayOfMonthOffset(y, m, dt);
    assert d == AddDays(first, dt - 1);
    WeekdayAddDays(first, dt - 1);
  }

  /** 1970-01-01 was a Thursday. */
  lemma EpochWeekday()
    ensures Weekday(Date(1970, 0, 1)) == 4
  {
  }

  /** January 1st falls on the weekday that ECMA-262's closed form predicts. */
  lemma NewYearWeekday(y: int)
    ensures Weekday(Date(y, 0, 1)) == (DayFromYear(y) + 4) % 7
  {
    YearStartIsDayFromYear(y);
  }

  /** 2024-01-01 was a Monday. */
  lemma NewYear2024Weekday()
    ensures (DayFromYear(2024) + 4) % 7 == 1
  {
  }

  /** One row of the day view's time column. */
  datatype TimeSlot = TimeSlot(hour: nat, time: string, time12: string)

  /**
   * Slot i is hour i, labelled `HH:00`, and its 12-hour label is what
   * `formatTo12Hour` makes of that label.
   */
  predicate SlotFor(slot: TimeSlot, i: nat) {
    && slot.hour == i
    && slot.time == TwoDigits(i) + ":00"
    && HasTwoDigitHour(slot.time) && HourOf(slot.time) == i
    && slot.time12 == FormatTo12Hour(slot.time)
  }

  /** The `timeSlots` loop: hours 0 to 23, each with its `HH:00` label and its 12-hour label. */
  method TimeSlots() returns (slots: seq<TimeSlot>)
    ensures |slots| == 24
    ensures forall i :: 0 <= i < 24 ==> SlotFor(slots[i], i)
  {
    slots := [];
    var hour := 0;
    while hour < 24
      invariant 0 <= hour <= 24 && |slots| == hour
      invariant forall i :: 0 <= i < hour ==> SlotFor(slots[i], i)
    {
      var hourStr := TwoDigits(hour);
      var time12 := NatToString(Hour12(hour)) + ":00 " + Meridiem(hour);
      SlotLabels(hour);
      slots := slots + [TimeSlot(hour, hourStr + ":00", time12)];
      hour := hour + 1;
    }
  }

  /** The `HH:00` label of hour h reads back as hour h with minutes `00`. */
  lemma SlotTime(h: nat)
    requires h < 100
    ensures HasTwoDigitHour(TwoDigits(h) + ":00") && HourOf(TwoDigits(h) + ":00") == h
    ensures MinutesOf(TwoDigits(h) + ":00") == "00"
  {
    var hh := TwoDigits(h);
    TwoDigitsShape(h);
    LabelParts(hh, hh + ":00");
    ZeroMinutes();
  }

  lemma LabelParts(hh: string, t: string)
    requires |hh| == 2 && AllDigits(hh) && t == hh + ":00"
    ensures HasTwoDigitHour(t) && t[..2] == hh && t[3..] == "00"
  {
    assert IsDigit(hh[0]) && IsDigit(hh[1]);
  }

  lemma ZeroMinutes()
    ensures TakeUntilColon("00") == "00"
  {
    assert "00"[1..] == "0" && "0"[1..] == [];
  }

  /** The slot builder's own 12-hour label agrees with `formatTo12Hour` of its `HH:00` label. */
  lemma SlotLabels(h: nat)
    requires h < 100
    ensures HasTwoDigitHour(TwoDigits(h) + ":00") && HourOf(TwoDigits(h) + ":00") == h
    ensures FormatTo12Hour(TwoDigits(h) + ":00") == NatToString(Hour12(h)) + ":00 " + Meridiem(h)
  {
    SlotTime(h);
    var h12, meridiem := NatToString(Hour12(h)), Meridiem(h);
    assert h12 + ":" + "00" + " " + meridiem == h12 + ":00 " + meridiem;
    FormatExample(TwoDigits(h) + ":00", h, h12, "00", h12 + ":00 " + meridiem);
  }

  /** The Sunday on or before the anchor, then the six days after it. */
  function WeekOf(anchor: Date): (days: seq<Date>)
    requires ValidDate(anchor)
    ensures |days| == 7 && forall i :: 0 <= i < 7 ==> ValidDate(days[i])
  {
    var w := Weekday(anchor);
    var days := seq(7, i => AddDays(anchor, i - w));
    assert forall i :: 0 <= i < 7 ==> days[i] == AddDays(anchor, i - w);
    days
  }

  /** Day i of the week of the anchor is a weekday-i date, i - Weekday(anchor) days from the anchor. */
  lemma WeekOfDay(anchor: Date, i: int)
    requires ValidDate(anchor) && 0 <= i < 7
    ensures Weekday(WeekOf(anchor)[i]) == i
    ensures ToDays(WeekOf(anchor)[i]) == ToDays(anchor) - Weekday(anchor) + i
  {
    var w := Weekday(anchor);
    assert WeekOf(anchor)[i] == AddDays(anchor, i - w);
    WeekdayAddDays(anchor, i - w);
    assert (w + (i - w)) % 7 == i;
    AddDaysCount(anchor, i - w);
  }

  /** The week runs Sunday to Saturday over consecutive days and contains the anchor, across month and year ends alike. */
  lemma WeekOfProperties(anchor: Date)
    requires ValidDate(anchor)
    ensures forall i :: 0 <= i < 7 ==> Weekday(WeekOf(anchor)[i]) == i
    ensures forall i :: 0 <= i < 6 ==> ToDays(WeekOf(anchor)[i + 1]) == ToDays(WeekOf(anchor)[i]) + 1
    ensures WeekOf(anchor)[Weekday(anchor)] == anchor
  {
    var week := WeekOf(anchor);
    forall i | 0 <= i < 7
      ensures Weekday(week[i]) == i
      ensures ToDays(week[i]) == ToDays(anchor) - Weekday(anchor) + i
    {
      WeekOfDay(anchor, i);
    }
    ToDaysInjective(week[Weekday(anchor)], anchor);
  }

  /** `new Date(d)` followed by `setDate(d.getDate() + k)`: exactly k days later. */
  method ShiftDate(d: Date, k: int) returns (r: Date)
    requires ValidDate(d)
    ensures r == AddDays(d, k)
  {
    r := SetDate(d, d.day + k);
    SetDateShift(d, k);
  }

  /** The `daysOfWeek` loop: `setDate(getDate() - getDay())`, then `setDate(start.getDate() + i)` for i in 0..6. */
  method DaysOfWeek(anchor: Date) returns (days: seq<Date>)
    requires ValidDate(anchor)
    ensures days == WeekOf(anchor)
    ensures forall i :: 0 <= i < 7 ==> Weekday(days[i]) == i
    ensures days[Weekday(anchor)] == anchor
  {
    var w := Weekday(anchor);
    var startOfWeek := ShiftDate(anchor, -w);
    days := [];
    var i := 0;
    while i < 7
      invariant 0 <= i <= 7 && |days| == i
      invariant forall j :: 0 <= j < i ==> days[j] == AddDays(anchor, j - w)
    {
      var currentDate := ShiftDate(startOfWeek, i);
      AddDaysCompose(anchor, -w, i);
      days := days + [currentDate];
      i := i + 1;
    }
    WeekOfProperties(anchor);
  }
}
