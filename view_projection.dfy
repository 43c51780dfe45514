/**
 * What the three views of src/Calendar.jsx show: the month grid with its
 * leading blank cells and two-event cap, the seven week columns with their
 * four-event cap, and the day view's hourly slots filtered by hour prefix.
 */
module ViewProjection {

  import opened Text
  import opened CivilCalendar
  import opened DateKeyCodec
  import opened EventLookup
  import opened CalendarMath

  /** Events a month cell shows before "+N more". */
  const MonthCap: nat := 2

  /** Events a week column shows before "+N more". */
  const WeekCap: nat := 4

  /** `dayEvents.slice(0, cap)`: the first events of the day, in the caller's order. */
  function Visible(evs: seq<EventRecord>, cap: nat): (r: seq<EventRecord>)
    ensures |r| == if |evs| <= cap then |evs| else cap
    ensures r == evs[..|r|]
  {
    if |evs| <= cap then evs else evs[..cap]
  }

  /** `dayEvents.length > cap ? dayEvents.length - cap : 0`. */
  function Remaining(evs: seq<EventRecord>, cap: nat): (n: nat)
    ensures n > 0 <==> |evs| > cap
  {
    if |evs| > cap then |evs| - cap else 0
  }

  /**
   * The shown events and the "+N more" count account for every event of the
   * day exactly once: the shown ones are a prefix and N counts the rest.
   */
  lemma CapPartition(evs: seq<EventRecord>, cap: nat)
    ensures Visible(evs, cap) + evs[|Visible(evs, cap)|..] == evs
    ensures |Visible(evs, cap)| + Remaining(evs, cap) == |evs|
    ensures |Visible(evs, cap)| <= cap
  {
  }

  /** With five events a month cell shows two and "+3 more", a week column four and "+1 more". */
  lemma CapExample(evs: seq<EventRecord>)
    requires |evs| == 5
    ensures Visible(evs, MonthCap) == evs[..2] && Remaining(evs, MonthCap) == 3
    ensures Visible(evs, WeekCap) == evs[..4] && Remaining(evs, WeekCap) == 1
  {
  }

  /** One day as a month cell or week column shows it. */
  datatype DayCell = DayCell(date: Date, shown: seq<EventRecord>, more: nat, isToday: bool, isSelected: bool)

  /**
   * The `getDate`/`getMonth`/`getFullYear` comparison of the `isToday` and
   * `isSelected` tests.
   */
  predicate SameDay(a: Date, b: Date): (r: bool)
    ensures r <==> a == b
  {
    a.day == b.day && a.month0 == b.month0 && a.year == b.year
  }

  /** The cell of one date: its events capped at `cap`, and whether it is today and the selected date. */
  function ProjectDay(d: Date, cap: nat, events: EventMap, selected: Date, today: Date): (c: DayCell)
    requires ValidDate(d)
    ensures c.date == d
    ensures |GetEventsForDate(events, d)| <= cap ==> c.shown == GetEventsForDate(events, d) && c.more == 0
    ensures |GetEventsForDate(events, d)| > cap ==> |c.shown| == cap
    ensures |c.shown| + c.more == |GetEventsForDate(events, d)|
    ensures c.shown == GetEventsForDate(events, d)[..|c.shown|]
    ensures c.isToday <==> d == today
    ensures c.isSelected <==> d == selected
  {
    var evs := GetEventsForDate(events, d);
    CapPartition(evs, cap);
    DayCell(d, Visible(evs, cap), Remaining(evs, cap), SameDay(d, today), SameDay(d, selected))
  }

  /** A cell of the month grid: a blank before the 1st, or day `day` of the month. */
  datatype MonthCell = Blank | Filled(day: nat, cell: DayCell)

  /** A filled cell for day `k` of the month, showing that date with the month cap. */
  predicate IsDayOfMonthCell(c: MonthCell, year: int, month: int, k: int, events: EventMap, selected: Date, today: Date) {
    && c.Filled? && c.day == k && ValidDate(Date(year, month, k))
    && c.cell == ProjectDay(Date(year, month, k), MonthCap, events, selected, today)
  }

  /**
   * The shape of the month grid: `firstDay` blanks, then day 1 to the last
   * day of the month in order.
   */
  predicate GridLayout(cells: seq<MonthCell>, year: int, month: int, firstDay: nat, events: EventMap, selected: Date, today: Date)
    requires 0 <= month < 12
  {
    && |cells| == firstDay + MonthLength(year, month)
    && (forall i :: 0 <= i < firstDay && i < |cells| ==> cells[i] == Blank)
    && (forall i :: firstDay <= i < |cells| ==> IsDayOfMonthCell(cells[i], year, month, i - firstDay + 1, events, selected, today))
  }

  /**
   * Lines 99-102 of `calendarData`: the month's length and the weekday of
   * its 1st, both of the full year (a two-digit year is read as 19xx).
   */
  method MonthShape(year: int, month: int) returns (daysInMonth: nat, firstDay: nat)
    requires 0 <= month < 12
    ensures daysInMonth == MonthLength(FullYear(year), month)
    ensures firstDay < 7 && firstDay == Weekday(Date(FullYear(year), month, 1))
  {
    daysInMonth := DaysInMonth(year, month);
    DaysInMonthInYear(year, month);
    firstDay := FirstDayOfMonth(year, month);
    FirstDayInYear(year, month);
  }

  /**
   * The `renderMonthView` loops: `firstDay` blank cells, then one cell per
   * day of the anchor's month, so that every cell stands in the column of
   * its weekday. The cells are built with `new Date(year, month, day)`, so an
   * anchor in years 0 to 99 shows the same month of 1900 to 1999.
   */
  method MonthGrid(anchor: Date, events: EventMap, selected: Date, today: Date) returns (cells: seq<MonthCell>)
    requires ValidDate(anchor)
    ensures var fy := FullYear(anchor.year);
      GridLayout(cells, fy, anchor.month0, Weekday(Date(fy, anchor.month0, 1)), events, selected, today)
    ensures forall i :: 0 <= i < |cells| && cells[i].Filled? ==> ValidDate(cells[i].cell.date) && Weekday(cells[i].cell.date) == i % 7
  {
    var year, month := anchor.year, anchor.month0;
    var daysInMonth, firstDay := MonthShape(year, month);
    cells := FillGrid(year, month, firstDay, daysInMonth, events, selected, today);
    GridColumns(cells, FullYear(year), month, firstDay, events, selected, today);
  }

  /** Every filled cell of a grid laid out from the month's first weekday stands in its weekday's column. */
  lemma GridColumns(cells: seq<MonthCell>, year: int, month: int, firstDay: nat, events: EventMap, selected: Date, today: Date)
    requires 0 <= month < 12 && firstDay == Weekday(Date(year, month, 1))
    requires GridLayout(cells, year, month, firstDay, events, selected, today)
    ensures forall i :: 0 <= i < |cells| && cells[i].Filled? ==> ValidDate(cells[i].cell.date) && Weekday(cells[i].cell.date) == i % 7
  {
    forall i | 0 <= i < |cells| && cells[i].Filled?
      ensures ValidDate(cells[i].cell.date) && Weekday(cells[i].cell.date) == i % 7
    {
      assert IsDayOfMonthCell(cells[i], year, month, i - firstDay + 1, events, selected, today);
      CellColumn(cells[i], year, month, firstDay, i);
    }
  }

  /** Day k of the month sits in grid position firstDay + k - 1, whose column is its weekday. */
  lemma CellColumn(c: MonthCell, year: int, month: int, firstDay: int, i: int)
    requires 0 <= month < 12 && firstDay == Weekday(Date(year, month, 1))
    requires c.Filled? && c.cell.date == Date(year, month, i - firstDay + 1) && ValidDate(c.cell.date)
    ensures ValidDate(c.cell.date) && Weekday(c.cell.date) == i % 7
  {
    var k := i - firstDay + 1;
    DayOfMonthWeekday(year, month, k);
    assert (firstDay + (k - 1)) % 7 == i % 7;
  }

  /**
   * The two loops of `renderMonthView`, given the month's first weekday and
   * length: the cells hold the dates of the full year.
   */
  method FillGrid(year: int, month: int, firstDay: nat, daysInMonth: nat, events: EventMap, selected: Date, today: Date)
    returns (cells: seq<MonthCell>)
    requires 0 <= month < 12 && daysInMonth == MonthLength(FullYear(year), month)
    ensures GridLayout(cells, FullYear(year), month, firstDay, events, selected, today)
  {
    var blanks := LeadingBlanks(firstDay);
    var dayCells := DayCells(year, month, daysInMonth, events, selected, today);
    cells := blanks + dayCells;
    GridOfParts(blanks, dayCells, FullYear(year), month, events, selected, today);
  }

  /** The first loop of `renderMonthView`: `n` empty cells. */
  method LeadingBlanks(n: nat) returns (cells: seq<MonthCell>)
    ensures |cells| == n && forall j :: 0 <= j < n ==> cells[j] == Blank
  {
    cells := [];
    var i := 0;
    while i < n
      invariant 0 <= i <= n && |cells| == i
      invariant forall j :: 0 <= j < i ==> cells[j] == Blank
    {
      cells := cells + [Blank];
      i := i + 1;
    }
  }

  /** Blanks followed by the cells of every day of the month make the grid. */
  lemma GridOfParts(blanks: seq<MonthCell>, dayCells: seq<MonthCell>, year: int, month: int, events: EventMap, selected: Date, today: Date)
    requires 0 <= month < 12 && |dayCells| == MonthLength(year, month)
    requires forall j :: 0 <= j < |blanks| ==> blanks[j] == Blank
    requires forall k :: 0 <= k < |dayCells| ==> IsDayOfMonthCell(dayCells[k], year, month, k + 1, events, selected, today)
    ensures GridLayout(blanks + dayCells, year, month, |blanks|, events, selected, today)
  {
    var cells := blanks + dayCells;
    forall j | |blanks| <= j < |cells|
      ensures IsDayOfMonthCell(cells[j], year, month, j - |blanks| + 1, events, selected, today)
    {
      var k := j - |blanks|;
      assert cells[j] == dayCells[k];
    }
  }

  /** The cells of days 1 to n of a month, in order. */
  function DayCellsUpTo(year: int, month: int, n: nat, events: EventMap, selected: Date, today: Date): (cells: seq<MonthCell>)
    requires 0 <= month < 12 && n <= MonthLength(year, month)
    ensures |cells| == n
    decreases n
  {
    if n == 0 then []
    else DayCellsUpTo(year, month, n - 1, events, selected, today) + [Filled(n, ProjectDay(Date(year, month, n), MonthCap, events, selected, today))]
  }

  /** Cell k of DayCellsUpTo is the cell of day k + 1. */
  lemma {:induction false} DayCellsUpToAt(year: int, month: int, n: nat, k: nat, events: EventMap, selected: Date, today: Date)
    requires 0 <= month < 12 && k < n <= MonthLength(year, month)
    ensures IsDayOfMonthCell(DayCellsUpTo(year, month, n, events, selected, today)[k], year, month, k + 1, events, selected, today)
    decreases n
  {
    var cells := DayCellsUpTo(year, month, n, events, selected, today);
    var prev := DayCellsUpTo(year, month, n - 1, events, selected, today);
    assert cells == prev + [Filled(n, ProjectDay(Date(year, month, n), MonthCap, events, selected, today))];
    if k < n - 1 {
      assert cells[k] == prev[k];
      DayCellsUpToAt(year, month, n - 1, k, events, selected, today);
    }
  }

  lemma DayCellsUpToCells(year: int, month: int, n: nat, events: EventMap, selected: Date, today: Date)
    requires 0 <= month < 12 && n <= MonthLength(year, month)
    ensures forall k :: 0 <= k < n ==>
      IsDayOfMonthCell(DayCellsUpTo(year, month, n, events, selected, today)[k], year, month, k + 1, events, selected, today)
  {
    forall k | 0 <= k < n
      ensures IsDayOfMonthCell(DayCellsUpTo(year, month, n, events, selected, today)[k], year, month, k + 1, events, selected, today)
    {
      DayCellsUpToAt(year, month, n, k, events, selected, today);
    }
  }

  /** The day loop of `renderMonthView`: the cells of days 1 to `daysInMonth`, in order. */
  method DayCells(year: int, month: int, daysInMonth: nat, events: EventMap, selected: Date, today: Date)
    returns (cells: seq<MonthCell>)
    requires 0 <= month < 12 && daysInMonth == MonthLength(FullYear(year), month)
    ensures cells == DayCellsUpTo(FullYear(year), month, daysInMonth, events, selected, today)
    ensures forall k :: 0 <= k < |cells| ==> IsDayOfMonthCell(cells[k], FullYear(year), month, k + 1, events, selected, today)
  {
    ghost var fy := FullYear(year);
    cells := [];
    var day := 1;
    while day <= daysInMonth
      invariant 1 <= day <= daysInMonth + 1
      invariant cells == DayCellsUpTo(fy, month, day - 1, events, selected, today)
    {
      var cell := DayOfMonthCell(year, month, day, events, selected, today);
      cells := cells + [cell];
      day := day + 1;
    }
    DayCellsUpToCells(fy, month, daysInMonth, events, selected, today);
  }

  /** The body of the day loop: the cell of `new Date(year, month, day)` with its capped events. */
  method DayOfMonthCell(year: int, month: int, day: nat, events: EventMap, selected: Date, today: Date) returns (c: MonthCell)
    requires ValidDate(Date(FullYear(year), month, day))
    ensures IsDayOfMonthCell(c, FullYear(year), month, day, events, selected, today)
  {
    var currentDate := NewDayOfMonth(year, month, day);
    var cell := ProjectDay(currentDate, MonthCap, events, selected, today);
    c := Filled(day, cell);
  }

  /** `new Date(year, month, day)` for a day inside the month of the full year: no rollover happens. */
  method NewDayOfMonth(year: int, month: int, day: int) returns (d: Date)
    requires ValidDate(Date(FullYear(year), month, day))
    ensures d == Date(FullYear(year), month, day)
  {
    d := NewDate(year, month, day);
    NewDateInRange(year, month, day);
  }

  /** Distinct cells of the grid hold distinct dates, so at most one is selected and at most one is today. */
  lemma GridSelectsOne(cells: seq<MonthCell>, year: int, month: int, firstDay: nat, events: EventMap, selected: Date, today: Date)
    requires 0 <= month < 12
    requires GridLayout(cells, year, month, firstDay, events, selected, today)
    ensures forall i, j :: 0 <= i < j < |cells| && cells[i].Filled? && cells[j].Filled? ==>
      cells[i].cell.date != cells[j].cell.date
    ensures forall i, j :: 0 <= i < j < |cells| && cells[i].Filled? && cells[j].Filled? ==>
      !(cells[i].cell.isSelected && cells[j].cell.isSelected) && !(cells[i].cell.isToday && cells[j].cell.isToday)
  {
    forall i, j | 0 <= i < j < |cells| && cells[i].Filled? && cells[j].Filled?
      ensures cells[i].cell.date != cells[j].cell.date
    {
      assert IsDayOfMonthCell(cells[i], year, month, i - firstDay + 1, events, selected, today);
      assert IsDayOfMonthCell(cells[j], year, month, j - firstDay + 1, events, selected, today);
    }
  }

  /** The `daysOfWeek.map` of `renderWeekView`: one column per date of the anchor's week. */
  function WeekColumns(anchor: Date, events: EventMap, selected: Date, today: Date): (cols: seq<DayCell>)
    requires ValidDate(anchor)
    ensures |cols| == 7
    ensures forall i :: 0 <= i < 7 ==> cols[i] == ProjectDay(WeekOf(anchor)[i], WeekCap, events, selected, today)
  {
    var week := WeekOf(anchor);
    seq(7, i requires 0 <= i < 7 => ProjectDay(week[i], WeekCap, events, selected, today))
  }

  /**
   * The columns run Sunday to Saturday, the anchor's own column is its
   * weekday, and the selected date is highlighted in exactly its weekday's
   * column when it falls in the week, and in none otherwise.
   */
  lemma WeekColumnsProperties(anchor: Date, events: EventMap, selected: Date, today: Date)
    requires ValidDate(anchor)
    ensures forall i :: 0 <= i < 7 ==> Weekday(WeekColumns(anchor, events, selected, today)[i].date) == i
    ensures WeekColumns(anchor, events, selected, today)[Weekday(anchor)].date == anchor
    ensures forall i :: 0 <= i < 7 ==>
      (WeekColumns(anchor, events, selected, today)[i].isSelected <==> selected in WeekOf(anchor) && ValidDate(selected) && i == Weekday(selected))
  {
    var cols := WeekColumns(anchor, events, selected, today);
    forall i | 0 <= i < 7
      ensures Weekday(cols[i].date) == i
      ensures cols[i].isSelected <==> selected in WeekOf(anchor) && ValidDate(selected) && i == Weekday(selected)
    {
      WeekColumnAt(anchor, events, selected, today, i);
    }
    WeekOfProperties(anchor);
  }

  /** Column i holds the weekday-i date of the week and is selected exactly when that date is the selected one. */
  lemma WeekColumnAt(anchor: Date, events: EventMap, selected: Date, today: Date, i: int)
    requires ValidDate(anchor) && 0 <= i < 7
    ensures Weekday(WeekColumns(anchor, events, selected, today)[i].date) == i
    ensures WeekColumns(anchor, events, selected, today)[i].isSelected <==>
      selected in WeekOf(anchor) && ValidDate(selected) && i == Weekday(selected)
  {
    var week := WeekOf(anchor);
    var c := WeekColumns(anchor, events, selected, today)[i];
    assert c.date == week[i] && (c.isSelected <==> week[i] == selected);
    WeekOfProperties(anchor);
    if selected in week {
      var j :| 0 <= j < 7 && week[j] == selected;
      assert Weekday(selected) == j;
    }
  }

  /** `s.startsWith(p)`: p fits in s and agrees with it character by character. */
  predicate StartsWith(s: string, p: string): (r: bool)
    ensures r <==> |p| <= |s| && forall i :: 0 <= i < |p| ==> s[i] == p[i]
  {
    |p| <= |s| && s[..|p|] == p
  }

  /** The day view's `eventsForDay.filter(...)` for one slot: the events whose time starts with the slot's two-digit hour. */
  function SlotEvents(evs: seq<EventRecord>, hour: nat): (r: seq<EventRecord>)
    ensures |r| <= |evs|
    ensures forall e :: e in r <==> e in evs && StartsWith(e.time, TwoDigits(hour))
  {
    if evs == [] then []
    else (if StartsWith(evs[0].time, TwoDigits(hour)) then [evs[0]] else []) + SlotEvents(evs[1..], hour)
  }

  /** The filter keeps the caller's order: filtering a concatenation filters each part in turn. */
  lemma {:induction false} SlotEventsAppend(a: seq<EventRecord>, b: seq<EventRecord>, hour: nat)
    ensures SlotEvents(a + b, hour) == SlotEvents(a, hour) + SlotEvents(b, hour)
  {
    if a == [] {
      assert a + b == b;
    } else {
      assert (a + b)[1..] == a[1..] + b;
      SlotEventsAppend(a[1..], b, hour);
    }
  }

  /** Two two-digit texts with the same value are the same text. */
  lemma TwoDigitTextUnique(a: string, b: string)
    requires |a| == 2 && |b| == 2 && AllDigits(a) && AllDigits(b)
    requires ParseNat(a) == ParseNat(b)
    ensures a == b
  {
    DigitPair(a);
    DigitPair(b);
    assert DigitValue(a[0]) == DigitValue(b[0]);
  }

  /**
   * A time text starts with the two-digit label of an hour below 24 exactly
   * when its first two characters are digits that read as that hour.
   */
  lemma HourPrefix(t: string, hour: nat)
    requires hour < 24
    ensures StartsWith(t, TwoDigits(hour)) <==> |t| >= 2 && AllDigits(t[..2]) && ParseNat(t[..2]) == hour
  {
    TwoDigitsShape(hour);
    if |t| >= 2 && AllDigits(t[..2]) && ParseNat(t[..2]) == hour {
      TwoDigitTextUnique(t[..2], TwoDigits(hour));
    }
  }

  /** The events of the day view's slot for `hour`, for hours 0 to 23, are those whose time reads as that hour. */
  lemma SlotMembership(evs: seq<EventRecord>, hour: nat, e: EventRecord)
    requires hour < 24
    ensures e in SlotEvents(evs, hour) <==> e in evs && |e.time| >= 2 && AllDigits(e.time[..2]) && ParseNat(e.time[..2]) == hour
  {
    HourPrefix(e.time, hour);
  }

  /**
   * An `HH:MM` event with HH between 00 and 23 shows in exactly one slot,
   * that of its hour; an event whose time does not open with such an hour
   * shows in none.
   */
  lemma EventInOneSlot(evs: seq<EventRecord>, e: EventRecord)
    requires e in evs
    ensures HasTwoDigitHour(e.time) && HourOf(e.time) < 24 ==>
      forall h :: 0 <= h < 24 ==> (e in SlotEvents(evs, h) <==> h == HourOf(e.time))
    ensures !(|e.time| >= 2 && AllDigits(e.time[..2]) && ParseNat(e.time[..2]) < 24) ==>
      forall h :: 0 <= h < 24 ==> e !in SlotEvents(evs, h)
  {
    forall h | 0 <= h < 24
      ensures e in SlotEvents(evs, h) <==> |e.time| >= 2 && AllDigits(e.time[..2]) && ParseNat(e.time[..2]) == h
    {
      SlotMembership(evs, h, e);
    }
    if HasTwoDigitHour(e.time) {
      assert AllDigits(e.time[..2]);
    }
  }

  /**
   * The day view's events column: one filtered list per slot of `timeSlots`,
   * for the selected date; slot h holds exactly the day's events whose time
   * starts with h's two-digit label, in the caller's order (SlotEventsAppend).
   */
  function DayColumn(events: EventMap, selected: Date): (slots: seq<seq<EventRecord>>)
    requires ValidDate(selected)
    ensures |slots| == 24
    ensures forall h, e :: 0 <= h < 24 ==>
      (e in slots[h] <==> e in GetEventsForDate(events, selected) && StartsWith(e.time, TwoDigits(h)))
  {
    var evs := GetEventsForDate(events, selected);
    seq(24, h requires 0 <= h < 24 => SlotEvents(evs, h))
  }
}
