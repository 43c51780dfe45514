# Calendar core, modelled in Dafny

This project models the logic of the React month/week/day calendar in
`src/Calendar.jsx`. The component holds three pieces of state: the anchor
`date`, the current `view`, and the `selectedDate`. From the anchor it derives
the month's length, the weekday of the 1st, 24 hourly time slots, and the seven
dates of the Sunday-started week. It looks up the caller's events under a
`DD-MM-YYYY` key and projects them into three views:

- a month grid of blank and day cells, each showing at most two events and a "+N more" count;
- seven week columns, each showing at most four events;
- a day view of hourly slots, filtered by the two-digit hour prefix of each event's time.

Buttons and cell clicks move between states.

Dates are civil `(year, month0, day)` triples in the proleptic Gregorian
calendar, with `month0` counted from 0 as `getMonth()` counts it. They are
numbered in days from 1970-01-01, so that 1970-01-01 is a Thursday. Two
functions convert between a date and its day number, `ToDays` and `FromDays`,
and they are proved to be inverses.

JavaScript's `new Date(y, m, d)` is modelled after the Date constructor of
section 21.4.2.1 of ECMA-262. It first reads a year from 0 to 99 as 1900 plus
that year (the MakeFullYear step, `CivilCalendar.FullYear`). It then applies
MakeDay (section 21.4.1.28), which folds the month into the year and adds
`d - 1` days to the 1st (`CivilCalendar.Normalize`). So out-of-range days and
months roll over:

- day 0 is the last day of the previous month;
- January 31st plus one month is March 3rd (March 2nd in a leap year).

`setMonth` and `setDate` (sections 21.4.4.25 and 21.4.4.20) apply MakeDay to
the date's own year and do not reinterpret a two-digit year.

Modules:

- `Text` (text.dfy): `String(n)`, `padStart(2, '0')` and a parser that undoes them.
- `CivilCalendar` (civil_calendar.dfy): the day-number calendar and `Date` normalisation.
- `DateKeyCodec` (date_key_codec.dfy): `formatDateKey` and `formatTo12Hour`.
- `EventLookup` (event_lookup.dfy): `getEventsForDate`.
- `CalendarMath` (calendar_math.dfy): the `calendarData` values.
- `ViewProjection` (view_projection.dfy): the month, week and day projections.
- `Navigation` (navigation.dfy): the state and its transitions, as the class `Navigation.Calendar`.

Behaviour of the code that the model keeps as written:

- **Month steps roll over rather than clamp.** `setMonth` keeps the day of the month and rolls it over. So March 31st back one month is March 3rd in a common year, and forward again is April 3rd.
- **Day-view navigation does not move the shown day.** The day view and its title show `selectedDate`, but `prevPeriod` and `nextPeriod` move only `date`. So stepping in the day view leaves the shown day unchanged (`Navigation.Calendar.PrevPeriod`/`NextPeriod` keep `selectedDate`).
- **Two-digit years are read as 19xx only by the constructor.** `calendarData` and the month grid rebuild dates with `new Date(year, month, …)`, so for an anchor in a year from 0 to 99 the month length, the weekday of the 1st and the clicked day belong to year 1900 + year, while `setMonth` keeps the year as it is.
- **Clicks change only `selectedDate` and `view`.** A click on a month cell or week column sets `selectedDate` and switches to the day view. It does not move `date`.

## Model

| member | source | states |
|---|---|---|
| Text.TwoDigitsShape | src/Calendar.jsx:24-25 | `String(n).padStart(2, '0')` of a number below 100 is two digits that read back as the number |
| Text.PadStart2 | src/Calendar.jsx:24-25 | `padStart(2, '0')` keeps the text as its suffix and fills only with `0` up to length 2 |
| Text.IntToString | src/Calendar.jsx:26-27 | `String(year)` is non-empty and starts with `-` exactly for a negative year |
| Text.TwoDigitsInjective | src/Calendar.jsx:24-25 | distinct numbers below 100 get distinct two-digit texts |
| Text.ParseNatToString | src/Calendar.jsx:24-26 | the decimal text of a natural number reads back as that number |
| Text.ParseIntToString | src/Calendar.jsx:26-27 | `String(year)` of any integer year, negative ones included, reads back as the year |
| Text.FourDigitYear | src/Calendar.jsx:26-27 | a year from 1000 to 9999 is written with exactly four characters |
| CivilCalendar.YearStartIsDayFromYear | src/Calendar.jsx:99-100 | the day number of January 1st equals ECMA-262's closed form DayFromYear for every year |
| CivilCalendar.ToDaysInjective | src/Calendar.jsx:99-100 | distinct valid dates have distinct day numbers |
| CivilCalendar.FromDays | src/Calendar.jsx:99-100 | every day number, before or after 1970, is the day number of exactly one valid date |
| CivilCalendar.FromDaysToDays | src/Calendar.jsx:99-100 | reading a date's fields back from its day number gives the same date |
| CivilCalendar.ToDaysFromDays | src/Calendar.jsx:99-100 | the date of a day number has that day number |
| CivilCalendar.MakeDay | src/Calendar.jsx:139 | for a month 0-11, day dt of the month is dt - 1 days after the day number of the 1st |
| CivilCalendar.Normalize | src/Calendar.jsx:139 | MakeDay's day number for any integer fields is the day number of a valid date |
| CivilCalendar.FullYear | src/Calendar.jsx:139 | a year from 0 to 99 becomes 1900 plus it, every other year is kept; the result is never in 0..99 |
| CivilCalendar.FullYearIdempotent | src/Calendar.jsx:139 | reading a year as a full year twice is reading it once |
| CivilCalendar.NormalizeInRange | src/Calendar.jsx:139 | MakeDay with in-range fields gives back those fields |
| CivilCalendar.MakeDayOverflow | src/Calendar.jsx:55 | the day number of a day past the month's end is that of the excess day in the next month |
| CivilCalendar.MakeDayDayZero | src/Calendar.jsx:91 | day 0 of month m + 1 has the day number of the last day of month m, folded into the year |
| CivilCalendar.TwoDigitYear | src/Calendar.jsx:139 | `new Date(y, 0, 1)` for y in 0..99 is January 1st of 1900 + y, while `setMonth` on a date of year y keeps year y |
| CivilCalendar.Weekday | src/Calendar.jsx:96 | `getDay()` is between 0 (Sunday) and 6 |
| CivilCalendar.WeekdayAddDays | src/Calendar.jsx:116 | moving k days moves the weekday k places round the week |
| CivilCalendar.AddDaysCount | src/Calendar.jsx:119 | the date k days later has a day number k larger |
| CivilCalendar.AddDaysCompose | src/Calendar.jsx:116-119 | moving a days and then b days is moving a + b days |
| CivilCalendar.AddDaysInverse | src/Calendar.jsx:43-59 | moving k days and then -k days returns to the starting date |
| CivilCalendar.AddDays | src/Calendar.jsx:116-119 | the date k days from a valid date is a valid date |
| CivilCalendar.NewDate | src/Calendar.jsx:139 | `new Date(y, m, d)` is the valid date whose day number is MakeDay of the full year (1900 + y for y in 0..99), m and d |
| CivilCalendar.SetDate | src/Calendar.jsx:43-45 | `setDate` with any day number yields a valid date, the date shifted by the difference of day numbers |
| CivilCalendar.SetMonth | src/Calendar.jsx:41 | `setMonth` yields the valid date whose day number is MakeDay of the date's own year, the new month and the day; no two-digit year rule |
| CivilCalendar.NewDateInRange | src/Calendar.jsx:139 | `new Date(y, m, d)` with in-range fields is day d of month m of the full year, 1900 + y for years 0 to 99 |
| CivilCalendar.NormalizeOverflow | src/Calendar.jsx:55 | a day past the month's end rolls into the next month by the excess, not clamped |
| CivilCalendar.NewDateDayZero | src/Calendar.jsx:91 | `new Date(y, m + 1, 0)` is the last day of month m of the full year, with m folded into the year |
| CivilCalendar.NextMonthStart | src/Calendar.jsx:91 | the 1st of the next month lies exactly one month length after the 1st of this month |
| CivilCalendar.DayOfMonthOffset | src/Calendar.jsx:139 | day d of a month is d - 1 days after its 1st |
| CivilCalendar.SetDateIsMakeDay | src/Calendar.jsx:116-119 | the day-shift form of `setDate` equals MakeDay on the date's own year and month, with no two-digit year rule |
| CivilCalendar.SetDateShift | src/Calendar.jsx:116-119 | `setDate(getDate() + k)` moves exactly k days, across month and year ends |
| DateKeyCodec.ParseFormatDateKey | src/Calendar.jsx:23-28 | the `DD-MM-YYYY` key reads back as the date it was made from |
| DateKeyCodec.FormatDateKeyInjective | src/Calendar.jsx:23-28 | distinct dates never share a key |
| DateKeyCodec.FormatDateKeyShape | src/Calendar.jsx:23-28 | for four-digit years the key has 10 characters, dashes exactly at positions 2 and 5 and digits elsewhere |
| DateKeyCodec.TakeUntilColon | src/Calendar.jsx:72-76 | the first field of `split(':')` is a colon-free prefix ending at the first colon or the end |
| DateKeyCodec.HourOf | src/Calendar.jsx:72-73 | `parseInt` of a two-digit hour field is below 100 |
| DateKeyCodec.Hour12 | src/Calendar.jsx:75 | the hour modulo 12, or 12 when that is 0, is in 1..12 and agrees with the hour modulo 12 |
| DateKeyCodec.Hour12Table | src/Calendar.jsx:74-75 | hour 0 is 12 AM, hours 1-11 keep their number with AM, 12 is 12 PM, hours 13-23 lose 12 with PM; the result is in 1..12 |
| DateKeyCodec.FormatTo12Hour | src/Calendar.jsx:71-77 | for hours 00-23 the 12-hour text reads back as the same hour, with the minutes text copied unchanged |
| DateKeyCodec.MidnightExample | src/Calendar.jsx:71-77 | `"00:15"` becomes `"12:15 AM"` |
| DateKeyCodec.AfternoonExample | src/Calendar.jsx:71-77 | `"13:05"` becomes `"1:05 PM"` |
| DateKeyCodec.LastMinuteExample | src/Calendar.jsx:71-77 | `"23:59"` becomes `"11:59 PM"` |
| DateKeyCodec.NoonExample | src/Calendar.jsx:71-77 | `"12:00"` becomes `"12:00 PM"` |
| EventLookup.GetEventsForDate | src/Calendar.jsx:31-34 | the list stored under the date's key, or the empty list when the key is absent |
| EventLookup.LookupSeparatesDates | src/Calendar.jsx:31-34 | storing a list under one date's key changes what that date sees and no other date's lookup |
| CalendarMath.DaysInMonth | src/Calendar.jsx:90-92 | day 0 of the next month gives the Gregorian length of month m of the full year (1900 + y for years 0 to 99), folded into the year |
| CalendarMath.DaysInMonthInYear | src/Calendar.jsx:90-92 | for months 0-11 the result is the length of that month of the full year |
| CalendarMath.FebruaryLength | src/Calendar.jsx:90-92 | February has 29 days exactly when the full year is a leap year, and 28 otherwise |
| CalendarMath.LeapYearExamples | src/Calendar.jsx:90-92 | 2024 and 2000 are leap years, 2023 and 1900 are not |
| CalendarMath.FebruaryOfYearZero | src/Calendar.jsx:90-92 | February of year 0 has 28 days, because the constructor reads year 0 as 1900, while February 2000 has 29 |
| CalendarMath.NewDateFirst | src/Calendar.jsx:95-96 | `new Date(y, m, 1)` is the 1st of month m of the full year, with m folded into the year |
| CalendarMath.FirstDayOfMonth | src/Calendar.jsx:95-97 | the weekday of the 1st of month m of the full year, with m folded into the year |
| CalendarMath.FirstDayInYear | src/Calendar.jsx:95-97 | for months 0-11 it is the weekday of that month's 1st in the full year |
| CalendarMath.DayOfMonthWeekday | src/Calendar.jsx:95-97 | day d of a month falls d - 1 places round the week after the weekday of the 1st |
| CalendarMath.EpochWeekday | src/Calendar.jsx:96 | 1970-01-01 was a Thursday |
| CalendarMath.NewYearWeekday | src/Calendar.jsx:96 | January 1st of any year falls on the weekday given by ECMA-262's DayFromYear |
| CalendarMath.NewYear2024Weekday | src/Calendar.jsx:96 | 2024-01-01 was a Monday |
| CalendarMath.TimeSlots | src/Calendar.jsx:105-111 | exactly 24 slots in order; slot i has hour i, label `HH:00` reading back as i, and 12-hour label equal to `formatTo12Hour` of that label |
| CalendarMath.SlotTime | src/Calendar.jsx:107-110 | the `HH:00` label of an hour is well formed and reads back as that hour with minutes `00` |
| CalendarMath.LabelParts | src/Calendar.jsx:107-110 | an `HH:00` label made from two digits has those digits as its hour field and `00` as its minutes |
| CalendarMath.SlotLabels | src/Calendar.jsx:107-110 | the slot builder's own 12-hour text agrees with `formatTo12Hour` of its `HH:00` label |
| CalendarMath.WeekOf | src/Calendar.jsx:114-121 | the week is seven valid dates |
| CalendarMath.WeekOfDay | src/Calendar.jsx:114-121 | day i of the week has weekday i and lies i - weekday days from the anchor |
| CalendarMath.WeekOfProperties | src/Calendar.jsx:114-121 | the week runs Sunday to Saturday over consecutive days and holds the anchor at its weekday index |
| CalendarMath.ShiftDate | src/Calendar.jsx:118-119 | a copy moved by `setDate(getDate() + k)` is exactly k days later |
| CalendarMath.DaysOfWeek | src/Calendar.jsx:114-121 | the loop builds exactly the week of the anchor: weekday i at index i, the anchor at its weekday |
| ViewProjection.Visible | src/Calendar.jsx:142 | `slice(0, cap)` is the prefix of min(n, cap) events |
| ViewProjection.Remaining | src/Calendar.jsx:143 | the "+N more" count is positive exactly when there are more events than the cap |
| ViewProjection.CapPartition | src/Calendar.jsx:142-143 | the shown events followed by the hidden ones are the day's list, and shown plus N is the total |
| ViewProjection.CapExample | src/Calendar.jsx:142-143 | five events show as two and "+3 more" in the month view and as four and "+1 more" in the week view |
| ViewProjection.ProjectDay | src/Calendar.jsx:140-151 | a cell shows all of its date's events when there are at most cap of them, otherwise the first cap; shown plus N is the total; it is flagged today or selected exactly when its date equals that date |
| ViewProjection.SameDay | src/Calendar.jsx:145-151 | comparing `getDate()`, `getMonth()` and `getFullYear()` holds exactly when the two dates are equal |
| ViewProjection.MonthShape | src/Calendar.jsx:99-102 | the length of the anchor month and the weekday of its 1st, both in the full year of the anchor |
| ViewProjection.LeadingBlanks | src/Calendar.jsx:133-135 | the first loop pushes exactly n blank cells |
| ViewProjection.DayOfMonthCell | src/Calendar.jsx:138-151 | the cell for a day of the month is that day of the full year, projected with cap 2 |
| ViewProjection.DayCellsUpTo | src/Calendar.jsx:137-143 | the second loop's first n cells: exactly n of them |
| ViewProjection.DayCellsUpToAt | src/Calendar.jsx:137-143 | the k-th of those cells is the cell of day k + 1 of the month |
| ViewProjection.DayCellsUpToCells | src/Calendar.jsx:137-143 | every one of those cells is the cell of its day of the month |
| ViewProjection.DayCells | src/Calendar.jsx:137-143 | the second loop gives, in order, one cell for each day of the month of the full year |
| ViewProjection.GridOfParts | src/Calendar.jsx:133-143 | blanks followed by the month's day cells form the grid, the blank count being the first weekday |
| ViewProjection.FillGrid | src/Calendar.jsx:133-143 | the two loops give firstDay blanks, then one cell for each day 1..length of the month of the full year, in order |
| ViewProjection.NewDayOfMonth | src/Calendar.jsx:139 | `new Date(year, month, day)` for a day of the month is that day of the full year |
| ViewProjection.MonthGrid | src/Calendar.jsx:127-143 | the grid holds first-weekday blanks, then the days of the anchor's month in its full year, in order, each in the column of its weekday |
| ViewProjection.GridColumns | src/Calendar.jsx:133-139 | in such a grid every day cell's index modulo 7 is its date's weekday |
| ViewProjection.CellColumn | src/Calendar.jsx:133-139 | day k sits at grid index firstDay + k - 1, whose column is its weekday |
| ViewProjection.GridSelectsOne | src/Calendar.jsx:145-151 | distinct day cells hold distinct dates, so at most one is selected and at most one is today |
| ViewProjection.WeekColumns | src/Calendar.jsx:215-227 | seven columns, column i projecting day i of the anchor's week with cap 4 |
| ViewProjection.WeekColumnsProperties | src/Calendar.jsx:215-227 | columns run Sunday to Saturday, the anchor is in its weekday's column, and a column is selected exactly when the selected date is in the week at that weekday |
| ViewProjection.WeekColumnAt | src/Calendar.jsx:215-223 | column i holds a date of weekday i and is selected exactly when the selected date is in the week at weekday i |
| ViewProjection.SlotEvents | src/Calendar.jsx:293 | an event is in a slot exactly when it is one of the day's events and its time starts with the slot's two-digit hour |
| ViewProjection.StartsWith | src/Calendar.jsx:293 | `startsWith` holds exactly when the prefix is no longer than the text and agrees with it position by position |
| ViewProjection.SlotEventsAppend | src/Calendar.jsx:293 | the filter keeps the caller's order: filtering a concatenation concatenates the filtered parts |
| ViewProjection.HourPrefix | src/Calendar.jsx:293 | a time starts with hour h's label, for h below 24, exactly when its first two characters are digits reading h |
| ViewProjection.SlotMembership | src/Calendar.jsx:293 | slot h holds exactly the day's events whose first two characters read h |
| ViewProjection.EventInOneSlot | src/Calendar.jsx:292-293 | an `HH:MM` event with HH in 00-23 shows in exactly the slot of its hour; an event with no such prefix shows in no slot |
| ViewProjection.DayColumn | src/Calendar.jsx:276-293 | 24 slots; slot h holds exactly the selected date's events whose time starts with the two-digit text of h |
| Navigation.PrevMonth | src/Calendar.jsx:41 | the month before (y, m), whose next month is (y, m) again |
| Navigation.PrevDate | src/Calendar.jsx:37-49 | the date `prevPeriod` computes for each view is a valid date |
| Navigation.NextDate | src/Calendar.jsx:51-63 | the date `nextPeriod` computes for each view is a valid date |
| Navigation.StepIsDayCount | src/Calendar.jsx:42-59 | in the week and day views a step is exactly 7 or 1 days, forward or back |
| Navigation.NextStepDays | src/Calendar.jsx:56-59 | `nextPeriod` in the week or day view moves 7 or 1 days forward |
| Navigation.PrevStepDays | src/Calendar.jsx:42-45 | `prevPeriod` in the week or day view moves 7 or 1 days back |
| Navigation.StepInverse | src/Calendar.jsx:37-63 | in the week and day views previous and next undo each other |
| Navigation.MakeDayNextMonth | src/Calendar.jsx:55 | month + 1 is folded to the calendar month after the date's month |
| Navigation.MakeDayPrevMonth | src/Calendar.jsx:41 | month - 1 is folded to the calendar month before, December of the previous year for January |
| Navigation.MonthStepLanding | src/Calendar.jsx:41-55 | a month step lands on the same day when the target month has it, otherwise rolls on by the missing days |
| Navigation.NextMonthStep | src/Calendar.jsx:55 | `nextPeriod` in the month view gives the same day of the next month, or rolls the overflow into the month after |
| Navigation.PrevMonthStep | src/Calendar.jsx:41 | `prevPeriod` in the month view gives the same day of the previous month, or rolls the overflow back into the current month |
| Navigation.MonthStepRoundTrip | src/Calendar.jsx:37-63 | forward then back one month returns to the same date when the next month has its day |
| Navigation.JanuaryThirtyFirstRollsOver | src/Calendar.jsx:55 | January 31st plus one month is March 3rd, or March 2nd in a leap year |
| Navigation.MarchThirtyFirstBackAndForth | src/Calendar.jsx:37-63 | in a common year March 31st back a month is March 3rd and forward again April 3rd |
| Navigation.Calendar.constructor | src/Calendar.jsx:5-7 | the initial state has both dates equal to now and the month view |
| Navigation.Calendar.PrevPeriod | src/Calendar.jsx:37-49 | `date` becomes the previous period's date for the current view; `view` and `selectedDate` are unchanged |
| Navigation.Calendar.NextPeriod | src/Calendar.jsx:51-63 | `date` becomes the next period's date for the current view; `view` and `selectedDate` are unchanged |
| Navigation.Calendar.GoToToday | src/Calendar.jsx:65-68 | `date` and `selectedDate` become now; `view` is unchanged |
| Navigation.Calendar.SelectMonthDay | src/Calendar.jsx:157-160 | `selectedDate` becomes `new Date(year, month, day)`, which is that day of the full year for a day of the month; the view becomes day; `date` is unchanged |
| Navigation.Calendar.SelectWeekDay | src/Calendar.jsx:233-236 | clicking column i sets `selectedDate` to day i of the anchor's week, whose weekday is i, and the view to day; `date` is unchanged |
| Navigation.Calendar.SetView | src/Calendar.jsx:371-379 | only `view` changes |

## Left out

- The JSX, SVG icons, CSS class strings and DOM layout are left out. They are rendering only.
- `handleEventClick` and `window.open` are left out. They are a browser side effect with no result the core observes. An event's `link` is kept only as a field.
- Titles and weekday labels built with `toLocaleDateString` are left out, because they use Intl locale formatting.
- `useState`, `useMemo` and `useCallback` are left out. They only cache values, and the derived values are modelled as functions and methods of their inputs.
- The clock reads (`new Date()`) are not modelled. "Now" and "today" are parameters instead, of the constructor, `GoToToday`, `ProjectDay`, `MonthGrid` and `WeekColumns`.
- Time of day, time zones and daylight saving are not modelled. Dates are civil days, and the `isToday`/`isSelected` tests compare exactly day, month and year.
- The JavaScript `Date` range limit (±8.64e15 ms) is not modelled. Years are unbounded integers.
- DateKeyCodec.FormatTo12Hour requires a time whose first two characters are digits followed by `:`. The `NaN` result of `parseInt` on other hour fields is not modelled.
- The `default` branch of the view switch is not modelled, because `View` has only three values and the branch cannot be reached.
- `vite.config.js` is left out. It is build configuration with no logic.
