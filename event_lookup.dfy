/** The caller's event map and `getEventsForDate` (src/Calendar.jsx). */
module EventLookup {

  import opened Wrappers
  import opened CivilCalendar
  import opened DateKeyCodec

  /** One entry of the caller's list: `{ time, event, link }`. */
  datatype EventRecord = EventRecord(time: string, title: string, link: Option<string>)

  /** The `events` prop: `DD-MM-YYYY` key to the events of that day, in the caller's order. */
  type EventMap = map<string, seq<EventRecord>>

  /** `events[formatDateKey(date)] || []`. */
  function GetEventsForDate(events: EventMap, d: Date): (r: seq<EventRecord>)
    requires ValidDate(d)
    ensures FormatDateKey(d) in events ==> r == events[FormatDateKey(d)]
    ensures FormatDateKey(d) !in events ==> r == []
  {
    var key := FormatDateKey(d);
    if key in events then events[key] else []
  }

  /**
   * Each date reads its own entry: storing a list under one date's key
   * makes that date see exactly that list and leaves every other date's
   * lookup as it was.
   */
  lemma LookupSeparatesDates(events: EventMap, a: Date, b: Date, evs: seq<EventRecord>)
    requires ValidDate(a) && ValidDate(b)
    ensures GetEventsForDate(events[FormatDateKey(a) := evs], a) == evs
    ensures a != b ==> GetEventsForDate(events[FormatDateKey(a) := evs], b) == GetEventsForDate(events, b)
  {
    if a != b {
      FormatDateKeyInjective(a, b);
    }
  }
}
