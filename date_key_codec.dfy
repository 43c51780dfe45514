/**
 * The event-map key of a date (`formatDateKey`, src/Calendar.jsx) and the
 * 24-hour to 12-hour clock text conversion (`formatTo12Hour`).
 */
module DateKeyCodec {

  import opened Wrappers
  import opened Text
  import opened CivilCalendar

  /** `DD-MM-YYYY`: zero-padded day, zero-padded month counted from 1, then the year as `String(year)`. */
  function FormatDateKey(d: Date): string
    requires ValidDate(d)
  {
    TwoDigits(d.day) + "-" + TwoDigits(d.month0 + 1) + "-" + IntToString(d.year)
  }

  /** Reads a key back into a date; None when the text is not shaped like a key. */
  function ParseDateKey(k: string): (r: Option<Date>)
    ensures r.Some? ==> |k| >= 7 && k[2] == '-' && k[5] == '-'
  {
    if |k| >= 7 && k[2] == '-' && k[5] == '-' && AllDigits(k[..2]) && AllDigits(k[3..5]) then
      match ParseInt(k[6..])
      case Some(y) => Some(Date(y, ParseNat(k[3..5]) - 1, ParseNat(k[..2])))
      case None => None
    else None
  }

  lemma ParseKeyParts(dd: string, mm: string, yy: string)
    requires |dd| == 2 && |mm| == 2 && AllDigits(dd) && AllDigits(mm) && ParseInt(yy).Some?
    ensures ParseDateKey(dd + "-" + mm + "-" + yy) == Some(Date(ParseInt(yy).value, ParseNat(mm) - 1, ParseNat(dd)))
  {
    var k := dd + "-" + mm + "-" + yy;
    assert k[..2] == dd && k[3..5] == mm && k[6..] == yy;
  }

  lemma ParseFormatDateKey(d: Date)
    requires ValidDate(d)
    ensures ParseDateKey(FormatDateKey(d)) == Some(d)
  {
    TwoDigitsShape(d.day);
    TwoDigitsShape(d.month0 + 1);
    ParseIntToString(d.year);
    ParseKeyParts(TwoDigits(d.day), TwoDigits(d.month0 + 1), IntToString(d.year));
  }

  /** Distinct dates never share a key. */
  lemma FormatDateKeyInjective(a: Date, b: Date)
    requires ValidDate(a) && ValidDate(b) && a != b
    ensures FormatDateKey(a) != FormatDateKey(b)
  {
    ParseFormatDateKey(a);
    ParseFormatDateKey(b);
  }

  /** For a four-digit year the key is ten characters, `DD-MM-YYYY`, all digits but the two dashes. */
  lemma FormatDateKeyShape(d: Date)
    requires ValidDate(d) && 1000 <= d.year <= 9999
    ensures |FormatDateKey(d)| == 10
    ensures forall i :: 0 <= i < 10 ==> (FormatDateKey(d)[i] == '-' <==> i == 2 || i == 5)
    ensures forall i :: 0 <= i < 10 && i != 2 && i != 5 ==> IsDigit(FormatDateKey(d)[i])
  {
    TwoDigitsShape(d.day);
    TwoDigitsShape(d.month0 + 1);
    FourDigitYear(d.year);
  }

  /** The text before the first `:` (the first field of `split(':')`). */
  function TakeUntilColon(s: string): (r: string)
    ensures |r| <= |s| && r == s[..|r|]
    ensures forall i :: 0 <= i < |r| ==> r[i] != ':'
    ensures |r| < |s| ==> s[|r|] == ':'
  {
    if s == [] || s[0] == ':' then [] else [s[0]] + TakeUntilColon(s[1..])
  }

  /** A time text with a two-digit hour field: `HH:` followed by the minutes. */
  predicate HasTwoDigitHour(t: string) {
    |t| >= 3 && IsDigit(t[0]) && IsDigit(t[1]) && t[2] == ':'
  }

  /** `parseInt(timeStr.split(':')[0], 10)`: a two-digit field reads below 100. */
  function HourOf(t: string): (h: nat)
    requires HasTwoDigitHour(t)
    ensures h < 100
  {
    DigitPair(t[..2]);
    ParseNat(t[..2])
  }

  /** `timeStr.split(':')[1]`. */
  function MinutesOf(t: string): string
    requires HasTwoDigitHour(t)
  {
    TakeUntilColon(t[3..])
  }

  /** `hour % 12 || 12`: the clock face hour, 1 to 12, congruent to the hour modulo 12. */
  function Hour12(h: nat): (r: nat)
    ensures 1 <= r <= 12 && r % 12 == h % 12
  {
    if h % 12 == 0 then 12 else h % 12
  }

  /** `hour >= 12 ? 'PM' : 'AM'`. */
  function Meridiem(h: nat): string {
    if h >= 12 then "PM" else "AM"
  }

  /**
   * `formatTo12Hour`. For hours 00 to 23 the 12-hour text loses nothing: it
   * reads back as the same hour, with the minutes text copied unchanged.
   */
  function FormatTo12Hour(t: string): (r: string)
    requires HasTwoDigitHour(t)
    ensures HourOf(t) < 24 ==> Parse12Hour(r) == Some((HourOf(t), MinutesOf(t)))
  {
    var h := HourOf(t);
    TwelveHourText(h, MinutesOf(t));
    NatToString(Hour12(h)) + ":" + MinutesOf(t) + " " + Meridiem(h)
  }

  /** The clock rule hour by hour: midnight is 12 AM, noon 12 PM, afternoon hours lose 12. */
  lemma Hour12Table(h: nat)
    requires h < 24
    ensures 1 <= Hour12(h) <= 12
    ensures h == 0 ==> Hour12(h) == 12 && Meridiem(h) == "AM"
    ensures 1 <= h <= 11 ==> Hour12(h) == h && Meridiem(h) == "AM"
    ensures h == 12 ==> Hour12(h) == 12 && Meridiem(h) == "PM"
    ensures 13 <= h ==> Hour12(h) == h - 12 && Meridiem(h) == "PM"
  {
  }

  /** The 24-hour hour that a 12-hour hour and its AM/PM mark stand for. */
  function To24(h12: nat, pm: bool): nat {
    if h12 == 12 then (if pm then 12 else 0) else if pm then h12 + 12 else h12
  }

  /** Reads back what FormatTo12Hour writes: the 24-hour hour and the minutes text. */
  function Parse12Hour(r: string): Option<(nat, string)> {
    var i := |TakeUntilColon(r)|;
    if 1 <= i && i + 4 <= |r| && AllDigits(r[..i]) && r[|r| - 3] == ' '
       && (r[|r| - 2..] == "AM" || r[|r| - 2..] == "PM")
    then Some((To24(ParseNat(r[..i]), r[|r| - 2..] == "PM"), r[i + 1..|r| - 3]))
    else None
  }

  lemma TakeUntilColonDigits(a: string, b: string)
    requires AllDigits(a) && |b| >= 1 && b[0] == ':'
    ensures TakeUntilColon(a + b) == a
  {
    if a != [] {
      assert (a + b)[1..] == a[1..] + b;
      TakeUntilColonDigits(a[1..], b);
    } else {
      assert a + b == b;
    }
  }

  /** The 12-hour text of hour h with minutes m reads back as h and m. */
  lemma TwelveHourText(h: nat, m: string)
    ensures h < 24 ==> Parse12Hour(NatToString(Hour12(h)) + ":" + m + " " + Meridiem(h)) == Some((h, m))
  {
    if h < 24 {
      var hs, s := NatToString(Hour12(h)), Meridiem(h);
      var r := hs + ":" + m + " " + s;
      assert r == hs + (":" + m + " " + s);
      TakeUntilColonDigits(hs, ":" + m + " " + s);
      var i := |hs|;
      assert r[..i] == hs;
      assert r[|r| - 2..] == s;
      assert r[i + 1..|r| - 3] == m;
      assert r[|r| - 3] == ' ';
      Hour12Table(h);
      assert s == "AM" || s == "PM";
      ParseNatToString(Hour12(h));
      assert Parse12Hour(r) == Some((To24(Hour12(h), s == "PM"), m));
    }
  }

  lemma FormatExample(t: string, h: nat, h12: string, m: string, r: string)
    requires HasTwoDigitHour(t) && HourOf(t) == h && MinutesOf(t) == m
    requires NatToString(Hour12(h)) == h12 && r == h12 + ":" + m + " " + Meridiem(h)
    ensures FormatTo12Hour(t) == r
  {
  }

  lemma MidnightExample()
    ensures FormatTo12Hour("00:15") == "12:15 AM"
  {
    assert "00:15"[..2] == "00" && ParseNat("00") == 0;
    assert "00:15"[3..] == "15" && TakeUntilColon("15") == "15";
    assert NatToString(12) == "12";
    FormatExample("00:15", 0, "12", "15", "12:15 AM");
  }

  lemma AfternoonExample()
    ensures FormatTo12Hour("13:05") == "1:05 PM"
  {
    assert "13:05"[..2] == "13" && ParseNat("13") == 13;
    assert "13:05"[3..] == "05" && TakeUntilColon("05") == "05";
    assert NatToString(1) == "1";
    FormatExample("13:05", 13, "1", "05", "1:05 PM");
  }

  lemma LastMinuteExample()
    ensures FormatTo12Hour("23:59") == "11:59 PM"
  {
    assert "23:59"[..2] == "23" && ParseNat("23") == 23;
    assert "23:59"[3..] == "59" && TakeUntilColon("59") == "59";
    assert NatToString(11) == "11";
    FormatExample("23:59", 23, "11", "59", "11:59 PM");
  }

  lemma NoonExample()
    ensures FormatTo12Hour("12:00") == "12:00 PM"
  {
    assert "12:00"[..2] == "12" && ParseNat("12") == 12;
    assert "12:00"[3..] == "00" && TakeUntilColon("00") == "00";
    assert NatToString(12) == "12";
    FormatExample("12:00", 12, "12", "00", "12:00 PM");
  }
}
