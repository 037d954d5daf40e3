/**
 * The pure helpers of the calendar card (family-calendar-card.ts) and its
 * configuration check.
 *
 * A JavaScript `Date` is represented by the local-time fields the card reads
 * from it: year, month (from 0), day of the month, weekday (0 is Sunday),
 * hour and minute.
 */
module CalendarCard {
  import opened Wrappers
  import opened Text
  import opened Ranges

  type Hour = h: int | 0 <= h < 24
  type Minute = m: int | 0 <= m < 60
  type Weekday = d: int | 0 <= d < 7
  type Month = m: int | 0 <= m < 12

  /** What the card reads from a `Date`: `getFullYear`, `getMonth`, `getDate`, `getDay`, `getHours`, `getMinutes`. */
  datatype DateTime = DateTime(year: int, month: Month, day: int, weekday: Weekday, hour: Hour, minute: Minute)

  datatype CalendarEvent = CalendarEvent(
    start: DateTime, end: DateTime, title: string, calendar: string,
    location: Option<string>, description: Option<string>, color: Option<string>)

  /** The `entities` field of a configuration as the check sees it. */
  datatype EntitiesField = Missing | NotAnArray | Entities(ids: seq<string>)

  datatype CardConfig = CardConfig(entities: EntitiesField, showHeader: Option<bool>, title: Option<string>)

  /** The two weekday dishes of the meal plan. */
  datatype Meal = Tacos | Pizza

  /** The entity attributes the card reads: `attributes.color`. */
  datatype EntityState = EntityState(color: Option<string>)

  const NoEntitiesError: string := "At least one calendar entity must be specified"
  const CalendarPrefix: string := "calendar."
  const DefaultEventColor: string := "#039be5"

  function NotCalendarError(entity: string): string {
    "Entity " + entity + " is not a calendar entity"
  }

  // ---------------------------------------------------------------- setConfig

  /** The position of the first entity that does not start with `calendar.`, if any. */
  function FirstNonCalendar(ids: seq<string>): (r: Option<nat>)
    ensures r.Some? ==>
              && r.value < |ids| && !StartsWith(ids[r.value], CalendarPrefix)
              && forall j :: 0 <= j < r.value ==> StartsWith(ids[j], CalendarPrefix)
    ensures r.None? ==> forall j :: 0 <= j < |ids| ==> StartsWith(ids[j], CalendarPrefix)
  {
    if ids == [] then None
    else if !StartsWith(ids[0], CalendarPrefix) then Some(0)
    else
      match FirstNonCalendar(ids[1..])
      case None => None
      case Some(k) => Some(k + 1)
  }

  /** What `setConfig` throws for a configuration, or `Pass` when it accepts it. */
  function ConfigCheck(config: CardConfig): (r: Outcome<string>)
    ensures r.Pass? ==> config.entities.Entities? && |config.entities.ids| > 0
    ensures r.Fail? && config.entities.Entities? && |config.entities.ids| > 0 ==>
              exists k :: 0 <= k < |config.entities.ids| && !StartsWith(config.entities.ids[k], CalendarPrefix)
                          && r.error == NotCalendarError(config.entities.ids[k])
  {
    if !config.entities.Entities? || config.entities.ids == [] then Fail(NoEntitiesError)
    else
      match FirstNonCalendar(config.entities.ids)
      case Some(k) => Fail(NotCalendarError(config.entities.ids[k]))
      case None => Pass
  }

  /**
   * A configuration is accepted exactly when it lists at least one entity and
   * every entity starts with `calendar.`; a rejected non-empty list names its
   * first offending entity.
   */
  lemma ConfigCheckMeaning(config: CardConfig)
    ensures ConfigCheck(config).Pass? <==>
              && config.entities.Entities? && |config.entities.ids| > 0
              && forall j :: 0 <= j < |config.entities.ids| ==> StartsWith(config.entities.ids[j], CalendarPrefix)
    ensures !config.entities.Entities? || config.entities.ids == [] ==> ConfigCheck(config) == Fail(NoEntitiesError)
    ensures config.entities.Entities? && ConfigCheck(config).Fail? && config.entities.ids != [] ==>
              exists k :: 0 <= k < |config.entities.ids|
                && ConfigCheck(config) == Fail(NotCalendarError(config.entities.ids[k]))
                && !StartsWith(config.entities.ids[k], CalendarPrefix)
                && forall j :: 0 <= j < k ==> StartsWith(config.entities.ids[j], CalendarPrefix)
  {
    if config.entities.Entities? && config.entities.ids != [] {
      var r := FirstNonCalendar(config.entities.ids);
      if r.Some? {
        assert ConfigCheck(config) == Fail(NotCalendarError(config.entities.ids[r.value]));
      }
    }
  }

  class FamilyCalendarCard {
    /** `this.config`; `None` until a configuration has been accepted. */
    var config: Option<CardConfig>

    constructor ()
      ensures config == None
    {
      config := None;
    }

    /**
     * `setConfig(config)`: throw for a missing, non-array or empty entity
     * list, then for the first entity not starting with `calendar.`;
     * otherwise store the configuration unchanged.
     */
    method SetConfig(c: CardConfig) returns (outcome: Outcome<string>)
      modifies this
      ensures outcome == ConfigCheck(c)
      ensures outcome.Pass? ==> config == Some(c)
      ensures outcome.Fail? ==> config == old(config)
    {
      if !c.entities.Entities? || |c.entities.ids| == 0 {
        return Fail(NoEntitiesError);
      }
      var ids := c.entities.ids;
      var k := 0;
      while k < |ids|
        invariant 0 <= k <= |ids|
        invariant forall j :: 0 <= j < k ==> StartsWith(ids[j], CalendarPrefix)
      {
        if !StartsWith(ids[k], CalendarPrefix) {
          assert FirstNonCalendar(ids) == Some(k);
          return Fail(NotCalendarError(ids[k]));
        }
        k := k + 1;
      }
      config := Some(c);
      outcome := Pass;
    }
  }

  // --------------------------------------------------------------- time text

  /** `date.getHours() % 12 || 12`. */
  function Hour12(h: Hour): (r: int)
    ensures 1 <= r <= 12 && r % 12 == h % 12
  {
    if h % 12 == 0 then 12 else h % 12
  }

  /** The 12-hour reading and the half of the day give back the hour. */
  lemma Hour12Back(h: Hour)
    ensures Hour12(h) % 12 + (if h >= 12 then 12 else 0) == h
  {
  }

  function Meridiem(h: Hour): (r: string)
    ensures r == "pm" <==> h >= 12
    ensures r == "am" <==> h < 12
  {
    if h >= 12 then "pm" else "am"
  }

  /** `minutes.toString().padStart(2, "0")`. */
  function Pad2(m: Minute): (r: string)
    ensures |r| == 2 && AllDigits(r)
  {
    assert m >= 10 ==> NatToString(m) == NatToString(m / 10) + [DigitChar(m % 10)];
    PadStart(NatToString(m), 2, '0')
  }

  /** A leading zero adds nothing to the value of a digit. */
  lemma LeadingZero(d: char)
    requires IsDigit(d)
    ensures DigitsValue(['0', d]) == DigitValue(d)
  {
    assert ['0', d][..1] == ['0'];
    assert ['0'][..0] == [];
  }

  lemma Pad2Value(m: Minute)
    ensures DigitsValue(Pad2(m)) == m
  {
    if m < 10 {
      var d := DigitChar(m);
      assert NatToString(m) == [d];
      assert Pad2(m) == ['0', d];
      LeadingZero(d);
    } else {
      assert Pad2(m) == NatToString(m);
      DigitsValueOfNatToString(m);
    }
  }

  /** `_formatTime(date)`: `h:mm am` on the 12-hour clock. */
  function FormatTime(h: Hour, m: Minute): (r: string)
    ensures 7 <= |r| <= 8
    ensures r[|r| - 2..] == if h < 12 then "am" else "pm"
  {
    var n := Hour12(h);
    assert n >= 10 ==> NatToString(n) == NatToString(n / 10) + [DigitChar(n % 10)];
    var s := NatToString(n) + ":" + Pad2(m) + " " + Meridiem(h);
    assert s[|s| - 2..] == Meridiem(h);
    s
  }

  /** The offset of a half of the day: 0 for `am`, 12 for `pm`. */
  function ParseMeridiem(t: string): (r: Option<int>)
    ensures r.Some? ==> r.value == 0 || r.value == 12
  {
    if t == "am" then Some(0) else if t == "pm" then Some(12) else None
  }

  /**
   * Reads the hour digits and the `mm am` rest of a time: an unpadded hour
   * from 1 to 12, two minute digits below 60, a space and the half of the day.
   */
  function ParseClock(hs: string, rest: string): Option<(int, int)> {
    if && |rest| == 5 && rest[2] == ' '
       && ParseNat(hs).Some? && 1 <= ParseNat(hs).value <= 12
       && ParseDigits(rest[..2]).Some? && ParseDigits(rest[..2]).value < 60
       && ParseMeridiem(rest[3..]).Some?
    then Some((ParseNat(hs).value % 12 + ParseMeridiem(rest[3..]).value, ParseDigits(rest[..2]).value))
    else None
  }

  /** Reads `h:mm am` / `h:mm pm` back to a 24-hour hour and a minute. */
  function ParseTime(s: string): (r: Option<(int, int)>)
    ensures r.Some? ==> ':' in s
  {
    var hs := Before(s, ':');
    if |hs| < |s| then ParseClock(hs, After(s, ':')) else None
  }

  /** `ParseClock` reads two minute digits, a space and the half of the day after the hour digits. */
  lemma ParseClockParts(a: string, p: string, mer: string)
    requires Canonical(a) && 1 <= DigitsValue(a) <= 12
    requires |p| == 2 && AllDigits(p) && DigitsValue(p) < 60 && (mer == "am" || mer == "pm")
    ensures ParseClock(a, p + [' '] + mer) ==
              Some((DigitsValue(a) % 12 + (if mer == "pm" then 12 else 0), DigitsValue(p)))
  {
    var rest := p + [' '] + mer;
    assert rest[..2] == p && rest[2] == ' ' && rest[3..] == mer;
  }

  /** `ParseTime` reads the hour digits, two minute digits and the half of the day of any text shaped like `h:mm am`. */
  lemma ParseTimeParts(a: string, p: string, mer: string)
    requires Canonical(a) && 1 <= DigitsValue(a) <= 12
    requires |p| == 2 && AllDigits(p) && DigitsValue(p) < 60 && (mer == "am" || mer == "pm")
    ensures ParseTime(a + ":" + p + " " + mer) ==
              Some((DigitsValue(a) % 12 + (if mer == "pm" then 12 else 0), DigitsValue(p)))
  {
    var rest := p + [' '] + mer;
    var s := a + ":" + p + " " + mer;
    assert s == a + [':'] + rest;
    DigitsHaveNo(a, ':');
    SplitAtFirst(a, ':', rest);
    ParseClockParts(a, p, mer);
  }

  /** The 12-hour text loses nothing: the hour, the minute and the half of the day read back exactly. */
  lemma FormatTimeRoundTrip(h: Hour, m: Minute)
    ensures ParseTime(FormatTime(h, m)) == Some((h as int, m as int))
  {
    var a, p, mer := NatToString(Hour12(h)), Pad2(m), Meridiem(h);
    DigitsValueOfNatToString(Hour12(h));
    Pad2Value(m);
    Hour12Back(h);
    ReadBack(a, p, mer, h, m);
    FormatTimeText(h, m);
  }

  /** `ParseTimeParts` with the values it reads named in advance. */
  lemma ReadBack(a: string, p: string, mer: string, h: int, m: int)
    requires Canonical(a) && 1 <= DigitsValue(a) <= 12
    requires |p| == 2 && AllDigits(p) && DigitsValue(p) == m < 60 && (mer == "am" || mer == "pm")
    requires DigitsValue(a) % 12 + (if mer == "pm" then 12 else 0) == h
    ensures ParseTime(a + ":" + p + " " + mer) == Some((h, m))
  {
    ParseTimeParts(a, p, mer);
  }

  /** Two times with the same text are the same time. */
  lemma FormatTimeInjective(h1: Hour, m1: Minute, h2: Hour, m2: Minute)
    requires FormatTime(h1, m1) == FormatTime(h2, m2)
    ensures h1 == h2 && m1 == m2
  {
    FormatTimeRoundTrip(h1, m1);
    FormatTimeRoundTrip(h2, m2);
  }
  /** Two minute digits below 60 are exactly what `padStart(2, "0")` writes for their value. */
  lemma TwoDigitsArePad2(p: string)
    requires |p| == 2 && AllDigits(p) && DigitsValue(p) < 60
    ensures Pad2(DigitsValue(p)) == p
  {
    var n := DigitsValue(p);
    if p[0] == '0' {
      assert p[..1] == ['0'] && p[..1][..0] == [];
      assert n == DigitValue(p[1]);
      assert NatToString(n) == [p[1]];
      assert PadStart([p[1]], 2, '0') == p;
    } else {
      CanonicalIsNatToString(p);
    }
  }

  /** What `ParseClock` accepts is an unpadded 12-hour hour, then `mm am` or `mm pm` as `_formatTime` writes them. */
  lemma ParseClockOnly(hs: string, rest: string)
    requires ParseClock(hs, rest).Some?
    ensures 0 <= ParseClock(hs, rest).value.0 < 24 && 0 <= ParseClock(hs, rest).value.1 < 60
    ensures hs == NatToString(Hour12(ParseClock(hs, rest).value.0))
    ensures rest == Pad2(ParseClock(hs, rest).value.1) + " " + Meridiem(ParseClock(hs, rest).value.0)
  {
    var v, p, mer := ParseNat(hs).value, rest[..2], rest[3..];
    var off := ParseMeridiem(mer).value;
    var h := v % 12 + off;
    assert ParseClock(hs, rest) == Some((h, DigitsValue(p)));
    HourAndHalf(v, off);
    assert hs == NatToString(v) == NatToString(Hour12(h));
    assert Meridiem(h) == mer;
    TwoDigitsArePad2(p);
    FieldsAroundSpace(rest);
  }

  /** A five-character text with a space in the middle is its first two characters, the space and its last two. */
  lemma FieldsAroundSpace(rest: string)
    requires |rest| == 5 && rest[2] == ' '
    ensures rest == rest[..2] + " " + rest[3..]
  {
  }

  /** A 12-hour reading and the offset of its half of the day make a 24-hour hour that shows that reading and that half. */
  lemma HourAndHalf(v: int, off: int)
    requires 1 <= v <= 12 && (off == 0 || off == 12)
    ensures 0 <= v % 12 + off < 24
    ensures Hour12(v % 12 + off) == v
    ensures v % 12 + off < 12 <==> off == 0
  {
  }

  /** `ParseTime` accepts nothing but `_formatTime` output: a text it reads as `(h, m)` is `FormatTime(h, m)`. */
  lemma ParseTimeOnlyFormatTime(s: string)
    requires ParseTime(s).Some?
    ensures 0 <= ParseTime(s).value.0 < 24 && 0 <= ParseTime(s).value.1 < 60
    ensures s == FormatTime(ParseTime(s).value.0, ParseTime(s).value.1)
  {
    var hs, rest := Before(s, ':'), After(s, ':');
    SplitBack(s, ':');
    ParseClockOnly(hs, rest);
    var h, m := ParseTime(s).value.0, ParseTime(s).value.1;
    JoinAtColon(s, hs, rest, NatToString(Hour12(h)), Pad2(m), Meridiem(h));
    FormatTimeText(h, m);
  }

  lemma JoinAtColon(s: string, hs: string, rest: string, a: string, p: string, mer: string)
    requires s == hs + [':'] + rest && hs == a && rest == p + " " + mer
    ensures s == a + ":" + p + " " + mer
  {
  }

  /** `_formatTime`'s template: the 12-hour reading, `:`, the padded minutes, a space and the half of the day. */
  lemma FormatTimeText(h: Hour, m: Minute)
    ensures FormatTime(h, m) == NatToString(Hour12(h)) + ":" + Pad2(m) + " " + Meridiem(h)
  {
  }


  /** Three times as the card shows them: midnight and noon read 12, afternoons drop the leading zero of the hour. */
  lemma FormatTimeMidnight()
    ensures FormatTime(0, 5) == "12:05 am"
  {
    assert NatToString(12) == "12";
    assert Pad2(5) == "05";
  }

  lemma FormatTimeNoon()
    ensures FormatTime(12, 0) == "12:00 pm"
  {
    assert NatToString(12) == "12";
    assert Pad2(0) == "00";
  }

  lemma FormatTimeAfternoon()
    ensures FormatTime(13, 30) == "1:30 pm"
  {
    assert NatToString(30) == "30";
    assert Pad2(30) == "30";
  }

  /** The 24 hour labels of the time column in `render()`: `h am` / `h pm`. */
  function TimeSlotLabels(): (labels: seq<string>)
    ensures |labels| == 24
  {
    seq(24, i requires 0 <= i < 24 => NatToString(Hour12(i)) + " " + Meridiem(i))
  }

  /** The `_timeSlots` field: `h:00` for each hour of the day. */
  function HourLabels(): (labels: seq<string>)
    ensures |labels| == 24
  {
    seq(24, i requires 0 <= i < 24 => NatToString(Hour12(i)) + ":00")
  }

  /** The `_timeSlots` label of an hour is what `_formatTime` shows for minute 0 of it, less the `am`/`pm`. */
  lemma HourLabelsMatchFormatTime(i: Hour)
    ensures FormatTime(i, 0) == HourLabels()[i] + " " + Meridiem(i)
  {
    assert Pad2(0) == "00";
    assert HourLabels()[i] == NatToString(Hour12(i)) + ":00";
  }

  /**
   * Label `i` of the time column reads as the hour `i % 12` (12 for 0),
   * then a space, then `am` exactly when `i < 12` and `pm` otherwise.
   */
  lemma TimeSlotLabelParts(i: Hour)
    ensures ParseNat(Before(TimeSlotLabels()[i], ' ')) == Some(Hour12(i))
    ensures After(TimeSlotLabels()[i], ' ') == "am" <==> i < 12
    ensures After(TimeSlotLabels()[i], ' ') == "pm" <==> i >= 12
  {
    var a := NatToString(Hour12(i));
    assert TimeSlotLabels()[i] == a + [' '] + Meridiem(i);
    DigitsHaveNo(a, ' ');
    SplitAtFirst(a, ' ', Meridiem(i));
    NatToStringRoundTrip(Hour12(i));
  }

  /** No two labels of the time column agree: each names one hour of the day. */
  lemma TimeSlotLabelsDistinct(i: Hour, j: Hour)
    requires TimeSlotLabels()[i] == TimeSlotLabels()[j]
    ensures i == j
  {
    TimeSlotLabelParts(i);
    TimeSlotLabelParts(j);
    Hour12Back(i);
    Hour12Back(j);
  }

  /** The `_timeSlots` labels repeat after twelve hours: they carry no am/pm. */
  lemma HourLabelsRepeat(i: int)
    requires 0 <= i < 12
    ensures HourLabels()[i] == HourLabels()[i + 12]
  {
  }

  // --------------------------------------------------------- layout numbers

  /** Minutes since midnight: `getHours() * 60 + getMinutes()`. */
  function MinutesOfDay(d: DateTime): (r: int)
    ensures 0 <= r < 24 * 60
  {
    d.hour * 60 + d.minute
  }

  /** Minutes since midnight put times in the order of the clock. */
  lemma MinutesOfDayOrder(a: DateTime, b: DateTime)
    ensures MinutesOfDay(a) < MinutesOfDay(b) <==> a.hour < b.hour || (a.hour == b.hour && a.minute < b.minute)
    ensures MinutesOfDay(a) == MinutesOfDay(b) <==> a.hour == b.hour && a.minute == b.minute
  {
    if a.hour < b.hour {
      assert a.hour * 60 + 60 <= b.hour * 60;
    } else if a.hour > b.hour {
      assert b.hour * 60 + 60 <= a.hour * 60;
    }
  }

  /**
   * `_getEventStyle`: the event box starts at its start minute and is as
   * tall as the event lasts, but never less than an hour.
   */
  function EventBox(start: DateTime, end: DateTime): (box: (int, int))
    ensures box.0 == MinutesOfDay(start)
    ensures box.1 >= 60
    ensures box.1 >= MinutesOfDay(end) - MinutesOfDay(start)
    ensures box.1 == 60 || box.1 == MinutesOfDay(end) - MinutesOfDay(start)
  {
    var duration := MinutesOfDay(end) - MinutesOfDay(start);
    (MinutesOfDay(start), if duration >= 60 then duration else 60)
  }

  /** The box of an event reaches at least its end, and ends exactly there when the event lasts an hour or more. */
  lemma EventBoxCoversEvent(start: DateTime, end: DateTime)
    ensures var box := EventBox(start, end);
            && box.0 + box.1 >= MinutesOfDay(end)
            && box.0 + box.1 >= MinutesOfDay(start) + 60
            && (MinutesOfDay(end) - MinutesOfDay(start) >= 60 ==> box.0 + box.1 == MinutesOfDay(end))
  {
  }

  /**
   * The event's background colour: its colour id looked up in the event
   * palette when both are present and the entry is non-empty, the default
   * colour otherwise; never empty.
   */
  function EventBackground(palette: Option<map<string, string>>, color: Option<string>): (r: string)
    ensures r != ""
    ensures r == DefaultEventColor ||
            (palette.Some? && color.Some? && color.value in palette.value && r == palette.value[color.value])
    ensures palette.None? || color.None? || color.value == "" ==> r == DefaultEventColor
    ensures (palette.Some? && color.Some? && color.value != "" && color.value in palette.value
             && palette.value[color.value] != "") ==> r == palette.value[color.value]
  {
    if palette.Some? && color.Some? && color.value != "" && color.value in palette.value
       && palette.value[color.value] != ""
    then palette.value[color.value]
    else DefaultEventColor
  }

  /** `DateUtils.getHourRange(startHour, endHour)`. */
  method GetHourRange(startHour: int, endHour: int) returns (hours: seq<int>)
    ensures hours == Range(startHour, endHour)
    ensures |hours| == if startHour <= endHour then endHour - startHour + 1 else 0
    ensures forall k :: 0 <= k < |hours| ==> hours[k] == startHour + k
  {
    hours := [];
    var hour := startHour;
    while hour <= endHour
      invariant hour == startHour || startHour <= hour <= endHour + 1
      invariant hours == Range(startHour, hour - 1)
    {
      hours := hours + [hour];
      hour := hour + 1;
    }
  }

  /** `DateUtils.convertTimeToPixels`: 60 pixels per hour, counted from `startHour`. */
  function ConvertTimeToPixels(d: DateTime, startHour: int): (px: int)
    ensures px == MinutesOfDay(d) - startHour * 60
  {
    (d.hour - startHour) * 60 + d.minute
  }

  /**
   * Pixels keep the order of the clock, and the hour lines of an hour
   * range sit 60 pixels apart: the `k`-th hour of the range is at `60 * k`.
   */
  lemma PixelsFollowClock(a: DateTime, b: DateTime, startHour: int, endHour: int, k: int)
    ensures ConvertTimeToPixels(a, startHour) < ConvertTimeToPixels(b, startHour) <==>
              a.hour < b.hour || (a.hour == b.hour && a.minute < b.minute)
    ensures 0 <= k < |Range(startHour, endHour)| && a.hour == Range(startHour, endHour)[k] && a.minute == 0 ==>
              ConvertTimeToPixels(a, startHour) == 60 * k
  {
    MinutesOfDayOrder(a, b);
  }

  // -------------------------------------------------------------- meal plan

  /** `_getMealPlan(date)`: tacos on Tuesdays, pizza on Fridays, nothing otherwise. */
  function MealPlan(d: DateTime): (meal: Option<Meal>)
    ensures meal == Some(Tacos) <==> d.weekday == 2
    ensures meal == Some(Pizza) <==> d.weekday == 5
    ensures meal.None? <==> d.weekday != 2 && d.weekday != 5
  {
    if d.weekday == 2 then Some(Tacos) else if d.weekday == 5 then Some(Pizza) else None
  }

  /** The meal depends on the weekday alone: two dates on the same weekday get the same plan. */
  lemma MealPlanWeekly(a: DateTime, b: DateTime)
    requires a.weekday == b.weekday
    ensures MealPlan(a) == MealPlan(b)
  {
  }

  // -------------------------------------------------------- events of a day

  /** The filter of `_getEventsForDay`: same day of the month, month and year. */
  predicate SameDate(a: DateTime, b: DateTime) {
    a.day == b.day && a.month == b.month && a.year == b.year
  }

  /** The events of `events` that start on `date`'s date, in their order. */
  function DayFilter(events: seq<CalendarEvent>, date: DateTime): (r: seq<CalendarEvent>)
    ensures |r| <= |events|
  {
    if events == [] then []
    else
      var last := events[|events| - 1];
      DayFilter(events[..|events| - 1], date) + (if SameDate(last.start, date) then [last] else [])
  }

  /** `_getEventsForDay(date)` before its `map`: nothing while events are not loaded. */
  function EventsForDay(events: Option<seq<CalendarEvent>>, date: DateTime): (r: seq<CalendarEvent>)
    ensures events.None? ==> r == []
    ensures events.Some? ==> |r| <= |events.value|
  {
    if events.None? then [] else DayFilter(events.value, date)
  }

  /** An event is listed for a day exactly when it is loaded and starts on that date. */
  lemma {:induction false} DayFilterMembers(events: seq<CalendarEvent>, date: DateTime, e: CalendarEvent)
    ensures e in DayFilter(events, date) <==> e in events && SameDate(e.start, date)
  {
    if events != [] {
      var p := events[..|events| - 1];
      DayFilterMembers(p, date, e);
      assert events == p + [events[|events| - 1]];
    }
  }

  /** The filter works event by event: filtering a concatenation concatenates the filtered parts, so order is kept. */
  lemma {:induction false} DayFilterAppend(a: seq<CalendarEvent>, b: seq<CalendarEvent>, date: DateTime)
    ensures DayFilter(a + b, date) == DayFilter(a, date) + DayFilter(b, date)
    decreases |b|
  {
    if b == [] {
      assert a + b == a;
    } else {
      var p := b[..|b| - 1];
      DayFilterAppend(a, p, date);
      assert (a + b)[..|a + b| - 1] == a + p;
    }
  }

  /** Filtering the events of a day again for the same day changes nothing. */
  lemma {:induction false} DayFilterIdempotent(events: seq<CalendarEvent>, date: DateTime)
    ensures DayFilter(DayFilter(events, date), date) == DayFilter(events, date)
  {
    if events != [] {
      var p := events[..|events| - 1];
      var last := events[|events| - 1];
      DayFilterIdempotent(p, date);
      var tail := if SameDate(last.start, date) then [last] else [];
      DayFilterAppend(DayFilter(p, date), tail, date);
      if SameDate(last.start, date) {
        assert DayFilter(tail, date) == DayFilter([], date) + [last];
      }
    }
  }

  /** No event is listed under two different dates. */
  lemma DaysAreDisjoint(events: Option<seq<CalendarEvent>>, d1: DateTime, d2: DateTime, e: CalendarEvent)
    requires !SameDate(d1, d2)
    ensures !(e in EventsForDay(events, d1) && e in EventsForDay(events, d2))
  {
    if events.Some? {
      DayFilterMembers(events.value, d1, e);
      DayFilterMembers(events.value, d2, e);
    }
  }

  // ------------------------------------------------------- calendar colours

  /** The built-in colours of `_getCalendarColor`, keyed by entity id. */
  function FallbackColor(calendarId: string): (r: string)
    ensures r in {"#039be5", "#7986cb", "#33b679", "#8e24aa"}
    ensures !StartsWith(calendarId, CalendarPrefix) ==> r == DefaultEventColor
  {
    if calendarId == "calendar.personal" then "#039be5"
    else if calendarId == "calendar.work" then "#7986cb"
    else if calendarId == "calendar.family" then "#33b679"
    else if calendarId == "calendar.holidays" then "#8e24aa"
    else "#039be5"
  }

  /**
   * `_getCalendarColor(calendarId)`: the entity's own non-empty `color`
   * attribute when it has one, else the built-in colour for the id, else
   * the default; never empty.
   */
  function CalendarColor(states: Option<map<string, EntityState>>, calendarId: string): (r: string)
    ensures r != ""
    ensures OwnColor(states, calendarId) ==> r == states.value[calendarId].color.value
    ensures !OwnColor(states, calendarId) ==> r == FallbackColor(calendarId)
    ensures !OwnColor(states, calendarId) ==> r in {"#039be5", "#7986cb", "#33b679", "#8e24aa"}
  {
    if OwnColor(states, calendarId) then states.value[calendarId].color.value else FallbackColor(calendarId)
  }

  /** The entity has a non-empty `color` attribute of its own. */
  predicate OwnColor(states: Option<map<string, EntityState>>, calendarId: string) {
    states.Some? && calendarId in states.value && states.value[calendarId].color.Some?
    && states.value[calendarId].color.value != ""
  }

  /** The built-in colours of the four known calendars, used when they have no colour of their own. */
  lemma KnownCalendarColors(states: Option<map<string, EntityState>>)
    ensures !OwnColor(states, "calendar.personal") ==> CalendarColor(states, "calendar.personal") == "#039be5"
    ensures !OwnColor(states, "calendar.work") ==> CalendarColor(states, "calendar.work") == "#7986cb"
    ensures !OwnColor(states, "calendar.family") ==> CalendarColor(states, "calendar.family") == "#33b679"
    ensures !OwnColor(states, "calendar.holidays") ==> CalendarColor(states, "calendar.holidays") == "#8e24aa"
  {
  }

  /** A calendar with no colour of its own and an id outside the four known ones gets the default colour. */
  lemma UnknownCalendarColor(states: Option<map<string, EntityState>>, calendarId: string)
    requires calendarId !in {"calendar.personal", "calendar.work", "calendar.family", "calendar.holidays"}
    requires states.None? || calendarId !in states.value
    ensures CalendarColor(states, calendarId) == DefaultEventColor
  {
  }
}
