/**
 * Calendars with the same hours on every date, and on one weekday only: what the
 * concrete instances of the laws of working time are about.
 */
module EveryDay {
  import opened Wrappers
  import opened Zones
  import opened BusinessCalendar

  // Minutes of the day, as a calendar writes them.
  function ClockFace(k: nat): HourMinute
    requires k <= 1440
  {
    HourMinute(k / 60, k % 60)
  }

  function Written(k: nat): string
    requires k <= 1440
  {
    TwoDigits(ClockFace(k).hour) + ":" + TwoDigits(ClockFace(k).minute)
  }

  function Hours(from: nat, to: nat): OpenPeriod
    requires from <= 1440 && to <= 1440
  {
    OpenPeriod(Written(from), Written(to))
  }

  lemma HoursSpan(from: nat, to: nat)
    requires from <= 1440 && to <= 1440
    ensures Span(Hours(from, to)) == Success((from, to))
  {
    hide ParseHm;
    ParseHmReadsClockFaces(ClockFace(from), "start");
    ParseHmReadsClockFaces(ClockFace(to), "end");
  }

  lemma OnePeriodIsSound(from: nat, to: nat)
    requires from < to <= 1440
    ensures Sound([Hours(from, to)])
  {
    hide Span, Hours;
    HoursSpan(from, to);
  }

  function EveryDayOpen(z: Zone, dateKey: int -> string, periods: seq<OpenPeriod>): Calendar {
    Calendar(Some(z), dateKey,
             map[Mon := periods, Tue := periods, Wed := periods, Thu := periods, Fri := periods, Sat := periods, Sun := periods],
             [])
  }

  lemma EveryDayPeriods(z: Zone, dateKey: int -> string, periods: seq<OpenPeriod>, day: int)
    ensures PeriodsFor(EveryDayOpen(z, dateKey, periods), day) == periods
  {
  }

  lemma EveryDayIsValid(z: Zone, dateKey: int -> string, periods: seq<OpenPeriod>)
    requires Sound(periods) && periods != []
    ensures ValidCalendar(EveryDayOpen(z, dateKey, periods)) && EveryDayOpen(z, dateKey, periods).zone == Some(z)
  {
    hide Sound;
    assert |EveryDayOpen(z, dateKey, periods).hours[Mon]| > 0;
  }

  function OneDayOpen(z: Zone, weekday: Weekday, period: OpenPeriod): Calendar {
    Calendar(Some(z), (day: int) => "", map[weekday := [period]], [])
  }

  lemma OneDayPeriods(z: Zone, weekday: Weekday, period: OpenPeriod, day: int)
    ensures PeriodsFor(OneDayOpen(z, weekday, period), day) == if WeekdayOf(day) == weekday then [period] else []
  {
  }

  lemma OneDayIsValid(z: Zone, weekday: Weekday, from: nat, to: nat)
    requires from < to <= 1440
    ensures ValidCalendar(OneDayOpen(z, weekday, Hours(from, to)))
  {
    hide Hours, Sound;
    OnePeriodIsSound(from, to);
    var cal := OneDayOpen(z, weekday, Hours(from, to));
    assert |cal.hours[weekday]| > 0;
  }
}
