/**
 * For which zones and instants `isOpen` can be trusted whatever the calendar:
 * the two dates it looks at hold every interval around the instant if and only if
 * no reading of another date converts to the wrong side of it
 * (`packages/business-time/src/index.ts`).
 */
module MissedDates {
  import opened Wrappers
  import opened Zones
  import opened BusinessCalendar
  import opened OpenTime
  import opened Timetable
  import opened BusinessTime
  import opened CalendarLaws
  import opened BusinessLaws
  import opened EveryDay
  import opened HiddenHours

  // `isOpen` answers for every date of the calendar.
  ghost predicate AnswersForAllDates(cal: Calendar, z: Zone, t: Instant) {
    IsOpen(cal, t) == Success(OpenAt(DaysOf(cal, z), t))
  }

  // A minute of the next date has come already, though clocks read this one.
  ghost predicate NextDateHasBegun(z: Zone, t: Instant) {
    exists k: nat :: k < 1440 && WallToUtc(z, (LocalDay(z, t) + 1) * DAY + k * MINUTE) <= t
  }

  // A minute of the last date, which `isOpen` does not look at, is still to come.
  ghost predicate LastDateGoesOn(z: Zone, t: Instant) {
    && LocalDay(z, t - DAY) != LocalDay(z, t) - 1
    && exists k: nat :: 0 < k <= 1440 && t < WallToUtc(z, (LocalDay(z, t) - 1) * DAY + k * MINUTE)
  }

  /* ------------------------------------------------------------ local time is nearly monotonic */

  // Local time goes back by less than twelve hours.
  lemma LocalTimeGoesBackLittle(z: Zone, s: Instant, t: Instant)
    requires Settled(z) && s <= t
    ensures LocalTime(z, s) < LocalTime(z, t) + 12 * HOUR
  {
    assert SettledFrom(z, s) && Ordinary(z, s) && Ordinary(z, t);
    var T, a, b :| SmallChange(z, s, T, a, b);
    if t <= s + 4 * DAY {
      assert z(s) == if s < T then a else b;
      assert z(t) == if t < T then a else b;
    }
  }

  lemma DayBeforeNear(z: Zone, t: Instant)
    requires Settled(z)
    ensures LocalDay(z, t) - 2 <= LocalDay(z, t - DAY) <= LocalDay(z, t)
  {
    assert SettledFrom(z, t - DAY);
    var T, a, b :| SmallChange(z, t - DAY, T, a, b);
    assert z(t - DAY) == if t - DAY < T then a else b;
    assert z(t) == if t < T then a else b;
    DayBrackets(LocalTime(z, t), LocalDay(z, t));
    DayBrackets(LocalTime(z, t - DAY), LocalDay(z, t - DAY));
  }

  // An instant between two converted readings of a date reads that date or one next to it.
  lemma DateIsNextTo(z: Zone, day: int, v: Wall, w: Wall, t: Instant)
    requires Settled(z) && day * DAY <= v && w <= (day + 1) * DAY
    requires WallToUtc(z, v) <= t < WallToUtc(z, w)
    ensures day - 1 <= LocalDay(z, t) <= day + 1
  {
    hide Settled, WallToUtc;
    ConvertedLandsNear(z, v);
    ConvertedLandsNear(z, w);
    LocalTimeGoesBackLittle(z, WallToUtc(z, v), t);
    LocalTimeGoesBackLittle(z, t, WallToUtc(z, w));
    DayBrackets(LocalTime(z, t), LocalDay(z, t));
  }

  /* ------------------------------------------------------------ where an interval comes from */

  // The interval is not empty and lies between two minutes of the date, converted.
  ghost predicate FromReadings(z: Zone, day: int, x: Interval) {
    x.start < x.end && exists j: nat, k: nat :: j < k <= 1440 && x == ReadingsInterval(z, day, j, k)
  }

  lemma PeriodFromReadings(z: Zone, day: int, p: OpenPeriod)
    requires Span(p).Success? && Span(p).value.0 < Span(p).value.1
    ensures PeriodInterval(z, day, p).Success?
    ensures var x := PeriodInterval(z, day, p).value; x.start < x.end ==> FromReadings(z, day, x)
  {
    hide WallToUtc, PeriodInterval;
    PeriodConverts(z, day, p);
    var j, k := Span(p).value.0, Span(p).value.1;
    assert k <= 1440;
    hide Span;
    assert IntervalOf(z, p, day) == ReadingsInterval(z, day, j, k);
  }

  lemma {:induction false} ConvertedFromReadings(z: Zone, day: int, periods: seq<OpenPeriod>)
    requires Sound(periods)
    ensures Converted(z, day, periods).Success?
    ensures forall x | x in Converted(z, day, periods).value :: FromReadings(z, day, x)
  {
    hide Span, PeriodInterval, FromReadings;
    if periods != [] {
      var n := |periods| - 1;
      ConvertedFromReadings(z, day, periods[..n]);
      PeriodFromReadings(z, day, periods[n]);
    }
  }

  // Every valid calendar gives each date its intervals, each between two minutes of the date.
  lemma DateIntervalsFromReadings(cal: Calendar, z: Zone, day: int)
    requires ValidCalendar(cal)
    ensures OpenIntervals(cal, z, day).Success?
    ensures forall x | x in OpenIntervals(cal, z, day).value :: FromReadings(z, day, x)
  {
    hide ValidCalendar, PeriodsFor, Sound, Converted, SortByStart, FromReadings;
    PeriodsAreSound(cal, day);
    ConvertedFromReadings(z, day, PeriodsFor(cal, day));
    var s := Converted(z, day, PeriodsFor(cal, day)).value;
    SortKeepsElements(s);
    forall x | x in SortByStart(s)
      ensures FromReadings(z, day, x)
    {
      assert x in multiset(SortByStart(s));
    }
  }

  /* ------------------------------------------------------------ trusted */

  lemma TrustedEverywhere(cal: Calendar, z: Zone, t: Instant)
    requires ValidCalendar(cal) && cal.zone == Some(z) && Settled(z)
    requires !NextDateHasBegun(z, t) && !LastDateGoesOn(z, t)
    ensures AnswersForAllDates(cal, z, t)
  {
    var d, e := LocalDay(z, t), LocalDay(z, t - DAY);
    var days := DaysOf(cal, z);
    hide ValidCalendar, Settled, IsOpen, OpenIntervals;
    DateIntervalsFromReadings(cal, z, d);
    DateIntervalsFromReadings(cal, z, e);
    IsOpenOverDates(cal, z, t, days(e), days(d));
    CoversConcat(days(e), days(d), t);
    forall day | Covers(days(day), t)
      ensures Covers(days(d), t) || Covers(days(e), t)
    {
      DateIntervalsFromReadings(cal, z, day);
      var i :| 0 <= i < |days(day)| && Inside(days(day)[i], t);
      var x := days(day)[i];
      assert x in OpenIntervals(cal, z, day).value;
      var j: nat, k: nat :| j < k <= 1440 && x == ReadingsInterval(z, day, j, k);
      OnlyTwoDates(z, t, day, j, k);
    }
  }

  lemma OnlyTwoDates(z: Zone, t: Instant, day: int, j: nat, k: nat)
    requires Settled(z) && j < k <= 1440 && Inside(ReadingsInterval(z, day, j, k), t)
    ensures day == LocalDay(z, t) || day == LocalDay(z, t - DAY) || NextDateHasBegun(z, t) || LastDateGoesOn(z, t)
  {
    hide Settled, WallToUtc;
    MinutesWithinDate(day, j, k);
    DateIsNextTo(z, day, day * DAY + j * MINUTE, day * DAY + k * MINUTE, t);
    if day == LocalDay(z, t) + 1 {
      assert WallToUtc(z, (LocalDay(z, t) + 1) * DAY + j * MINUTE) <= t;
    } else if day == LocalDay(z, t) - 1 {
      assert t < WallToUtc(z, (LocalDay(z, t) - 1) * DAY + k * MINUTE);
    }
  }

  /* ------------------------------------------------------------ deceived */

  // A calendar open on one weekday only, over the dates `isOpen` looks at and one more.
  lemma OneDateMissed(z: Zone, t: Instant, day: int, j: nat, k: nat)
    requires Settled(z) && j < k <= 1440 && Inside(ReadingsInterval(z, day, j, k), t)
    requires day != LocalDay(z, t) && day != LocalDay(z, t - DAY)
    ensures var cal := OneDayOpen(z, WeekdayOf(day), Hours(j, k));
            ValidCalendar(cal) && cal.zone == Some(z) && !AnswersForAllDates(cal, z, t)
  {
    var cal := OneDayOpen(z, WeekdayOf(day), Hours(j, k));
    hide Settled, WallToUtc, OpenIntervals, ValidCalendar, Hours, IsOpen, WeekdayOf;
    OneDayIsValid(z, WeekdayOf(day), j, k);
    MinutesWithinDate(day, j, k);
    DateIsNextTo(z, day, day * DAY + j * MINUTE, day * DAY + k * MINUTE, t);
    DayBeforeNear(z, t);
    ClosedDate(z, day, LocalDay(z, t), j, k);
    ClosedDate(z, day, LocalDay(z, t - DAY), j, k);
    OpenDate(z, day, j, k);
    var days := DaysOf(cal, z);
    IsOpenOverDates(cal, z, t, [], []);
    assert !Covers([] + [], t);
    assert days(day) == [ReadingsInterval(z, day, j, k)];
    CoversOne(ReadingsInterval(z, day, j, k), t);
    assert OpenAt(days, t);
  }

  lemma ClosedDate(z: Zone, day: int, other: int, j: nat, k: nat)
    requires j < k <= 1440 && day - 3 <= other <= day + 1 && other != day
    ensures OpenIntervals(OneDayOpen(z, WeekdayOf(day), Hours(j, k)), z, other) == Success([])
  {
    assert (other + 4) % 7 != (day + 4) % 7;
    assert WeekdayOf(other) != WeekdayOf(day);
    hide Hours, WeekdayOf;
    OneDayPeriods(z, WeekdayOf(day), Hours(j, k), other);
    assert Converted(z, other, []) == Success([]) && SortByStart([]) == [];
  }

  lemma OpenDate(z: Zone, day: int, j: nat, k: nat)
    requires j < k <= 1440 && ReadingsInterval(z, day, j, k).start < ReadingsInterval(z, day, j, k).end
    ensures OpenIntervals(OneDayOpen(z, WeekdayOf(day), Hours(j, k)), z, day) == Success([ReadingsInterval(z, day, j, k)])
  {
    hide Hours, WeekdayOf, WallToUtc, OpenIntervals, PeriodInterval, Span;
    OneDayPeriods(z, WeekdayOf(day), Hours(j, k), day);
    HoursSpan(j, k);
    PeriodConverts(z, day, Hours(j, k));
    OnePeriodDate(OneDayOpen(z, WeekdayOf(day), Hours(j, k)), z, day, Hours(j, k), ReadingsInterval(z, day, j, k));
  }

  lemma NextMidnightIsLater(z: Zone, t: Instant, day: int)
    requires Settled(z) && day >= LocalDay(z, t) + 2
    ensures t < WallToUtc(z, day * DAY)
  {
    hide Settled, WallToUtc;
    ConvertedLandsNear(z, day * DAY);
    DayBrackets(LocalTime(z, t), LocalDay(z, t));
    if WallToUtc(z, day * DAY) <= t {
      LocalTimeGoesBackLittle(z, WallToUtc(z, day * DAY), t);
    }
  }

  lemma LastMidnightIsEarlier(z: Zone, t: Instant, day: int)
    requires Settled(z) && day <= LocalDay(z, t) - 1
    ensures WallToUtc(z, day * DAY) <= t
  {
    hide Settled, WallToUtc;
    ConvertedLandsNear(z, day * DAY);
    DayBrackets(LocalTime(z, t), LocalDay(z, t));
    if t < WallToUtc(z, day * DAY) {
      LocalTimeGoesBackLittle(z, t, WallToUtc(z, day * DAY));
    }
  }

  lemma SomeCalendarIsMissed(z: Zone, t: Instant)
    requires Settled(z) && (NextDateHasBegun(z, t) || LastDateGoesOn(z, t))
    ensures exists cal :: ValidCalendar(cal) && cal.zone == Some(z) && !AnswersForAllDates(cal, z, t)
  {
    hide Settled, WallToUtc, ValidCalendar, AnswersForAllDates;
    var d := LocalDay(z, t);
    if NextDateHasBegun(z, t) {
      var k: nat :| k < 1440 && WallToUtc(z, (d + 1) * DAY + k * MINUTE) <= t;
      NextMidnightIsLater(z, t, d + 2);
      DayBeforeNear(z, t);
      assert (d + 1) * DAY + 1440 * MINUTE == (d + 2) * DAY;
      OneDateMissed(z, t, d + 1, k, 1440);
    } else {
      var k: nat :| 0 < k <= 1440 && t < WallToUtc(z, (d - 1) * DAY + k * MINUTE);
      LastMidnightIsEarlier(z, t, d - 1);
      assert (d - 1) * DAY + 0 * MINUTE == (d - 1) * DAY;
      OneDateMissed(z, t, d - 1, 0, k);
    }
  }

  /**
   * `isOpen` answers for all dates, whatever the calendar, if and only if at that
   * instant no minute of the next date has come already, and none of the last
   * date is still to come unless the local date of 24 hours earlier is that one.
   */
  lemma IsOpenIsTrustedIff(z: Zone, t: Instant)
    requires Settled(z)
    ensures (forall cal {:trigger AnswersForAllDates(cal, z, t)} ::
               ValidCalendar(cal) && cal.zone == Some(z) ==> AnswersForAllDates(cal, z, t))
            <==> !NextDateHasBegun(z, t) && !LastDateGoesOn(z, t)
  {
    hide Settled, ValidCalendar, AnswersForAllDates, NextDateHasBegun, LastDateGoesOn;
    if NextDateHasBegun(z, t) || LastDateGoesOn(z, t) {
      SomeCalendarIsMissed(z, t);
    } else {
      forall cal | ValidCalendar(cal) && cal.zone == Some(z)
        ensures AnswersForAllDates(cal, z, t)
      {
        TrustedEverywhere(cal, z, t);
      }
    }
  }
}
