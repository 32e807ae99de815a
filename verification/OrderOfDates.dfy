/**
 * When the intervals of all dates are in order, and so when working time measures
 * exactly, said of a calendar's hours and of the clock changes as they are
 * written, before any conversion (`packages/business-time/src/index.ts`).
 */
module OrderOfDates {
  import opened Wrappers
  import opened Zones
  import opened BusinessCalendar
  import opened OpenTime
  import opened Timetable
  import opened CalendarLaws
  import opened MissedDates
  import opened MeasuredTime
  import opened ClockChanges

  // At most one change around every reading of a date and of the next.
  ghost predicate OneChangeOnTwo(z: Zone, d: int, T: Instant, a: int, b: int) {
    forall wall :: d * DAY <= wall <= (d + 2) * DAY ==> OneChangeAround(z, wall, T, a, b)
  }

  // As it is in every zone the laws are about.
  lemma SettledHasOneChangeOnTwo(z: Zone, d: int)
    requires Settled(z)
    ensures exists T, a, b :: OneChangeOnTwo(z, d, T, a, b)
  {
    assert SettledFrom(z, (d - 1) * DAY);
    var T, a, b :| SmallChange(z, (d - 1) * DAY, T, a, b);
    assert OneChangeOnTwo(z, d, T, a, b);
  }

  // The change leaves both periods some time, yet the later date's begins before the earlier one's ends.
  predicate Crosses(T: Instant, a: int, b: int, v: Interval, w: Interval) {
    && !Collapses(T, a, b, v.start, v.end)
    && !Collapses(T, a, b, w.start, w.end)
    && Swaps(T, a, b, v.end, w.start)
  }

  // No period of a date crosses one of the next.
  ghost predicate NoCrossing(d: int, T: Instant, a: int, b: int, today: seq<OpenPeriod>, tomorrow: seq<OpenPeriod>) {
    forall p, q | p in today && q in tomorrow && Span(p).Success? && Span(q).Success? ::
      !Crosses(T, a, b, Walls(p, d), Walls(q, d + 1))
  }

  // What a change does to the hours written for a date and for the next.
  ghost predicate HoursKeepOrder(cal: Calendar, d: int, T: Instant, a: int, b: int)
    requires ValidCalendar(cal)
  {
    PeriodsAreSound(cal, d);
    SoundSpans(PeriodsFor(cal, d));
    NoClash(d, T, a, b, PeriodsFor(cal, d)) && NoCrossing(d, T, a, b, PeriodsFor(cal, d), PeriodsFor(cal, d + 1))
  }

  /* ------------------------------------------------------------ a date's intervals are its periods */

  ghost predicate FromPeriod(z: Zone, d: int, p: OpenPeriod, x: Interval) {
    Span(p).Success? && x == IntervalOf(z, p, d) && x.start < x.end
  }

  lemma {:induction false} ConvertedPeriods(z: Zone, d: int, periods: seq<OpenPeriod>, x: Interval)
    requires Sound(periods)
    ensures Converted(z, d, periods).Success?
    ensures x in Converted(z, d, periods).value <==> exists p :: p in periods && FromPeriod(z, d, p, x)
  {
    hide Span, IntervalOf, Sound, Converted;
    SoundSpans(periods);
    if periods == [] {
      NothingConverts(z, d);
    } else {
      var n := |periods| - 1;
      SoundInFront(periods, n);
      ConvertedPeriods(z, d, periods[..n], x);
      ConvertedLast(z, d, periods);
      assert forall p :: p in periods <==> p in periods[..n] || p == periods[n] by {
        assert periods == periods[..n] + [periods[n]];
      }
    }
  }

  lemma DateHoldsItsPeriods(cal: Calendar, z: Zone, d: int, x: Interval)
    requires ValidCalendar(cal)
    ensures x in DaysOf(cal, z)(d) <==> exists p :: p in PeriodsFor(cal, d) && FromPeriod(z, d, p, x)
  {
    hide ValidCalendar, PeriodsFor, Sound, Converted, SortByStart, FromPeriod;
    PeriodsAreSound(cal, d);
    ConvertedPeriods(z, d, PeriodsFor(cal, d), x);
    var s := Converted(z, d, PeriodsFor(cal, d)).value;
    SortKeepsElements(s);
    assert x in SortByStart(s) <==> x in multiset(SortByStart(s));
    assert x in s <==> x in multiset(s);
  }

  /* ------------------------------------------------------------ one date */

  lemma DisjointStartsAscend(s: seq<Interval>)
    requires StartsAscend(s) && forall i | 0 <= i < |s| :: s[i].start < s[i].end
    ensures Ascending(s) <==> Disjoint(s)
  {
    if Disjoint(s) {
      forall i, j | 0 <= i < j < |s|
        ensures s[i].end <= s[j].start
      {
        assert Inside(s[j], s[j].start);
      }
    }
  }

  lemma DateInOrderIff(cal: Calendar, z: Zone, d: int, T: Instant, a: int, b: int)
    requires ValidCalendar(cal) && Settled(z) && OneChangeOn(z, d, T, a, b)
    ensures forall p | p in PeriodsFor(cal, d) :: Span(p).Success?
    ensures Ascending(DaysOf(cal, z)(d)) <==> NoClash(d, T, a, b, PeriodsFor(cal, d))
  {
    hide ValidCalendar, PeriodsFor, Settled, OneChangeOn, NoClash, Span, OpenIntervals, FromReadings, Disjoint, Ascending, StartsAscend, Measures;
    DateMeasuresIffNoClash(z, d, T, a, b, cal);
    DateStartsAscend(cal, z, d);
    DateIntervalsFromReadings(cal, z, d);
    var s := DaysOf(cal, z)(d);
    forall i | 0 <= i < |s|
      ensures s[i].start < s[i].end
    {
      assert s[i] in s;
      ReadingsAreNotEmpty(z, d, s[i]);
    }
    DisjointStartsAscend(s);
    SummingIsCountingIffDisjoint(s);
  }

  /* ------------------------------------------------------------ two dates */

  // The intervals of a date end before those of the next begin.
  ghost predicate NextBeginsLater(days: Days, d: int) {
    forall x, y | x in days(d) && y in days(d + 1) :: x.end <= y.start
  }

  lemma SoundSpan(periods: seq<OpenPeriod>, p: OpenPeriod)
    requires Sound(periods) && p in periods
    ensures Span(p).Success? && Span(p).value.0 < Span(p).value.1 <= 1440
  {
  }

  lemma WithinBothDates(z: Zone, d: int, T: Instant, a: int, b: int, periods: seq<OpenPeriod>, e: int, p: OpenPeriod)
    requires OneChangeOnTwo(z, d, T, a, b) && Sound(periods) && p in periods && d <= e <= d + 1
    ensures Span(p).Success? && OneChangeAroundBoth(z, Walls(p, e), T, a, b)
  {
    hide OneChangeAround, Span, Sound;
    SoundSpan(periods, p);
    MinutesWithinDate(e, Span(p).value.0, Span(p).value.1);
    assert Walls(p, e).start <= (e + 1) * DAY <= (d + 2) * DAY;
  }

  // Two periods, one of each date, come out in order exactly where they do not cross.
  lemma ConvertedInOrderIff(z: Zone, d: int, T: Instant, a: int, b: int,
                            today: seq<OpenPeriod>, tomorrow: seq<OpenPeriod>, p: OpenPeriod, q: OpenPeriod)
    requires OneChangeOnTwo(z, d, T, a, b) && Sound(today) && Sound(tomorrow) && p in today && q in tomorrow
    ensures Span(p).Success? && Span(q).Success?
    ensures Crosses(T, a, b, Walls(p, d), Walls(q, d + 1)) <==>
            var x, y := IntervalOf(z, p, d), IntervalOf(z, q, d + 1);
            FromPeriod(z, d, p, x) && FromPeriod(z, d + 1, q, y) && y.start < x.end
  {
    hide Sound, Span, OneChangeOnTwo, OneChangeAround, WallToUtc, Swaps, Collapses;
    WithinBothDates(z, d, T, a, b, today, d, p);
    WithinBothDates(z, d, T, a, b, tomorrow, d + 1, q);
    SoundSpan(today, p);
    SoundSpan(tomorrow, q);
    MinutesWithinDate(d, Span(p).value.0, Span(p).value.1);
    MinutesWithinDate(d + 1, Span(q).value.0, Span(q).value.1);
    var v, w := Walls(p, d), Walls(q, d + 1);
    ConversionSwapsIff(z, T, a, b, v.start, v.end);
    ConversionSwapsIff(z, T, a, b, w.start, w.end);
    ConversionSwapsIff(z, T, a, b, v.end, w.start);
  }

  lemma NextBeginsLaterIff(cal: Calendar, z: Zone, d: int, T: Instant, a: int, b: int)
    requires ValidCalendar(cal) && OneChangeOnTwo(z, d, T, a, b)
    ensures NextBeginsLater(DaysOf(cal, z), d) <==> NoCrossing(d, T, a, b, PeriodsFor(cal, d), PeriodsFor(cal, d + 1))
  {
    hide ValidCalendar, PeriodsFor, OneChangeOnTwo, Sound, Span, DaysOf, IntervalOf, Crosses;
    PeriodsAreSound(cal, d);
    PeriodsAreSound(cal, d + 1);
    var today, tomorrow := PeriodsFor(cal, d), PeriodsFor(cal, d + 1);
    var days := DaysOf(cal, z);
    if NoCrossing(d, T, a, b, today, tomorrow) {
      forall x, y | x in days(d) && y in days(d + 1)
        ensures x.end <= y.start
      {
        DateHoldsItsPeriods(cal, z, d, x);
        DateHoldsItsPeriods(cal, z, d + 1, y);
        var p :| p in today && FromPeriod(z, d, p, x);
        var q :| q in tomorrow && FromPeriod(z, d + 1, q, y);
        ConvertedInOrderIff(z, d, T, a, b, today, tomorrow, p, q);
      }
    } else {
      var p, q :| p in today && q in tomorrow && Span(p).Success? && Span(q).Success? && Crosses(T, a, b, Walls(p, d), Walls(q, d + 1));
      ConvertedInOrderIff(z, d, T, a, b, today, tomorrow, p, q);
      DateHoldsItsPeriods(cal, z, d, IntervalOf(z, p, d));
      DateHoldsItsPeriods(cal, z, d + 1, IntervalOf(z, q, d + 1));
    }
  }

  lemma DateAndNextIff(cal: Calendar, z: Zone, d: int, T: Instant, a: int, b: int)
    requires ValidCalendar(cal) && Settled(z) && OneChangeOnTwo(z, d, T, a, b)
    ensures HoursKeepOrder(cal, d, T, a, b) <==> Ascending(DaysOf(cal, z)(d)) && NextBeginsLater(DaysOf(cal, z), d)
  {
    assert OneChangeOn(z, d, T, a, b) by {
      hide OneChangeAround;
    }
    hide ValidCalendar, PeriodsFor, Settled, OneChangeOn, OneChangeOnTwo, NoClash, NoCrossing, Ascending, NextBeginsLater, DaysOf, Span;
    DateInOrderIff(cal, z, d, T, a, b);
    NextBeginsLaterIff(cal, z, d, T, a, b);
  }

  /* ------------------------------------------------------------ all dates */

  lemma InOrderIsPairwise(cal: Calendar, z: Zone)
    requires ValidCalendar(cal) && Settled(z)
    ensures InOrder(DaysOf(cal, z)) <==> forall d :: Ascending(DaysOf(cal, z)(d)) && NextBeginsLater(DaysOf(cal, z), d)
  {
    hide ValidCalendar, Settled, DaysOf, FromReadings, Ascending, Yields, StartsAscend;
    var days := DaysOf(cal, z);
    CalendarIsFromItsDates(cal, z);
    if forall d :: Ascending(days(d)) && NextBeginsLater(days, d) {
      forall d, e, i: nat, j: nat | d < e && i < |days(d)| && j < |days(e)|
        ensures days(d)[i].end <= days(e)[j].start
      {
        if e == d + 1 {
          assert NextBeginsLater(days, d);
          assert days(d)[i] in days(d) && days(d + 1)[j] in days(d + 1);
        } else {
          DatesApartAreInOrder(z, d, days(d)[i], e, days(e)[j]);
        }
      }
    }
    if InOrder(days) {
      forall d, x, y | x in days(d) && y in days(d + 1)
        ensures x.end <= y.start
      {
      }
    }
  }

  // Around every date, whatever change is near, the hours written keep their order.
  ghost predicate AllHoursKeepOrder(cal: Calendar, z: Zone)
    requires ValidCalendar(cal)
  {
    forall d, T, a, b :: OneChangeOnTwo(z, d, T, a, b) ==> HoursKeepOrder(cal, d, T, a, b)
  }

  /**
   * The intervals of all dates are in order if and only if, around every change,
   * no two periods of a date clash and none crosses one of the next date.
   */
  lemma InOrderIff(cal: Calendar, z: Zone)
    requires ValidCalendar(cal) && Settled(z)
    ensures InOrder(DaysOf(cal, z)) <==> AllHoursKeepOrder(cal, z)
  {
    hide ValidCalendar, Settled, DaysOf, OneChangeOnTwo, HoursKeepOrder, Ascending, NextBeginsLater, InOrder;
    var days := DaysOf(cal, z);
    InOrderIsPairwise(cal, z);
    if AllHoursKeepOrder(cal, z) {
      forall d
        ensures Ascending(days(d)) && NextBeginsLater(days, d)
      {
        SettledHasOneChangeOnTwo(z, d);
        var T, a, b :| OneChangeOnTwo(z, d, T, a, b);
        DateAndNextIff(cal, z, d, T, a, b);
      }
    }
    if InOrder(days) {
      forall d, T, a, b | OneChangeOnTwo(z, d, T, a, b)
        ensures HoursKeepOrder(cal, d, T, a, b)
      {
        DateAndNextIff(cal, z, d, T, a, b);
      }
    }
  }

  /** So that is when every range that can be measured is measured exactly. */
  lemma MeasuresExactlyIffHoursKeepOrder(cal: Calendar, z: Zone)
    requires ValidCalendar(cal) && cal.zone == Some(z) && Settled(z) && KeepsOpening(DaysOf(cal, z))
    ensures MeasuresExactly(cal, z) <==> AllHoursKeepOrder(cal, z)
  {
    hide ValidCalendar, Settled, DaysOf, InOrder, AllHoursKeepOrder, MeasuresExactly;
    MeasuresExactlyIff(cal, z);
    InOrderIff(cal, z);
  }

  /* ------------------------------------------------------------ calendars that keep opening */

  // Local clocks do not change from the day before this date to the day after the week it begins.
  ghost predicate QuietWeek(z: Zone, e: int) {
    forall t :: (e - 1) * DAY <= t <= (e + 8) * DAY ==> z(t) == z((e - 1) * DAY)
  }

  // Of any 2990 dates some week is quiet, as in every zone with a few changes a year.
  ghost predicate QuietNowAndThen(z: Zone) {
    forall d: int :: QuietSoon(z, d)
  }

  ghost predicate QuietSoon(z: Zone, d: int) {
    exists e :: d <= e <= d + 2990 && QuietWeek(z, e)
  }

  lemma WeekHasWeekday(e: int, w: Weekday) returns (day: int)
    ensures e <= day <= e + 6 && WeekdayOf(day) == w
  {
    var n := match w case Sun => 0 case Mon => 1 case Tue => 2 case Wed => 3 case Thu => 4 case Fri => 5 case Sat => 6;
    day := e + (n - (e + 4)) % 7;
    assert (day + 4) % 7 == n;
  }

  lemma QuietDateOpens(cal: Calendar, z: Zone, e: int, day: int)
    requires ValidCalendar(cal) && Settled(z) && QuietWeek(z, e) && e <= day <= e + 6 && PeriodsFor(cal, day) != []
    ensures DaysOf(cal, z)(day) != []
  {
    hide ValidCalendar, PeriodsFor, Sound, Span, DaysOf, QuietWeek, WallToUtc;
    PeriodsAreSound(cal, day);
    var p := PeriodsFor(cal, day)[0];
    SoundSpan(PeriodsFor(cal, day), p);
    MinutesWithinDate(day, Span(p).value.0, Span(p).value.1);
    var w := Walls(p, day);
    QuietReading(z, e, w.start);
    QuietReading(z, e, w.end);
    DateHoldsItsPeriods(cal, z, day, IntervalOf(z, p, day));
    assert FromPeriod(z, day, p, IntervalOf(z, p, day));
  }

  lemma QuietReading(z: Zone, e: int, wall: Wall)
    requires Settled(z) && QuietWeek(z, e) && e * DAY <= wall <= (e + 7) * DAY
    ensures WallToUtc(z, wall) == wall - z((e - 1) * DAY)
  {
    ConversionTwoPasses(z, wall);
  }

  /** Weekly hours without exceptions keep opening, in every zone that is quiet now and then. */
  lemma WeeklyHoursKeepOpening(cal: Calendar, z: Zone)
    requires ValidCalendar(cal) && cal.exceptions == [] && Settled(z) && QuietNowAndThen(z)
    ensures KeepsOpening(DaysOf(cal, z))
  {
    assert exists w :: w in cal.hours && |cal.hours[w]| > 0;
    var w :| w in cal.hours && |cal.hours[w]| > 0;
    var days := DaysOf(cal, z);
    hide ValidCalendar, Settled, QuietWeek, DaysOf, WeekdayOf;
    forall d
      ensures OpensSoon(days, d)
    {
      assert QuietSoon(z, d);
      var e :| d <= e <= d + 2990 && QuietWeek(z, e);
      var day := WeekHasWeekday(e, w);
      assert PeriodsFor(cal, day) == cal.hours[w];
      QuietDateOpens(cal, z, e, day);
    }
  }

  /** So of weekly hours the condition decides, in all those zones. */
  lemma WeeklyHoursMeasureExactlyIff(cal: Calendar, z: Zone)
    requires ValidCalendar(cal) && cal.zone == Some(z) && cal.exceptions == [] && Settled(z) && QuietNowAndThen(z)
    ensures MeasuresExactly(cal, z) <==> AllHoursKeepOrder(cal, z)
  {
    hide ValidCalendar, Settled, DaysOf, AllHoursKeepOrder, MeasuresExactly, QuietNowAndThen, KeepsOpening;
    WeeklyHoursKeepOpening(cal, z);
    MeasuresExactlyIffHoursKeepOrder(cal, z);
  }
}
