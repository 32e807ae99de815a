/**
 * London on 29 March 2026, when 01:00 becomes 02:00: which hours working time can
 * be relied on for, and hours it counts twice
 * (`packages/business-time/src/index.ts`).
 */
module LondonSpring {
  import opened Wrappers
  import opened Zones
  import opened BusinessCalendar
  import opened OpenTime
  import opened Timetable
  import opened BusinessTime
  import opened CalendarLaws
  import opened ClockChanges
  import opened EveryDay
  import opened TwoPeriods
  import opened MeasuredTime

  const SPRING_DATE: int := 20541
  const LONDON_SPRING: Instant := SPRING_DATE * DAY + HOUR

  function London(t: Instant): int {
    if t < LONDON_SPRING then 0 else HOUR
  }

  lemma LondonIsSettled()
    ensures Settled(London) && DatesNeverGoBack(London)
  {
    forall lo
      ensures SettledFrom(London, lo)
    {
      assert SmallChange(London, lo, LONDON_SPRING, 0, HOUR);
    }
    forall s, t | s <= t
      ensures LocalDay(London, s) <= LocalDay(London, t)
    {
      DayBrackets(LocalTime(London, s), LocalDay(London, s));
      DayBrackets(LocalTime(London, t), LocalDay(London, s));
    }
  }

  // Only that night's second hour is skipped.
  lemma LondonWallExists(wall: Wall)
    ensures WallExists(London, wall) <==> !InGap(wall, LONDON_SPRING, 0, HOUR)
  {
    if wall < LONDON_SPRING {
      assert LocalTime(London, wall) == wall;
    } else if wall >= LONDON_SPRING + HOUR {
      assert LocalTime(London, wall - HOUR) == wall;
    }
  }

  lemma OtherDatesKeepOrder(day: int, periods: seq<OpenPeriod>)
    requires Sound(periods) && day != SPRING_DATE
    ensures DateKeepsOrder(London, day, periods)
  {
    LondonIsSettled();
    hide Settled, DateKeepsOrder, Span, WallExists;
    forall p | p in periods && Span(p).Success?
      ensures WallExists(London, Walls(p, day).start) && WallExists(London, Walls(p, day).end)
    {
      var w := Walls(p, day);
      var i :| 0 <= i < |periods| && periods[i] == p;
      MinutesWithinDate(day, Span(p).value.0, Span(p).value.1);
      LondonWallExists(w.start);
      LondonWallExists(w.end);
    }
    ExistingBoundariesKeepOrder(London, day, periods);
  }

  /** A valid calendar in London can be relied on exactly when that one date's periods keep their order. */
  lemma LondonIsDependableIff(cal: Calendar)
    requires ValidCalendar(cal) && cal.zone == Some(London)
    ensures Dependable(cal, London) <==> DateKeepsOrder(London, SPRING_DATE, PeriodsFor(cal, SPRING_DATE))
  {
    LondonIsSettled();
    hide ValidCalendar, PeriodsFor, DateKeepsOrder, Settled, DatesNeverGoBack, Sound;
    if DateKeepsOrder(London, SPRING_DATE, PeriodsFor(cal, SPRING_DATE)) {
      forall day
        ensures DateKeepsOrder(London, day, PeriodsFor(cal, day))
      {
        PeriodsAreSound(cal, day);
        if day != SPRING_DATE {
          OtherDatesKeepOrder(day, PeriodsFor(cal, day));
        }
      }
    }
  }

  lemma OnePeriodIsDependable(dateKey: int -> string, from: nat, to: nat)
    requires from < to <= 1440
    requires var w := Interval(SPRING_DATE * DAY + from * MINUTE, SPRING_DATE * DAY + to * MINUTE);
             StaysWithin(London, SPRING_DATE, ConvertedInterval(London, w))
    ensures Dependable(EveryDayOpen(London, dateKey, [Hours(from, to)]), London)
  {
    hide Hours, Span, WallToUtc, London, Dependable, ValidCalendar, PeriodsFor, Sound;
    var periods := [Hours(from, to)];
    OnePeriodIsSound(from, to);
    HoursSpan(from, to);
    EveryDayIsValid(London, dateKey, periods);
    EveryDayPeriods(London, dateKey, periods, SPRING_DATE);
    LondonIsDependableIff(EveryDayOpen(London, dateKey, periods));
  }

  /** Office hours can be relied on through the change. */
  lemma OfficeHoursAreDependable(dateKey: int -> string)
    ensures Dependable(EveryDayOpen(London, dateKey, [Hours(9 * 60, 17 * 60)]), London)
  {
    OnePeriodIsDependable(dateKey, 9 * 60, 17 * 60);
  }

  /** So can hours that begin inside the skipped one, 01:15 to 03:00. */
  lemma OpeningWhileSkippedIsDependable(dateKey: int -> string)
    ensures Dependable(EveryDayOpen(London, dateKey, [Hours(75, 180)]), London)
  {
    OnePeriodIsDependable(dateKey, 75, 180);
  }

  /* ------------------------------------------------------------ counted twice */

  const NIGHT_FROM: Instant := SPRING_DATE * DAY
  const NIGHT_TO: Instant := SPRING_DATE * DAY + 2 * HOUR

  const NIGHT: Pattern := Pattern(0, 105, 120, 180)

  // Open from midnight to 01:45 and from 02:00 to 03:00, every night.
  function NightHours(dateKey: int -> string): Calendar {
    TwiceADay(London, dateKey, NIGHT)
  }

  lemma NightsConvert()
    ensures Converts(London, NIGHT)
  {
  }

  lemma NightsAreSettled()
    ensures Converts(London, NIGHT) && Settled(London) && LocalDay(London, NIGHT_FROM - DAY) == SPRING_DATE - 1
  {
    NightsConvert();
    LondonIsSettled();
    hide Converts, Settled, DatesNeverGoBack;
    assert London(NIGHT_FROM - DAY) == 0;
  }

  lemma NightHoursTally(dateKey: int -> string)
    ensures Elapsed(NightHours(dateKey), NIGHT_FROM, NIGHT_TO) == Success(165 * MINUTE)
  {
    hide Elapsed, Settled, TallyThree, Both, Converts, TwiceADay, London, LocalDay;
    NightsAreSettled();
    ThreeNights();
    ThreeDatesDecide(London, dateKey, NIGHT, SPRING_DATE - 1, NIGHT_FROM, NIGHT_TO);
  }

  /**
   * In the two hours from midnight that night, `elapsedBusinessMs` measures two
   * and three quarters.
   */
  lemma NightHoursCountTwice(dateKey: int -> string)
    ensures ValidCalendar(NightHours(dateKey))
    ensures Elapsed(NightHours(dateKey), NIGHT_FROM, NIGHT_TO) == Success(165 * MINUTE)
    ensures forall open {:trigger OpenMs(open, NIGHT_FROM, NIGHT_TO)} ::
              OpenMs(open, NIGHT_FROM, NIGHT_TO) <= 120 * MINUTE
  {
    hide Elapsed, OpenMs, ValidCalendar, TwiceADay, London;
    TwiceADayIsValid(London, dateKey, NIGHT);
    NightHoursTally(dateKey);
    forall open {:trigger OpenMs(open, NIGHT_FROM, NIGHT_TO)}
      ensures OpenMs(open, NIGHT_FROM, NIGHT_TO) <= 120 * MINUTE
    {
      OpenMsAtMost(open, NIGHT_FROM, NIGHT_TO);
    }
  }

  lemma EachNight()
    ensures Both(London, NIGHT, SPRING_DATE - 1) ==
            [Interval(NIGHT_FROM - DAY, NIGHT_FROM - DAY + 105 * MINUTE), Interval(NIGHT_FROM - DAY + 120 * MINUTE, NIGHT_FROM - DAY + 180 * MINUTE)]
    ensures Both(London, NIGHT, SPRING_DATE) ==
            [Interval(NIGHT_FROM, NIGHT_FROM + 105 * MINUTE), Interval(NIGHT_FROM + 60 * MINUTE, NIGHT_FROM + 120 * MINUTE)]
    ensures Both(London, NIGHT, SPRING_DATE + 1)[0] == Interval(NIGHT_FROM + DAY - HOUR, NIGHT_FROM + DAY + 45 * MINUTE)
  {
  }

  lemma ThreeNights()
    ensures TallyThree(Both(London, NIGHT, SPRING_DATE - 1), Both(London, NIGHT, SPRING_DATE), Both(London, NIGHT, SPRING_DATE + 1),
                         NIGHT_FROM, NIGHT_TO) == Stopped(165 * MINUTE)
  {
    hide TallyOf, ReadingsInterval;
    EachNight();
    TallyOfBoth(Both(London, NIGHT, SPRING_DATE - 1)[0], Both(London, NIGHT, SPRING_DATE - 1)[1], NIGHT_FROM, NIGHT_TO);
    TallyOfBoth(Both(London, NIGHT, SPRING_DATE)[0], Both(London, NIGHT, SPRING_DATE)[1], NIGHT_FROM, NIGHT_TO);
    TallyOfBoth(Both(London, NIGHT, SPRING_DATE + 1)[0], Both(London, NIGHT, SPRING_DATE + 1)[1], NIGHT_FROM, NIGHT_TO);
  }

  /** These hours open every night, and are out of order on that one. */
  lemma NightHoursAreOutOfOrder(dateKey: int -> string)
    ensures KeepsOpening(DaysOf(NightHours(dateKey), London)) && !InOrder(DaysOf(NightHours(dateKey), London))
  {
    var days := DaysOf(NightHours(dateKey), London);
    NightsConvert();
    NightsCross();
    hide Converts, TwiceADay, ReadingsInterval, London;
    DatesHaveBoth(London, dateKey, NIGHT);
    forall d
      ensures OpensSoon(days, d)
    {
      assert days(d) == Both(London, NIGHT, d);
      assert days(d) != [];
    }
    hide DaysOf;
    assert days(SPRING_DATE) == Both(London, NIGHT, SPRING_DATE);
    assert !Ascending(days(SPRING_DATE));
  }

  lemma NightsCross()
    ensures Both(London, NIGHT, SPRING_DATE)[0].end > Both(London, NIGHT, SPRING_DATE)[1].start
  {
  }
}
