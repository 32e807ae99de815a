/**
 * Santiago on 7 September 2025, when 00:00 becomes 01:00: hours that working time
 * misses (`packages/business-time/src/index.ts`).
 */
module SantiagoSpring {
  import opened Wrappers
  import opened Zones
  import opened BusinessCalendar
  import opened OpenTime
  import opened Timetable
  import opened BusinessTime
  import opened CalendarLaws
  import opened HiddenHours
  import opened MeasuredTime
  import opened TwoPeriods

  const SPRING_DATE: int := 20338

  // Open from 00:10 to 00:40, which is skipped that night, and from 23:45 to 23:59.
  const LATE: Pattern := Pattern(10, 40, 1425, 1439)

  lemma SantiagoIsSettled()
    ensures Settled(Santiago)
  {
    forall lo
      ensures SettledFrom(Santiago, lo)
    {
      assert SmallChange(Santiago, lo, SANTIAGO_SPRING, -4 * HOUR, -3 * HOUR);
    }
  }

  lemma LateConverts()
    ensures Converts(Santiago, LATE)
  {
    hide ReadingsInterval, WallToUtc, Santiago;
    forall day
      ensures var s := Both(Santiago, LATE, day); s[0].start < s[0].end && s[1].start < s[1].end && s[0].start <= s[1].start
    {
      EarlyConverts(day);
      LastMinutesConvert(day);
    }
  }

  lemma EarlyConverts(day: int)
    ensures var i := ReadingsInterval(Santiago, day, LATE.a, LATE.b);
            i.start < i.end < day * DAY + 8 * HOUR
  {
  }

  lemma LastMinutesConvert(day: int)
    ensures var i := ReadingsInterval(Santiago, day, LATE.c, LATE.e);
            day * DAY + 20 * HOUR < i.start < i.end
  {
  }

  /** The half hour after midnight comes before the last minutes of the date before it. */
  lemma SkippedHalfHourIsReversed(dateKey: int -> string)
    ensures Reversed(DaysOf(TwiceADay(Santiago, dateKey, LATE), Santiago), SPRING_DATE - 1, 1, SPRING_DATE, 0)
  {
    LateConverts();
    LateCrosses();
    hide Converts, TwiceADay, ReadingsInterval, Santiago;
    DatesHaveBoth(Santiago, dateKey, LATE);
    var days := DaysOf(TwiceADay(Santiago, dateKey, LATE), Santiago);
    assert days(SPRING_DATE - 1) == Both(Santiago, LATE, SPRING_DATE - 1);
    assert days(SPRING_DATE) == Both(Santiago, LATE, SPRING_DATE);
  }

  lemma LateCrosses()
    ensures Both(Santiago, LATE, SPRING_DATE)[0].end <= Both(Santiago, LATE, SPRING_DATE - 1)[1].start
    ensures Both(Santiago, LATE, SPRING_DATE)[0] == Interval(SPRING_DATE * DAY + 190 * MINUTE, SPRING_DATE * DAY + 220 * MINUTE)
  {
  }

  const FROM: Instant := SPRING_DATE * DAY + 190 * MINUTE
  const TO: Instant := SPRING_DATE * DAY + 220 * MINUTE

  lemma HalfHourTally(dateKey: int -> string)
    ensures Elapsed(TwiceADay(Santiago, dateKey, LATE), FROM, TO) == Success(0)
  {
    hide Elapsed, Settled, TallyThree, Both, Converts, TwiceADay, Santiago, LocalDay;
    LateConverts();
    SantiagoIsSettled();
    DateOfDayBefore();
    ThreeNights();
    ThreeDatesDecide(Santiago, dateKey, LATE, SPRING_DATE - 2, FROM, TO);
  }

  lemma DateOfDayBefore()
    ensures LocalDay(Santiago, FROM - DAY) == SPRING_DATE - 2
  {
  }

  lemma HalfHourIsOpen(dateKey: int -> string)
    ensures OpenMs(Openness(DaysOf(TwiceADay(Santiago, dateKey, LATE), Santiago)), FROM, TO) == 30 * MINUTE
  {
    hide OpenMs, Converts, TwiceADay, Santiago, DaysOf, ReadingsInterval;
    LateConverts();
    LateCrosses();
    DatesHaveBoth(Santiago, dateKey, LATE);
    var days := DaysOf(TwiceADay(Santiago, dateKey, LATE), Santiago);
    assert days(SPRING_DATE)[0] == Interval(FROM, TO);
    forall t | FROM <= t < TO
      ensures Openness(days)(t)
    {
      assert Inside(days(SPRING_DATE)[0], t);
      assert Covers(days(SPRING_DATE), t);
    }
    OpenMsAll(Openness(days), FROM, TO);
  }

  /** Over that half hour, all of it open, `elapsedBusinessMs` measures nothing. */
  lemma SkippedHalfHourIsMissed(dateKey: int -> string)
    ensures var cal := TwiceADay(Santiago, dateKey, LATE);
            && ValidCalendar(cal) && cal.zone == Some(Santiago)
            && Elapsed(cal, FROM, TO) == Success(0)
            && OpenMs(Openness(DaysOf(cal, Santiago)), FROM, TO) == 30 * MINUTE
  {
    hide Elapsed, OpenMs, ValidCalendar, TwiceADay, Santiago, DaysOf;
    TwiceADayIsValid(Santiago, dateKey, LATE);
    HalfHourTally(dateKey);
    HalfHourIsOpen(dateKey);
  }

  lemma EachNight()
    ensures Both(Santiago, LATE, SPRING_DATE - 2) ==
            [Interval(FROM - 2 * DAY + HOUR, TO - 2 * DAY + HOUR), Interval(FROM - DAY - 25 * MINUTE + HOUR, FROM - DAY - 11 * MINUTE + HOUR)]
    ensures Both(Santiago, LATE, SPRING_DATE - 1) ==
            [Interval(FROM - DAY + HOUR, TO - DAY + HOUR), Interval(FROM + 35 * MINUTE, FROM + 49 * MINUTE)]
  {
  }

  lemma ThreeNights()
    ensures TallyThree(Both(Santiago, LATE, SPRING_DATE - 2), Both(Santiago, LATE, SPRING_DATE - 1), Both(Santiago, LATE, SPRING_DATE), FROM, TO)
            == Stopped(0)
  {
    hide TallyOf, ReadingsInterval;
    EachNight();
    TallyOfBoth(Both(Santiago, LATE, SPRING_DATE - 2)[0], Both(Santiago, LATE, SPRING_DATE - 2)[1], FROM, TO);
    TallyOfBoth(Both(Santiago, LATE, SPRING_DATE - 1)[0], Both(Santiago, LATE, SPRING_DATE - 1)[1], FROM, TO);
  }
}
