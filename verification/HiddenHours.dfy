/**
 * Exactly when `isOpen` answers for the whole calendar: it looks at two local
 * dates, and a clock change around midnight can put an instant inside another's
 * hours (`packages/business-time/src/index.ts`).
 */
module HiddenHours {
  import opened Wrappers
  import opened Zones
  import opened BusinessCalendar
  import opened OpenTime
  import opened BusinessTime
  import opened CalendarLaws
  import opened BusinessLaws
  import opened EveryDay

  /* ------------------------------------------------------------ around the clock */

  // Every date has one interval, from its midnight to the next.
  ghost predicate NeverCloses(cal: Calendar, z: Zone) {
    && cal.zone == Some(z)
    && forall day :: OpenIntervals(cal, z, day) == Success([DateInterval(z, day)])
  }

  ghost function DateInterval(z: Zone, day: int): Interval {
    Interval(WallToUtc(z, day * DAY), WallToUtc(z, (day + 1) * DAY))
  }

  /** The product's round-the-clock hours never close, wherever each midnight comes after the last. */
  lemma AroundTheClockNeverCloses(z: Zone, dateKey: int -> string)
    requires forall day {:trigger DateInterval(z, day)} :: DateInterval(z, day).start < DateInterval(z, day).end
    ensures NeverCloses(EveryDayOpen(z, dateKey, [Hours(0, 1440)]), z)
  {
    var p := Hours(0, 1440);
    var cal := EveryDayOpen(z, dateKey, [p]);
    HoursSpan(0, 1440);
    hide OpenIntervals, PeriodsFor, Span, Hours, WallToUtc;
    forall day
      ensures OpenIntervals(cal, z, day) == Success([DateInterval(z, day)])
    {
      EveryDayPeriods(z, dateKey, [p], day);
      PeriodConverts(z, day, p);
      OnePeriodDate(cal, z, day, p, DateInterval(z, day));
    }
  }

  lemma OnePeriodDate(cal: Calendar, z: Zone, day: int, p: OpenPeriod, i: Interval)
    requires PeriodsFor(cal, day) == [p] && PeriodInterval(z, day, p) == Success(i) && i.start < i.end
    ensures OpenIntervals(cal, z, day) == Success([i])
  {
    hide PeriodsFor, PeriodInterval;
    assert [p][..0] == [];
    assert Converted(z, day, []) == Success([]);
    assert [] + [i] == [i];
    assert Converted(z, day, [p]) == Success([i]);
    assert [i][..0] == [];
    assert SortByStart([]) == [];
    assert SortByStart([i]) == InsertByStart([], i) == [i];
  }

  // Ten days around t with at most one change, of under twelve hours.
  ghost predicate OneChangeNear(z: Zone, t: Instant, T: Instant, a: int, b: int) {
    && (forall u :: Ordinary(z, u))
    && -DAY < a < DAY && -DAY < b < DAY && -12 * HOUR < b - a < 12 * HOUR
    && OneChange(z, t - 5 * DAY, t + 5 * DAY, T, a, b)
  }

  // Where `isOpen` looks away: the next midnight is repeated, or is skipped, west of
  // UTC and has come already; or the last one is skipped, east of UTC, and is still to come.
  predicate LooksAway(T: Instant, a: int, b: int, lastMidnight: Wall, t: Instant) {
    var next := lastMidnight + DAY;
    || (next < T && InOverlap(next, T, a, b) && T <= t)
    || (next < T && InGap(next, T, a, b) && t < T && next - b <= t)
    || (T <= lastMidnight && InGap(lastMidnight, T, a, b) && T <= t < lastMidnight - a)
  }

  lemma NeverClosedAnswer(cal: Calendar, z: Zone, t: Instant)
    requires NeverCloses(cal, z)
    ensures IsOpen(cal, t) == Success(Inside(DateInterval(z, LocalDay(z, t - DAY)), t) || Inside(DateInterval(z, LocalDay(z, t)), t))
  {
    hide OpenIntervals, DateInterval;
    var previous, today := [DateInterval(z, LocalDay(z, t - DAY))], [DateInterval(z, LocalDay(z, t))];
    IsOpenOverDates(cal, z, t, previous, today);
    CoversConcat(previous, today, t);
    CoversOne(previous[0], t);
    CoversOne(today[0], t);
  }

  lemma CoversOne(i: Interval, t: Instant)
    ensures Covers([i], t) <==> Inside(i, t)
  {
    assert [i][0] == i;
  }

  // The conversion, solved.
  function Solved(T: Instant, a: int, b: int, wall: Wall): Instant {
    if InGap(wall, T, a, b) then (if wall >= T then wall - a else wall - b)
    else if InOverlap(wall, T, a, b) then (if wall >= T then wall - b else wall - a)
    else if wall < T + a then wall - a else wall - b
  }

  lemma MidnightSolved(z: Zone, t: Instant, T: Instant, a: int, b: int, midnight: Wall)
    requires OneChangeNear(z, t, T, a, b) && t - 4 * DAY <= midnight <= t + 4 * DAY
    ensures WallToUtc(z, midnight) == Solved(T, a, b, midnight)
  {
    WallToUtcSolved(z, midnight, T, a, b);
  }

  // A change is small, and t reads the date that begins at d0.
  predicate ReadsDate(T: Instant, a: int, b: int, d0: Wall, t: Instant) {
    && -DAY < a < DAY && -DAY < b < DAY && -12 * HOUR < b - a < 12 * HOUR
    && d0 <= t + (if t < T then a else b) < d0 + DAY
  }

  predicate InsideSolved(T: Instant, a: int, b: int, midnight: Wall, t: Instant) {
    Solved(T, a, b, midnight) <= t < Solved(T, a, b, midnight + DAY)
  }

  // Local time around t, and 24 hours before.
  lemma DateNear(z: Zone, t: Instant, T: Instant, a: int, b: int)
    requires OneChangeNear(z, t, T, a, b)
    ensures var d0 := LocalDay(z, t) * DAY;
            ReadsDate(T, a, b, d0, t) && t - 2 * DAY < d0 < t + DAY
    ensures var e0 := LocalDay(z, t - DAY) * DAY;
            var before := t - DAY + (if t - DAY < T then a else b);
            e0 <= before < e0 + DAY
    ensures LocalDay(z, t) - 2 <= LocalDay(z, t - DAY) <= LocalDay(z, t)
  {
    DayBrackets(LocalTime(z, t), LocalDay(z, t));
    DayBrackets(LocalTime(z, t - DAY), LocalDay(z, t - DAY));
  }

  /** Around the clock, `isOpen` answers closed exactly there, though an interval of a date next to t's holds it. */
  lemma NeverClosedLooksClosedIff(cal: Calendar, z: Zone, t: Instant, T: Instant, a: int, b: int)
    requires NeverCloses(cal, z) && OneChangeNear(z, t, T, a, b)
    ensures IsOpen(cal, t) == Success(!LooksAway(T, a, b, LocalDay(z, t) * DAY, t))
    ensures exists day :: LocalDay(z, t) - 1 <= day <= LocalDay(z, t) + 1 && Covers(OpenIntervals(cal, z, day).value, t)
  {
    hide OpenIntervals, LooksAway, DateInterval, OneChangeNear, Ordinary;
    NeverClosedAnswer(cal, z, t);
    NeitherDateIff(z, t, T, a, b);
    SomeDateNear(z, t, T, a, b);
    var day :| LocalDay(z, t) - 1 <= day <= LocalDay(z, t) + 1 && Inside(DateInterval(z, day), t);
    CoversOne(DateInterval(z, day), t);
    assert OpenIntervals(cal, z, day) == Success([DateInterval(z, day)]);
  }

  lemma DateIntervalSolved(z: Zone, t: Instant, T: Instant, a: int, b: int, day: int)
    requires OneChangeNear(z, t, T, a, b) && t - 3 * DAY <= day * DAY <= t + 3 * DAY
    ensures Inside(DateInterval(z, day), t) <==> InsideSolved(T, a, b, day * DAY, t)
  {
    MidnightSolved(z, t, T, a, b, day * DAY);
    MidnightSolved(z, t, T, a, b, (day + 1) * DAY);
    assert (day + 1) * DAY == day * DAY + DAY;
    hide WallToUtc, OneChangeNear, Solved;
  }

  lemma NeitherDateIff(z: Zone, t: Instant, T: Instant, a: int, b: int)
    requires OneChangeNear(z, t, T, a, b)
    ensures !Inside(DateInterval(z, LocalDay(z, t - DAY)), t) && !Inside(DateInterval(z, LocalDay(z, t)), t) <==>
            LooksAway(T, a, b, LocalDay(z, t) * DAY, t)
  {
    hide OneChangeNear, LocalDay, DateInterval, InsideSolved, LooksAway, ReadsDate, Inside;
    var d, e := LocalDay(z, t), LocalDay(z, t - DAY);
    DateNear(z, t, T, a, b);
    var k := d - e;
    assert e * DAY == d * DAY - k * DAY;
    DateIntervalSolved(z, t, T, a, b, d);
    DateIntervalSolved(z, t, T, a, b, e);
    OutsideBoth(T, a, b, d * DAY, t, k);
  }

  lemma OutsideBoth(T: Instant, a: int, b: int, d0: Wall, t: Instant, k: int)
    requires ReadsDate(T, a, b, d0, t) && 0 <= k <= 2
    requires d0 - k * DAY <= t - DAY + (if t - DAY < T then a else b) < d0 - k * DAY + DAY
    ensures !InsideSolved(T, a, b, d0 - k * DAY, t) && !InsideSolved(T, a, b, d0, t) <==> LooksAway(T, a, b, d0, t)
  {
    if k == 0 {
      OutsideBothFrom(T, a, b, d0, t, 0);
    } else if k == 1 {
      OutsideBothFrom(T, a, b, d0, t, DAY);
    } else {
      OutsideBothFrom(T, a, b, d0, t, 2 * DAY);
    }
  }

  lemma OutsideBothFrom(T: Instant, a: int, b: int, d0: Wall, t: Instant, back: int)
    requires ReadsDate(T, a, b, d0, t) && (back == 0 || back == DAY || back == 2 * DAY)
    requires d0 - back <= t - DAY + (if t - DAY < T then a else b) < d0 - back + DAY
    ensures !InsideSolved(T, a, b, d0 - back, t) && !InsideSolved(T, a, b, d0, t) <==> LooksAway(T, a, b, d0, t)
  {
    if t < T {
    } else if t - DAY < T {
    } else {
    }
  }

  lemma SomeDateNear(z: Zone, t: Instant, T: Instant, a: int, b: int)
    requires OneChangeNear(z, t, T, a, b)
    ensures exists day :: LocalDay(z, t) - 1 <= day <= LocalDay(z, t) + 1 && Inside(DateInterval(z, day), t)
  {
    hide OneChangeNear, LocalDay, Solved, WallToUtc, ReadsDate;
    var d := LocalDay(z, t);
    DateNear(z, t, T, a, b);
    assert (d - 1) * DAY == d * DAY - DAY && (d + 2) * DAY == d * DAY + 2 * DAY;
    MidnightSolved(z, t, T, a, b, d * DAY - DAY);
    MidnightSolved(z, t, T, a, b, d * DAY + 2 * DAY);
    FarMidnights(T, a, b, d * DAY, t);
    SomeDateOfThree(z, d, t);
  }

  lemma SomeDateOfThree(z: Zone, d: int, t: Instant)
    requires WallToUtc(z, (d - 1) * DAY) <= t < WallToUtc(z, (d + 2) * DAY)
    ensures exists day :: d - 1 <= day <= d + 1 && Inside(DateInterval(z, day), t)
  {
    var w1, w2 := WallToUtc(z, d * DAY), WallToUtc(z, (d + 1) * DAY);
    hide WallToUtc;
    var day := if t < w1 then d - 1 else if t < w2 then d else d + 1;
    assert Inside(DateInterval(z, day), t);
  }

  lemma FarMidnights(T: Instant, a: int, b: int, d0: Wall, t: Instant)
    requires ReadsDate(T, a, b, d0, t)
    ensures Solved(T, a, b, d0 - DAY) <= t < Solved(T, a, b, d0 + 2 * DAY)
  {
  }

  /* ------------------------------------------------------------ two zones that did this */

  // Newfoundland, 7 November 2010: 00:01 goes back to 23:01 of the day before.
  const NEWFOUNDLAND_AUTUMN: Instant := 14920 * DAY + 2 * HOUR + 31 * MINUTE

  function Newfoundland(t: Instant): int {
    if t < NEWFOUNDLAND_AUTUMN then -150 * MINUTE else -210 * MINUTE
  }

  lemma NewfoundlandMidnights()
    ensures forall day {:trigger DateInterval(Newfoundland, day)} :: DateInterval(Newfoundland, day).start < DateInterval(Newfoundland, day).end
  {
  }

  /** Half past eleven, the second time that night, looked closed on a calendar that never closes. */
  lemma NewfoundlandLooksClosed(dateKey: int -> string)
    ensures var cal, t := EveryDayOpen(Newfoundland, dateKey, [Hours(0, 1440)]), NEWFOUNDLAND_AUTUMN + 29 * MINUTE;
            NeverCloses(cal, Newfoundland) && LocalTime(Newfoundland, t) == 14919 * DAY + 1410 * MINUTE && IsOpen(cal, t) == Success(false)
  {
    hide Hours;
    var t := NEWFOUNDLAND_AUTUMN + 29 * MINUTE;
    NewfoundlandMidnights();
    hide DateInterval;
    AroundTheClockNeverCloses(Newfoundland, dateKey);
    assert LocalDay(Newfoundland, t) == 14919;
    assert OneChangeNear(Newfoundland, t, NEWFOUNDLAND_AUTUMN, -150 * MINUTE, -210 * MINUTE);
    hide IsOpen, OneChangeNear, NeverCloses, Newfoundland;
    NeverClosedLooksClosedIff(EveryDayOpen(Newfoundland, dateKey, [Hours(0, 1440)]), Newfoundland, t,
                              NEWFOUNDLAND_AUTUMN, -150 * MINUTE, -210 * MINUTE);
  }

  // Santiago, 7 September 2025: midnight is skipped, 00:00 becomes 01:00.
  const SANTIAGO_SPRING: Instant := 20338 * DAY + 4 * HOUR

  function Santiago(t: Instant): int {
    if t < SANTIAGO_SPRING then -4 * HOUR else -3 * HOUR
  }

  lemma SantiagoMidnights()
    ensures forall day {:trigger DateInterval(Santiago, day)} :: DateInterval(Santiago, day).start < DateInterval(Santiago, day).end
  {
  }

  /** Half past eleven the evening before a skipped midnight looks closed too. */
  lemma SantiagoLooksClosed(dateKey: int -> string)
    ensures var cal, t := EveryDayOpen(Santiago, dateKey, [Hours(0, 1440)]), SANTIAGO_SPRING - 30 * MINUTE;
            NeverCloses(cal, Santiago) && LocalTime(Santiago, t) == 20337 * DAY + 1410 * MINUTE && IsOpen(cal, t) == Success(false)
  {
    hide Hours;
    var t := SANTIAGO_SPRING - 30 * MINUTE;
    SantiagoMidnights();
    hide DateInterval;
    AroundTheClockNeverCloses(Santiago, dateKey);
    assert LocalDay(Santiago, t) == 20337;
    assert OneChangeNear(Santiago, t, SANTIAGO_SPRING, -4 * HOUR, -3 * HOUR);
    hide IsOpen, OneChangeNear, NeverCloses, Santiago;
    NeverClosedLooksClosedIff(EveryDayOpen(Santiago, dateKey, [Hours(0, 1440)]), Santiago, t, SANTIAGO_SPRING, -4 * HOUR, -3 * HOUR);
  }
}
