/**
 * Calendars open for the same two periods on every date, and what
 * `elapsedBusinessMs` measures of them, for the concrete instances of the laws
 * (`packages/business-time/src/index.ts`).
 */
module TwoPeriods {
  import opened Wrappers
  import opened Zones
  import opened BusinessCalendar
  import opened OpenTime
  import opened Timetable
  import opened BusinessTime
  import opened CalendarLaws
  import opened EveryDay

  // Minutes of the day: open from a to b, and from c to e.
  datatype Pattern = Pattern(a: nat, b: nat, c: nat, e: nat)

  predicate Proper(p: Pattern) {
    p.a < p.b <= p.c < p.e <= 1440
  }

  function Periods(p: Pattern): seq<OpenPeriod>
    requires Proper(p)
  {
    [Hours(p.a, p.b), Hours(p.c, p.e)]
  }

  function TwiceADay(z: Zone, dateKey: int -> string, p: Pattern): Calendar
    requires Proper(p)
  {
    EveryDayOpen(z, dateKey, Periods(p))
  }

  // A date's two intervals, though a clock change may bring them together.
  ghost function Both(z: Zone, p: Pattern, day: int): seq<Interval> {
    [ReadingsInterval(z, day, p.a, p.b), ReadingsInterval(z, day, p.c, p.e)]
  }

  // On every date neither interval is empty, and the first starts no later.
  ghost predicate Converts(z: Zone, p: Pattern) {
    forall day :: var s := Both(z, p, day); s[0].start < s[0].end && s[1].start < s[1].end && s[0].start <= s[1].start
  }

  lemma Spans(p: Pattern)
    requires Proper(p)
    ensures |Periods(p)| == 2 && Span(Periods(p)[0]) == Success((p.a, p.b)) && Span(Periods(p)[1]) == Success((p.c, p.e))
  {
    hide Hours, Span;
    HoursSpan(p.a, p.b);
    HoursSpan(p.c, p.e);
  }

  lemma TwiceADayIsValid(z: Zone, dateKey: int -> string, p: Pattern)
    requires Proper(p)
    ensures ValidCalendar(TwiceADay(z, dateKey, p)) && TwiceADay(z, dateKey, p).zone == Some(z)
  {
    Spans(p);
    hide Hours, Span, Periods;
    assert Sound(Periods(p));
    EveryDayIsValid(z, dateKey, Periods(p));
  }

  lemma OneInterval(z: Zone, p: Pattern, day: int, k: nat)
    requires Proper(p) && k < 2
    ensures |Periods(p)| == 2 && PeriodInterval(z, day, Periods(p)[k]) == Success(Both(z, p, day)[k])
  {
    hide Hours, Span, WallToUtc;
    Spans(p);
    PeriodConverts(z, day, Periods(p)[k]);
  }

  lemma TwoPeriodsConvert(z: Zone, day: int, periods: seq<OpenPeriod>, i: Interval, j: Interval)
    requires |periods| == 2 && PeriodInterval(z, day, periods[0]) == Success(i) && PeriodInterval(z, day, periods[1]) == Success(j)
    requires i.start < i.end && j.start < j.end
    ensures Converted(z, day, periods) == Success([i, j])
  {
    hide PeriodInterval;
    assert periods[..1] == [periods[0]] && [periods[0]][..0] == [];
    assert Converted(z, day, []) == Success([]);
    assert [] + [i] == [i] && [i] + [j] == [i, j];
    assert Converted(z, day, [periods[0]]) == Success([i]);
  }

  lemma DateHasBoth(z: Zone, dateKey: int -> string, p: Pattern, day: int)
    requires Proper(p) && Converts(z, p)
    ensures OpenIntervals(TwiceADay(z, dateKey, p), z, day) == Success(Both(z, p, day))
  {
    hide Hours, Span, PeriodInterval, PeriodsFor, Converted, ReadingsInterval, SortByStart, Periods;
    EveryDayPeriods(z, dateKey, Periods(p), day);
    OneInterval(z, p, day, 0);
    OneInterval(z, p, day, 1);
    TwoPeriodsConvert(z, day, Periods(p), Both(z, p, day)[0], Both(z, p, day)[1]);
    SortKeepsOrdered(Both(z, p, day));
  }

  lemma DatesHaveBoth(z: Zone, dateKey: int -> string, p: Pattern)
    requires Proper(p) && Converts(z, p)
    ensures forall day :: DaysOf(TwiceADay(z, dateKey, p), z)(day) == Both(z, p, day)
    ensures Yields(ScanDays(TwiceADay(z, dateKey, p), z))
  {
    hide OpenIntervals, TwiceADay, Both, Converts;
    forall day
      ensures OpenIntervals(TwiceADay(z, dateKey, p), z, day) == Success(Both(z, p, day))
    {
      DateHasBoth(z, dateKey, p, day);
    }
  }

  /* ------------------------------------------------------------ measuring three dates */

  lemma TallyOfBoth(i: Interval, j: Interval, from: Instant, to: Instant)
    ensures TallyOf([i, j], from, to) ==
            if i.start >= to then Stopped(0)
            else if j.start >= to then Stopped(Clipped(i, from, to))
            else Running(Clipped(i, from, to) + Clipped(j, from, to))
  {
    assert TallyOf([], from, to) == Running(0);
    assert [i][..0] == [];
    assert TallyOf([i], from, to) == if i.start >= to then Stopped(0) else Running(Clipped(i, from, to));
    assert [i, j][..1] == [i];
  }

  lemma ThreeDates(days: Days, day: int, n: nat)
    requires n >= 3
    ensures DatesFrom(days, day, n) == days(day) + (days(day + 1) + (days(day + 2) + DatesFrom(days, day + 3, n - 3)))
  {
    assert DatesFrom(days, day + 1, n - 1) == days(day + 1) + DatesFrom(days, day + 2, n - 2);
    assert DatesFrom(days, day + 2, n - 2) == days(day + 2) + DatesFrom(days, day + 3, n - 3);
  }

  // What is tallied of three dates, where it stops at the third or before.
  function TallyThree(s: seq<Interval>, t: seq<Interval>, u: seq<Interval>, from: Instant, to: Instant): Tally {
    match TallyOf(s, from, to)
    case Stopped(n) => Stopped(n)
    case Running(n) =>
      match TallyOf(t, from, to)
      case Stopped(m) => Stopped(n + m)
      case Running(m) =>
        match TallyOf(u, from, to)
        case Stopped(k) => Stopped(n + m + k)
        case Running(k) => Running(n + m + k)
  }

  lemma ThreeDatesDecide(z: Zone, dateKey: int -> string, p: Pattern, f: int, from: Instant, to: Instant)
    requires Proper(p) && Converts(z, p) && Settled(z) && from < to && LocalDay(z, from - DAY) == f
    requires TallyThree(Both(z, p, f), Both(z, p, f + 1), Both(z, p, f + 2), from, to).Stopped?
    ensures Elapsed(TwiceADay(z, dateKey, p), from, to) ==
            Success(TallyThree(Both(z, p, f), Both(z, p, f + 1), Both(z, p, f + 2), from, to).total)
  {
    hide TwiceADay, Yields, Settled, DatesFrom, DaysOf, TallyOf, Elapsed, ValidCalendar, Both, Converts, LocalDay;
    var days := DaysOf(TwiceADay(z, dateKey, p), z);
    TwiceADayIsValid(z, dateKey, p);
    DatesHaveBoth(z, dateKey, p);
    ElapsedIsTally(TwiceADay(z, dateKey, p), z, from, to);
    ThreeDates(days, f, MAX_DAYS_SCANNED);
    var s, t, u, rest := Both(z, p, f), Both(z, p, f + 1), Both(z, p, f + 2), DatesFrom(days, f + 3, MAX_DAYS_SCANNED - 3);
    TallyConcat(u, rest, from, to);
    TallyConcat(t, u + rest, from, to);
    TallyConcat(s, t + (u + rest), from, to);
  }
}
