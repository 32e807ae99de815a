/**
 * Adding working time over every calendar whose dates come out in order, also
 * where a change skips midnight and `isOpen` looks away
 * (`packages/business-time/src/index.ts`).
 */
module OrderedTime {
  import opened Wrappers
  import opened Zones
  import opened BusinessCalendar
  import opened OpenTime
  import opened Horizon
  import opened Timetable
  import opened BusinessTime
  import opened CalendarLaws
  import opened EveryDay
  import opened HiddenHours
  import opened MissedDates
  import opened MeasuredTime

  ghost predicate Orderly(cal: Calendar, z: Zone) {
    ValidCalendar(cal) && cal.zone == Some(z) && Settled(z) && InOrder(DaysOf(cal, z))
  }

  lemma OrderlyDates(cal: Calendar, z: Zone)
    requires Orderly(cal, z)
    ensures Settled(z) && cal.zone == Some(z) && InOrder(DaysOf(cal, z))
    ensures FromItsDates(z, DaysOf(cal, z)) && Yields(ScanDays(cal, z))
  {
    hide ValidCalendar, Settled, InOrder, FromItsDates, Yields;
    CalendarIsFromItsDates(cal, z);
  }

  /* ------------------------------------------------------------ what a scan sees */

  lemma OrderedOpenIsScanned(z: Zone, days: Days, x: Instant, n: nat, t: Instant)
    requires Settled(z) && FromItsDates(z, days) && InOrder(days) && x <= t && OpenAt(days, t)
    ensures Covers(ScannedFrom(z, days, x, n), t) || PastAll(ScannedFrom(z, days, x, n), t)
  {
    hide Settled, FromReadings, LocalDay;
    var first := LocalDay(z, x - DAY);
    var s := ScannedFrom(z, days, x, n);
    var d :| Covers(days(d), t);
    var i :| 0 <= i < |days(d)| && Inside(days(d)[i], t);
    assert FromReadings(z, d, days(d)[i]);
    if d < first {
      EarlierDatesAreOver(z, x, d, days(d)[i]);
    }
    if d < first + n {
      var k := DateIsIn(days, first, n, d, i);
      assert Inside(s[k], t);
    } else {
      forall k | 0 <= k < |s|
        ensures s[k].end <= t
      {
        var e, j := DateOf(days, first, n, k);
      }
    }
  }

  lemma OrderedScanSees(z: Zone, days: Days, x: Instant, n: nat)
    requires Settled(z) && FromItsDates(z, days) && InOrder(days)
    ensures Sees(Openness(days), x, ScannedFrom(z, days, x, n))
  {
    hide Settled, FromItsDates, InOrder, LocalDay, DatesFrom, Ascending;
    var s := ScannedFrom(z, days, x, n);
    OrderedStreamAscends(days, LocalDay(z, x - DAY), n);
    forall t | Covers(s, t)
      ensures Openness(days)(t)
    {
      ScannedIsOpen(z, days, x, n, t);
    }
    forall t | x <= t && Openness(days)(t)
      ensures Covers(s, t) || PastAll(s, t)
    {
      OrderedOpenIsScanned(z, days, x, n, t);
    }
  }

  // A scan that starts no earlier a date still sees what has not ended.
  lemma OrderedScanKeeps(z: Zone, days: Days, x: Instant, y: Instant, n: nat)
    requires Settled(z) && FromItsDates(z, days) && LocalDay(z, x - DAY) <= LocalDay(z, y - DAY)
    ensures Keeps(ScannedFrom(z, days, x, n), ScannedFrom(z, days, y, n), y)
  {
    hide Settled, FromReadings, LocalDay;
    var s := ScannedFrom(z, days, x, n);
    forall k | 0 <= k < |s| && y < s[k].end
      ensures s[k] in ScannedFrom(z, days, y, n)
    {
      var d, j := DateOf(days, LocalDay(z, x - DAY), n, k);
      assert FromReadings(z, d, days(d)[j]);
      if d < LocalDay(z, y - DAY) {
        EarlierDatesAreOver(z, y, d, days(d)[j]);
      }
      var k' := DateIsIn(days, LocalDay(z, y - DAY), n, d, j);
    }
  }

  // The intervals a scan from x goes through before it gives up.
  ghost function ScannedDates(cal: Calendar, z: Zone, x: Instant): seq<Interval> {
    ScannedFrom(z, DaysOf(cal, z), x, MAX_DAYS_SCANNED)
  }

  lemma OrderlyAdding(cal: Calendar, z: Zone, x: Instant, d: nat)
    requires Orderly(cal, z)
    ensures Sees(Openness(DaysOf(cal, z)), x, ScannedDates(cal, z, x))
    ensures Added(cal, x, Finite(d)) ==
            match AddOver(ScannedDates(cal, z, x), x, d)
            case Reached(t) => Success(t)
            case Left(_) => Failure(NoOpenTime)
  {
    hide Orderly, ScanDays, AddScan, DaysOf, Sees, Yields, Settled, InOrder, FromItsDates, LocalDay, DatesFrom, Stream, AddOver;
    OrderlyDates(cal, z);
    OrderedScanSees(z, DaysOf(cal, z), x, MAX_DAYS_SCANNED);
    AddScanIsAddOver(ScanDays(cal, z), x - DAY, MAX_DAYS_SCANNED, x, d);
    ScanYieldsDates(cal, z, x - DAY, MAX_DAYS_SCANNED);
  }

  /* ------------------------------------------------------------ the laws */

  /** Adding d > 0 finds the least instant by which d milliseconds of the calendar's hours have passed. */
  lemma AddedIsLeast(cal: Calendar, z: Zone, x: Instant, d: nat)
    requires Orderly(cal, z) && d > 0 && Added(cal, x, Finite(d)).Success?
    ensures var open, t := Openness(DaysOf(cal, z)), Added(cal, x, Finite(d)).value;
            && x < t
            && OpenMs(open, x, t) == d
            && forall u | x <= u < t :: OpenMs(open, x, u) < d
  {
    hide Orderly, DaysOf, Added, ScannedDates, AddOver, OpenMs;
    OrderlyAdding(cal, z, x, d);
    var open, s := Openness(DaysOf(cal, z)), ScannedDates(cal, z, x);
    AddingIsLeast(open, x, s, d);
    var t := AddOver(s, x, d).at;
    forall u | x <= u < t
      ensures OpenMs(open, x, u) < d
    {
      CountPinsInstant(open, x, t, u);
    }
  }

  // What the next opening is.
  ghost predicate FirstOpen(open: Instant -> bool, x: Instant, t: Instant) {
    x <= t && open(t) && forall u | x <= u < t :: !open(u)
  }

  lemma FirstOpenIsAdded(cal: Calendar, z: Zone, x: Instant)
    requires Orderly(cal, z)
    ensures match Added(cal, x, Finite(0))
            case Success(t) => FirstOpen(Openness(DaysOf(cal, z)), x, t)
            case Failure(_) => forall u | x <= u && OpenAt(DaysOf(cal, z), u) :: PastAll(ScannedDates(cal, z, x), u)
  {
    hide Orderly, DaysOf, Added, ScannedDates, AddOver, OpenAt;
    OrderlyAdding(cal, z, x, 0);
    AddingNothingOpensNext(Openness(DaysOf(cal, z)), x, ScannedDates(cal, z, x));
    assert forall u :: Openness(DaysOf(cal, z))(u) == OpenAt(DaysOf(cal, z), u);
  }

  /**
   * `nextOpening`: of a calendar whose dates are in order, the first open instant
   * from t on, or nothing where all that is open lies past the scan.
   */
  method NextOpening(cal: Calendar, t: Instant) returns (r: Result<Instant, Error>)
    ensures r == Added(cal, t, Finite(0))
    ensures cal.zone.Some? && Orderly(cal, cal.zone.value) ==>
              match r
              case Success(u) => FirstOpen(Openness(DaysOf(cal, cal.zone.value)), t, u)
              case Failure(_) => forall u | t <= u && OpenAt(DaysOf(cal, cal.zone.value), u) :: PastAll(ScannedDates(cal, cal.zone.value, t), u)
  {
    hide Orderly, DaysOf, Added, FirstOpen, OpenAt, ScannedDates;
    r := AddBusinessMs(cal, t, Finite(0));
    if cal.zone.Some? && Orderly(cal, cal.zone.value) {
      FirstOpenIsAdded(cal, cal.zone.value, t);
    }
  }

  /**
   * Adding m, then n more, is adding m + n. Only where local dates have gone back
   * in between can the second scan, which then ends a date sooner, answer nothing.
   */
  lemma AddedComposes(cal: Calendar, z: Zone, x: Instant, m: nat, n: nat)
    requires Orderly(cal, z) && n > 0 && Added(cal, x, Finite(m + n)).Success?
    ensures Added(cal, x, Finite(m)).Success?
    ensures var y := Added(cal, x, Finite(m)).value;
            && (LocalDay(z, x - DAY) <= LocalDay(z, y - DAY) ==> Added(cal, y, Finite(n)) == Added(cal, x, Finite(m + n)))
            && (Added(cal, y, Finite(n)).Success? ==> Added(cal, y, Finite(n)) == Added(cal, x, Finite(m + n)))
  {
    hide Orderly, DaysOf, Added, ScannedDates, AddOver, LocalDay, Settled, FromItsDates, InOrder, Yields, Sees, Keeps;
    var open, s := Openness(DaysOf(cal, z)), ScannedDates(cal, z, x);
    OrderlyAdding(cal, z, x, m + n);
    OrderlyAdding(cal, z, x, m);
    AddingStopsOnTheWay(open, x, s, m, m + n);
    var y := AddOver(s, x, m).at;
    OrderlyAdding(cal, z, y, n);
    var later := ScannedDates(cal, z, y);
    if LocalDay(z, x - DAY) <= LocalDay(z, y - DAY) {
      OrderlyKeeps(cal, z, x, y);
      AddingComposes(open, x, s, m, n, later);
    } else if AddOver(later, y, n).Reached? {
      LaterScanAgrees(open, x, s, m, n, later);
    }
  }

  lemma OrderlyKeeps(cal: Calendar, z: Zone, x: Instant, y: Instant)
    requires Orderly(cal, z) && LocalDay(z, x - DAY) <= LocalDay(z, y - DAY)
    ensures Keeps(ScannedDates(cal, z, x), ScannedDates(cal, z, y), y)
  {
    hide Orderly, DaysOf, ScannedFrom, LocalDay, Settled, FromItsDates, InOrder, Yields, Keeps;
    OrderlyDates(cal, z);
    OrderedScanKeeps(z, DaysOf(cal, z), x, y, MAX_DAYS_SCANNED);
  }

  // Any later scan that answers answers the same.
  lemma LaterScanAgrees(open: Instant -> bool, x: Instant, s: seq<Interval>, m: nat, n: nat, later: seq<Interval>)
    requires Sees(open, x, s) && n > 0 && AddOver(s, x, m).Reached? && AddOver(s, x, m + n).Reached?
    requires var y := AddOver(s, x, m).at; Sees(open, y, later) && AddOver(later, y, n).Reached?
    ensures AddOver(later, AddOver(s, x, m).at, n) == AddOver(s, x, m + n)
  {
    hide AddOver, OpenMs;
    var y, t, t' := AddOver(s, x, m).at, AddOver(s, x, m + n).at, AddOver(later, AddOver(s, x, m).at, n).at;
    AddingStopsOnTheWay(open, x, s, m, m + n);
    AddingIsLeast(open, x, s, m + n);
    AddingIsLeast(open, y, later, n);
    OpenMsAdds(open, x, y, t);
    SameCountSameInstant(open, y, t, t');
  }

  /* ------------------------------------------------------------ where a scan ends */

  lemma {:induction false} NothingOnDates(days: Days, day: int, n: nat)
    requires forall d | day <= d < day + n :: days(d) == []
    ensures DatesFrom(days, day, n) == []
    decreases n
  {
    if n > 0 {
      NothingOnDates(days, day + 1, n - 1);
    }
  }

  /**
   * A scan is of 3650 dates, no more and no fewer: with nothing open on any of them
   * neither adding nor measuring answers, and with something open on the last of
   * them the next opening is found.
   */
  lemma ScanIsOf3650Dates(cal: Calendar, z: Zone, x: Instant, d: nat, to: Instant, i: nat)
    requires Orderly(cal, z)
    ensures var first, days := LocalDay(z, x - DAY), DaysOf(cal, z);
            && ((forall day | first <= day < first + 3650 :: days(day) == []) ==>
                  Added(cal, x, Finite(d)) == Failure(NoOpenTime) && (x < to ==> Elapsed(cal, x, to) == Failure(NoOpenTime)))
            && (i < |days(first + 3649)| && x < days(first + 3649)[i].end ==> Added(cal, x, Finite(0)).Success?)
  {
    hide Orderly, Settled, ValidCalendar, FromItsDates, InOrder, LocalDay, Yields, Elapsed, Added, OpenIntervals;
    var first, days := LocalDay(z, x - DAY), DaysOf(cal, z);
    OrderlyAdding(cal, z, x, d);
    OrderlyDates(cal, z);
    if forall day | first <= day < first + 3650 :: days(day) == [] {
      NothingOnDates(days, first, 3650);
      if x < to {
        ElapsedIsTally(cal, z, x, to);
      }
    }
    if i < |days(first + 3649)| && x < days(first + 3649)[i].end {
      LastDateIsScanned(cal, z, x, i);
    }
  }

  lemma LastDateIsScanned(cal: Calendar, z: Zone, x: Instant, i: nat)
    requires Orderly(cal, z)
    requires var last := DaysOf(cal, z)(LocalDay(z, x - DAY) + 3649); i < |last| && x < last[i].end
    ensures Added(cal, x, Finite(0)).Success?
  {
    hide Orderly, Settled, FromReadings, InOrder, LocalDay, Yields, Added, DaysOf;
    var first, days := LocalDay(z, x - DAY), DaysOf(cal, z);
    var last := days(first + 3649)[i];
    OrderlyDates(cal, z);
    ReadingsAreNotEmpty(z, first + 3649, last);
    FirstOpenIsAdded(cal, z, x);
    var k := DateIsIn(days, first, MAX_DAYS_SCANNED, first + 3649, i);
    var t := last.end - 1;
    assert Inside(days(first + 3649)[i], t);
    assert Covers(days(first + 3649), t);
    assert OpenAt(days, t) && ScannedDates(cal, z, x)[k] == last;
  }

  /* ------------------------------------------------------------ round the clock */

  /** Round-the-clock hours come out in order in every zone, though `isOpen` may look away. */
  lemma AroundTheClockIsOrderly(z: Zone, dateKey: int -> string)
    requires Settled(z)
    ensures var cal := EveryDayOpen(z, dateKey, [Hours(0, 1440)]);
            Orderly(cal, z) && NeverCloses(cal, z)
  {
    hide Settled, WallToUtc, Hours, OpenIntervals, NeverCloses, ValidCalendar;
    forall day
      ensures DateInterval(z, day).start < DateInterval(z, day).end
    {
      DayApartConvertsInOrder(z, day * DAY, (day + 1) * DAY);
    }
    AroundTheClockNeverCloses(z, dateKey);
    OnePeriodIsSound(0, 1440);
    EveryDayIsValid(z, dateKey, [Hours(0, 1440)]);
    NeverClosesInOrder(EveryDayOpen(z, dateKey, [Hours(0, 1440)]), z);
  }

  lemma NeverClosesInOrder(cal: Calendar, z: Zone)
    requires NeverCloses(cal, z) && Settled(z)
    ensures InOrder(DaysOf(cal, z))
  {
    hide Settled, WallToUtc, OpenIntervals;
    var days := DaysOf(cal, z);
    forall d
      ensures days(d) == [DateInterval(z, d)] && DateInterval(z, d).start < DateInterval(z, d).end
    {
      assert OpenIntervals(cal, z, d) == Success([DateInterval(z, d)]);
      DayApartConvertsInOrder(z, d * DAY, (d + 1) * DAY);
    }
    forall d, e | d < e
      ensures DateInterval(z, d).end <= DateInterval(z, e).start
    {
      if d + 1 < e {
        DayApartConvertsInOrder(z, (d + 1) * DAY, e * DAY);
      }
    }
  }

  lemma NeverClosedIsOpen(cal: Calendar, z: Zone, t: Instant)
    requires NeverCloses(cal, z) && Settled(z)
    ensures OpenAt(DaysOf(cal, z), t)
  {
    hide Settled, WallToUtc, OpenIntervals, DateInterval;
    var days := DaysOf(cal, z);
    var d := SomeDateHolds(z, t);
    assert OpenIntervals(cal, z, d) == Success([DateInterval(z, d)]);
    assert days(d) == [DateInterval(z, d)];
    CoversOne(DateInterval(z, d), t);
  }

  // Of four midnights the second to last at most has come.
  lemma SomeDateHolds(z: Zone, t: Instant) returns (d: int)
    requires Settled(z)
    ensures Inside(DateInterval(z, d), t)
  {
    hide Settled, WallToUtc;
    var today := LocalDay(z, t);
    LastMidnightIsEarlier(z, t, today - 1);
    NextMidnightIsLater(z, t, today + 2);
    if t < WallToUtc(z, today * DAY) {
      d := today - 1;
    } else if t < WallToUtc(z, (today + 1) * DAY) {
      d := today;
    } else {
      d := today + 1;
    }
  }

  lemma AlwaysOpenAddsPlainly(cal: Calendar, z: Zone, x: Instant, d: nat)
    requires Orderly(cal, z) && Added(cal, x, Finite(d)).Success?
    requires forall t :: Openness(DaysOf(cal, z))(t)
    ensures Added(cal, x, Finite(d)) == Success(x + d)
  {
    hide Orderly, DaysOf, Openness, Added, OpenMs;
    if d == 0 {
      FirstOpenIsAdded(cal, z, x);
      assert Openness(DaysOf(cal, z))(x);
    } else {
      AddedIsLeast(cal, z, x, d);
      OpenMsAll(Openness(DaysOf(cal, z)), x, Added(cal, x, Finite(d)).value);
    }
  }

  /** So adding to them is plain addition, in every zone, for as long as the scan lasts. */
  lemma AroundTheClockAddsPlainly(z: Zone, dateKey: int -> string, x: Instant, d: nat)
    requires Settled(z) && Added(EveryDayOpen(z, dateKey, [Hours(0, 1440)]), x, Finite(d)).Success?
    ensures Added(EveryDayOpen(z, dateKey, [Hours(0, 1440)]), x, Finite(d)) == Success(x + d)
  {
    hide Orderly, NeverCloses, DaysOf, OpenAt, Added, Hours, EveryDayOpen, Settled;
    var cal := EveryDayOpen(z, dateKey, [Hours(0, 1440)]);
    AroundTheClockIsOrderly(z, dateKey);
    forall t
      ensures Openness(DaysOf(cal, z))(t)
    {
      NeverClosedIsOpen(cal, z, t);
    }
    AlwaysOpenAddsPlainly(cal, z, x, d);
  }
}
