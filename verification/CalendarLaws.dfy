/**
 * The laws of `addBusinessMs`, `elapsedBusinessMs`, `isOpen` and `nextOpening`
 * over a validated calendar (`packages/business-time/src/index.ts`).
 */
module CalendarLaws {
  import opened Wrappers
  import opened Zones
  import opened BusinessCalendar
  import opened OpenTime
  import opened Timetable
  import opened BusinessTime

  /* ------------------------------------------------------------ any scan */

  ghost function CursorAt(scan: Scan, cursor: Instant, k: nat): Instant
    decreases k, cursor
  {
    if k == 0 then cursor else CursorAt(scan, scan.next(cursor), k - 1)
  }

  ghost function Yielded(r: Result<seq<Interval>, Error>): seq<Interval> {
    match r
    case Success(s) => s
    case Failure(_) => []
  }

  ghost function Stream(scan: Scan, cursor: Instant, n: nat): seq<Interval>
    decreases n, cursor
  {
    if n == 0 then [] else Yielded(scan.day(cursor)) + Stream(scan, scan.next(cursor), n - 1)
  }

  ghost predicate Yields(scan: Scan) {
    forall cursor :: scan.day(cursor).Success?
  }

  /** Adding over a scan is adding over its stream, whatever the dates it is cut into. */
  lemma {:induction false} AddScanIsAddOver(scan: Scan, cursor: Instant, n: nat, from: Instant, duration: nat)
    requires Yields(scan)
    ensures AddScan(scan, cursor, n, from, duration) ==
            match AddOver(Stream(scan, cursor, n), from, duration)
            case Reached(t) => Success(t)
            case Left(_) => Failure(NoOpenTime)
    decreases n
  {
    if n > 0 {
      var today := Yielded(scan.day(cursor));
      AddConcat(today, Stream(scan, scan.next(cursor), n - 1), from, duration);
      match AddOver(today, from, duration) {
        case Reached(_) =>
        case Left(rest) => AddScanIsAddOver(scan, scan.next(cursor), n - 1, from, rest);
      }
    }
  }

  lemma {:induction false} ElapsedScanIsTally(scan: Scan, cursor: Instant, n: nat, from: Instant, to: Instant, total: nat)
    requires Yields(scan)
    ensures ElapsedScan(scan, cursor, n, from, to, total) ==
            match TallyOf(Stream(scan, cursor, n), from, to)
            case Stopped(m) => Success(total + m)
            case Running(_) => Failure(NoOpenTime)
    decreases n
  {
    if n > 0 {
      var today := Yielded(scan.day(cursor));
      var later := Stream(scan, scan.next(cursor), n - 1);
      assert Stream(scan, cursor, n) == today + later;
      TallyConcat(today, later, from, to);
      match TallyOf(today, from, to) {
        case Stopped(_) =>
        case Running(m) => ElapsedScanIsTally(scan, scan.next(cursor), n - 1, from, to, total + m);
      }
    }
  }

  /* ------------------------------------------------------------ the scan of a calendar */

  // A day after midday is on the next date, through any change under twelve hours.
  lemma MiddayStep(z: Zone, day: int)
    requires Settled(z)
    ensures (day + 1) * DAY <= LocalTime(z, WallToUtc(z, day * DAY + 12 * HOUR) + DAY) < (day + 2) * DAY
  {
    var noon := day * DAY + 12 * HOUR;
    assert SettledFrom(z, noon - DAY);
    var T, a, b :| SmallChange(z, noon - DAY, T, a, b);
    ConversionTwoPasses(z, noon);
    var guess := noon - z(noon);
    var next := noon - z(guess) + DAY;
    assert Ordinary(z, guess);
    assert z(guess) == if guess < T then a else b;
    assert z(next) == if next < T then a else b;
  }

  lemma NextIsNextDate(z: Zone, day: int)
    requires Settled(z)
    ensures LocalDay(z, WallToUtc(z, day * DAY + 12 * HOUR) + DAY) == day + 1
  {
    MiddayStep(z, day);
    DayBrackets(LocalTime(z, WallToUtc(z, day * DAY + 12 * HOUR) + DAY), day + 1);
  }

  // Each step of the scan moves one date on.
  ghost predicate Daily(scan: Scan, dateOf: Instant -> int) {
    forall cursor :: dateOf(scan.next(cursor)) == dateOf(cursor) + 1
  }

  ghost function LocalDates(z: Zone): Instant -> int {
    t => LocalDay(z, t)
  }

  lemma NextCursorDate(cal: Calendar, z: Zone, cursor: Instant)
    requires Settled(z)
    ensures LocalDay(z, ScanDays(cal, z).next(cursor)) == LocalDay(z, cursor) + 1
  {
    var day := LocalDay(z, cursor);
    NextIsNextDate(z, day);
    assert ScanDays(cal, z).next(cursor) == WallToUtc(z, day * DAY + 12 * HOUR) + DAY;
  }

  lemma ScanIsDaily(cal: Calendar, z: Zone)
    requires Settled(z)
    ensures Daily(ScanDays(cal, z), LocalDates(z))
  {
    var scan, dateOf := ScanDays(cal, z), LocalDates(z);
    forall cursor
      ensures dateOf(scan.next(cursor)) == dateOf(cursor) + 1
    {
      NextCursorDate(cal, z, cursor);
    }
  }

  lemma {:induction false} DailyDates(scan: Scan, dateOf: Instant -> int, cursor: Instant, k: nat)
    requires Daily(scan, dateOf)
    ensures dateOf(CursorAt(scan, cursor, k)) == dateOf(cursor) + k
    decreases k
  {
    if k > 0 {
      DailyDates(scan, dateOf, scan.next(cursor), k - 1);
    }
  }

  /** `scanDays` visits every local date from its start exactly once, in order. */
  lemma VisitsEachDateInOrder(cal: Calendar, z: Zone, cursor: Instant, k: nat)
    requires Settled(z)
    ensures LocalDay(z, CursorAt(ScanDays(cal, z), cursor, k)) == LocalDay(z, cursor) + k
  {
    ScanIsDaily(cal, z);
    DailyDates(ScanDays(cal, z), LocalDates(z), cursor, k);
  }

  ghost function DaysOf(cal: Calendar, z: Zone): Days {
    day => Yielded(OpenIntervals(cal, z, day))
  }

  ghost predicate YieldsByDate(scan: Scan, dateOf: Instant -> int, days: Days) {
    forall cursor :: Yielded(scan.day(cursor)) == days(dateOf(cursor))
  }

  lemma {:induction false} DailyStream(scan: Scan, dateOf: Instant -> int, days: Days, cursor: Instant, n: nat)
    requires Daily(scan, dateOf) && YieldsByDate(scan, dateOf, days)
    ensures Stream(scan, cursor, n) == DatesFrom(days, dateOf(cursor), n)
    decreases n
  {
    if n > 0 {
      DailyStream(scan, dateOf, days, scan.next(cursor), n - 1);
    }
  }

  /** So the scan from a cursor yields the intervals of its date and of the dates that follow. */
  lemma ScanYieldsDates(cal: Calendar, z: Zone, cursor: Instant, n: nat)
    requires Settled(z)
    ensures Stream(ScanDays(cal, z), cursor, n) == DatesFrom(DaysOf(cal, z), LocalDay(z, cursor), n)
  {
    ScanIsDaily(cal, z);
    DailyStream(ScanDays(cal, z), LocalDates(z), DaysOf(cal, z), cursor, n);
  }

  // What `elapsedBusinessMs` tallies, as long as every date converts.
  lemma ElapsedIsTally(cal: Calendar, z: Zone, from: Instant, to: Instant)
    requires cal.zone == Some(z) && from < to && Settled(z) && Yields(ScanDays(cal, z))
    ensures Elapsed(cal, from, to) ==
            match TallyOf(DatesFrom(DaysOf(cal, z), LocalDay(z, from - DAY), MAX_DAYS_SCANNED), from, to)
            case Stopped(n) => Success(n)
            case Running(_) => Failure(NoOpenTime)
  {
    hide ScanDays, Settled, DaysOf, DatesFrom, Stream, TallyOf, ElapsedScan, Yields;
    ElapsedScanIsTally(ScanDays(cal, z), from - DAY, MAX_DAYS_SCANNED, from, to, 0);
    ScanYieldsDates(cal, z, from - DAY, MAX_DAYS_SCANNED);
  }

  /* ------------------------------------------------------------ calendars that can be relied on */

  // The boundaries of a period on a date, as wall-clock readings.
  ghost function Walls(p: OpenPeriod, day: int): Interval
    requires Span(p).Success?
  {
    Interval(day * DAY + Span(p).value.0 * MINUTE, day * DAY + Span(p).value.1 * MINUTE)
  }

  ghost predicate BoundariesExistOn(z: Zone, day: int, periods: seq<OpenPeriod>) {
    forall p | p in periods && Span(p).Success? :: WallExists(z, Walls(p, day).start) && WallExists(z, Walls(p, day).end)
  }

  // No opening or closing time falls in an hour that local clocks skip.
  ghost predicate BoundariesExist(cal: Calendar, z: Zone) {
    forall day :: BoundariesExistOn(z, day, PeriodsFor(cal, day))
  }

  // A period's interval, whatever its boundaries convert to.
  ghost function IntervalOf(z: Zone, p: OpenPeriod, day: int): Interval
    requires Span(p).Success?
  {
    Interval(WallToUtc(z, Walls(p, day).start), WallToUtc(z, Walls(p, day).end))
  }

  // The interval between two minutes of a date, converted.
  ghost function ReadingsInterval(z: Zone, day: int, j: nat, k: nat): Interval {
    Interval(WallToUtc(z, day * DAY + j * MINUTE), WallToUtc(z, day * DAY + k * MINUTE))
  }

  // Read in local time, an interval is not empty and stays within its date.
  ghost predicate StaysWithin(z: Zone, day: int, i: Interval) {
    i.start < i.end && day * DAY <= LocalTime(z, i.start) && LocalTime(z, i.end) <= (day + 1) * DAY
  }

  // The periods of a date, once converted, are still in order and within the date.
  ghost predicate DateKeepsOrder(z: Zone, day: int, periods: seq<OpenPeriod>) {
    && (forall i | 0 <= i < |periods| :: Span(periods[i]).Success? ==> StaysWithin(z, day, IntervalOf(z, periods[i], day)))
    && (forall i, j | 0 <= i < j < |periods| :: Span(periods[i]).Success? && Span(periods[j]).Success? ==>
          IntervalOf(z, periods[i], day).end <= IntervalOf(z, periods[j], day).start)
  }

  // A boundary may fall in an hour that local clocks skip, as long as this holds.
  ghost predicate BoundariesKeepOrder(cal: Calendar, z: Zone) {
    forall day :: DateKeepsOrder(z, day, PeriodsFor(cal, day))
  }

  ghost predicate Dependable(cal: Calendar, z: Zone) {
    && ValidCalendar(cal)
    && cal.zone == Some(z)
    && Settled(z)
    && DatesNeverGoBack(z)
    && BoundariesKeepOrder(cal, z)
  }

  /** Boundaries that exist keep their order: only a boundary that is skipped can break it. */
  lemma ExistingBoundariesKeepOrder(z: Zone, day: int, periods: seq<OpenPeriod>)
    requires Settled(z) && Sound(periods) && BoundariesExistOn(z, day, periods)
    ensures DateKeepsOrder(z, day, periods)
  {
    hide Span, WallExists, Settled, WallToUtc;
    forall i | 0 <= i < |periods|
      ensures StaysWithin(z, day, IntervalOf(z, periods[i], day))
    {
      var w := Walls(periods[i], day);
      assert periods[i] in periods;
      MinutesWithinDate(day, Span(periods[i]).value.0, Span(periods[i]).value.1);
      ExistingWallsAscend(z, w.start, w.end);
    }
    forall i, j | 0 <= i < j < |periods|
      ensures IntervalOf(z, periods[i], day).end <= IntervalOf(z, periods[j], day).start
    {
      var closes, opens := Walls(periods[i], day).end, Walls(periods[j], day).start;
      assert periods[i] in periods && periods[j] in periods;
      assert closes <= opens;
      if closes < opens {
        ExistingWallsAscend(z, closes, opens);
      }
    }
  }

  /** So a valid calendar none of whose boundaries is skipped can be relied on. */
  lemma ExistingIsDependable(cal: Calendar, z: Zone)
    requires ValidCalendar(cal) && cal.zone == Some(z) && Settled(z) && DatesNeverGoBack(z) && BoundariesExist(cal, z)
    ensures Dependable(cal, z)
  {
    hide PeriodsFor, ValidCalendar, Settled, DateKeepsOrder, BoundariesExistOn, DatesNeverGoBack;
    forall day
      ensures DateKeepsOrder(z, day, PeriodsFor(cal, day))
    {
      SkippingNothingKeepsOrder(cal, z, day);
    }
  }

  /** In a zone whose offset never changes, every valid calendar can be relied on. */
  lemma FixedOffsetIsDependable(cal: Calendar, z: Zone, offset: int)
    requires ValidCalendar(cal) && cal.zone == Some(z)
    requires -DAY < offset < DAY && offset % SECOND == 0
    requires forall t :: z(t) == offset
    ensures Dependable(cal, z)
  {
    hide PeriodsFor, ValidCalendar, Settled, Dependable, BoundariesExistOn, DatesNeverGoBack;
    FixedOffsetIsSettled(z, offset);
    FixedDatesNeverGoBack(z, offset);
    forall day
      ensures BoundariesExistOn(z, day, PeriodsFor(cal, day))
    {
      FixedBoundariesExist(z, offset, day, PeriodsFor(cal, day));
    }
    ExistingIsDependable(cal, z);
  }

  lemma FixedDatesNeverGoBack(z: Zone, offset: int)
    requires forall t :: z(t) == offset
    ensures DatesNeverGoBack(z)
  {
    forall s, t | s <= t
      ensures LocalDay(z, s) <= LocalDay(z, t)
    {
      DayBrackets(LocalTime(z, t), LocalDay(z, s));
      DayBrackets(LocalTime(z, s), LocalDay(z, s));
    }
  }

  lemma FixedBoundariesExist(z: Zone, offset: int, day: int, periods: seq<OpenPeriod>)
    requires forall t :: z(t) == offset
    ensures BoundariesExistOn(z, day, periods)
  {
    hide Span;
    forall wall
      ensures WallExists(z, wall)
    {
      assert LocalTime(z, wall - offset) == wall;
    }
  }

  lemma SkippingNothingKeepsOrder(cal: Calendar, z: Zone, day: int)
    requires ValidCalendar(cal) && Settled(z) && BoundariesExistOn(z, day, PeriodsFor(cal, day))
    ensures DateKeepsOrder(z, day, PeriodsFor(cal, day))
  {
    PeriodsAreSound(cal, day);
    hide ValidCalendar, Settled, BoundariesExistOn, PeriodsFor, DateKeepsOrder, Sound;
    ExistingBoundariesKeepOrder(z, day, PeriodsFor(cal, day));
  }

  lemma PeriodConverts(z: Zone, day: int, p: OpenPeriod)
    requires Span(p).Success?
    ensures PeriodInterval(z, day, p) == Success(IntervalOf(z, p, day))
  {
    hide ParseHm, WallToUtc;
    var from, to := ParseHm(p.start, "start").value, ParseHm(p.end, "end").value;
    assert WallOf(day, from) == Walls(p, day).start;
    if to.hour == 24 {
      assert WallOf(day + 1, HourMinute(0, 0)) == Walls(p, day).end;
    } else {
      assert WallOf(day, to) == Walls(p, day).end;
    }
  }

  // Every period of the list, converted in place.
  ghost predicate ConvertsInPlace(z: Zone, day: int, periods: seq<OpenPeriod>, s: seq<Interval>) {
    && |s| == |periods|
    && forall i | 0 <= i < |periods| :: Span(periods[i]).Success? && s[i] == IntervalOf(z, periods[i], day)
  }

  lemma {:induction false} ConvertedOneByOne(z: Zone, day: int, periods: seq<OpenPeriod>)
    requires Sound(periods) && DateKeepsOrder(z, day, periods)
    ensures Converted(z, day, periods).Success? && ConvertsInPlace(z, day, periods, Converted(z, day, periods).value)
  {
    if periods != [] {
      var n := |periods| - 1;
      var last := periods[n];
      KeepsOrderInFront(z, day, periods, n);
      ConvertedOneByOne(z, day, periods[..n]);
      PeriodConverts(z, day, last);
      hide PeriodInterval, WallToUtc, Span;
      assert StaysWithin(z, day, IntervalOf(z, last, day));
    }
  }

  lemma KeepsOrderInFront(z: Zone, day: int, periods: seq<OpenPeriod>, n: nat)
    requires n <= |periods| && Sound(periods) && DateKeepsOrder(z, day, periods)
    ensures Sound(periods[..n]) && DateKeepsOrder(z, day, periods[..n])
  {
    hide Span, WallToUtc;
  }

  lemma MinutesWithinDate(day: int, start: nat, end: nat)
    requires start < end <= 24 * 60
    ensures day * DAY <= day * DAY + start * MINUTE < day * DAY + end * MINUTE <= (day + 1) * DAY
  {
  }

  // An interval between converted readings, within its date in local time.
  lemma ConvertedStaysWithinDate(z: Zone, day: int, v: Wall, w: Wall)
    requires Settled(z) && StaysWithin(z, day, Interval(WallToUtc(z, v), WallToUtc(z, w)))
    ensures WithinDate(z, day, Interval(WallToUtc(z, v), WallToUtc(z, w)))
  {
    ConvertedConvertsBack(z, v);
    ConvertedConvertsBack(z, w);
    var s, e := WallToUtc(z, v), WallToUtc(z, w);
    if LocalTime(z, e) < LocalTime(z, s) {
      ExistingWallsAscend(z, LocalTime(z, e), LocalTime(z, s));
    }
  }

  lemma ConvertedFits(z: Zone, day: int, periods: seq<OpenPeriod>, s: seq<Interval>)
    requires Settled(z) && Sound(periods) && DateKeepsOrder(z, day, periods) && ConvertsInPlace(z, day, periods, s)
    ensures DateFits(z, day, s)
  {
    hide Span, Settled, WallToUtc;
    forall i | 0 <= i < |s|
      ensures WithinDate(z, day, s[i]) && s[i].start < s[i].end
    {
      ConvertedStaysWithinDate(z, day, Walls(periods[i], day).start, Walls(periods[i], day).end);
    }
    forall i, j | 0 <= i < j < |s|
      ensures s[i].end <= s[j].start
    {
      assert s[i] == IntervalOf(z, periods[i], day) && s[j] == IntervalOf(z, periods[j], day);
    }
  }

  /** One date: its periods in order, each with its own interval inside the date, none touching another. */
  lemma DateConverts(cal: Calendar, z: Zone, day: int)
    requires Dependable(cal, z)
    ensures OpenIntervals(cal, z, day).Success?
    ensures var s, periods := OpenIntervals(cal, z, day).value, PeriodsFor(cal, day);
            DateFits(z, day, s) && ConvertsInPlace(z, day, periods, s)
  {
    var periods := PeriodsFor(cal, day);
    PeriodsAreSound(cal, day);
    assert DateKeepsOrder(z, day, periods);
    hide Dependable, PeriodsFor, ValidCalendar, Sound, DateKeepsOrder;
    ConvertedOneByOne(z, day, periods);
    var s := Converted(z, day, periods).value;
    assert Settled(z) by {
      DependableIsSettled(cal, z);
    }
    ConvertedFits(z, day, periods, s);
    FittedIsSorted(z, day, s);
  }

  lemma DependableIsSettled(cal: Calendar, z: Zone)
    requires Dependable(cal, z)
    ensures Settled(z)
  {
  }

  lemma FittedIsSorted(z: Zone, day: int, s: seq<Interval>)
    requires DateFits(z, day, s)
    ensures SortByStart(s) == s
  {
    forall i, j | 0 <= i < j < |s|
      ensures s[i].start <= s[j].start
    {
      assert s[i].start < s[i].end <= s[j].start;
    }
    SortKeepsOrdered(s);
  }

  lemma CalendarYields(cal: Calendar, z: Zone)
    requires Dependable(cal, z)
    ensures Yields(ScanDays(cal, z))
  {
    var scan := ScanDays(cal, z);
    forall cursor
      ensures scan.day(cursor).Success?
    {
      DateConverts(cal, z, LocalDay(z, cursor));
    }
  }

  /** Every date of a calendar that can be relied on keeps its intervals between its midnights. */
  lemma CalendarFits(cal: Calendar, z: Zone)
    requires Dependable(cal, z)
    ensures Fits(z, DaysOf(cal, z))
  {
    var days := DaysOf(cal, z);
    forall day
      ensures DateFits(z, day, days(day))
    {
      DateConverts(cal, z, day);
    }
  }
}
