/**
 * What adding, measuring and asking mean over a calendar that can be relied on:
 * everything agrees with `isOpen`, millisecond by millisecond
 * (`packages/business-time/src/index.ts`).
 */
module BusinessLaws {
  import opened Wrappers
  import opened Zones
  import opened BusinessCalendar
  import opened OpenTime
  import opened Horizon
  import opened Timetable
  import opened BusinessTime
  import opened CalendarLaws

  // `open` is what `isOpen` answers, at every instant.
  ghost predicate IsOpenAnswers(cal: Calendar, open: Instant -> bool) {
    forall t {:trigger IsOpen(cal, t)} :: IsOpen(cal, t) == Success(open(t))
  }

  lemma IsOpenOverDates(cal: Calendar, z: Zone, t: Instant, previous: seq<Interval>, today: seq<Interval>)
    requires cal.zone == Some(z)
    requires OpenIntervals(cal, z, LocalDay(z, t - DAY)) == Success(previous)
    requires OpenIntervals(cal, z, LocalDay(z, t)) == Success(today)
    ensures IsOpen(cal, t) == Success(Covers(previous + today, t))
  {
    var candidates := previous + today;
    if i :| 0 <= i < |candidates| && candidates[i].start <= t < candidates[i].end {
      assert Inside(candidates[i], t);
    }
  }

  lemma DateAnswers(cal: Calendar, z: Zone, day: int)
    requires Dependable(cal, z)
    ensures OpenIntervals(cal, z, day) == Success(DaysOf(cal, z)(day))
  {
    DateConverts(cal, z, day);
  }

  /** `isOpen` looks at two dates only, and that is enough: it answers, and answers for every date. */
  lemma IsOpenIsOpenOnSomeDate(cal: Calendar, z: Zone)
    requires Dependable(cal, z)
    ensures IsOpenAnswers(cal, Openness(DaysOf(cal, z)))
  {
    CalendarFits(cal, z);
    var days := DaysOf(cal, z);
    forall t {:trigger IsOpen(cal, t)}
      ensures IsOpen(cal, t) == Success(Openness(days)(t))
    {
      DateAnswers(cal, z, LocalDay(z, t - DAY));
      DateAnswers(cal, z, LocalDay(z, t));
      IsOpenOverDates(cal, z, t, days(LocalDay(z, t - DAY)), days(LocalDay(z, t)));
      TwoDatesDecide(z, days, t);
    }
  }

  // The intervals a scan from x goes through before it gives up.
  ghost function Scanned(cal: Calendar, z: Zone, x: Instant): seq<Interval> {
    ScannedFrom(z, DaysOf(cal, z), x, MAX_DAYS_SCANNED)
  }

  lemma SeesSame(open: Instant -> bool, open': Instant -> bool, x: Instant, s: seq<Interval>)
    requires Sees(open, x, s) && forall t :: open(t) == open'(t)
    ensures Sees(open', x, s)
  {
  }

  /** From x on, a scan of the calendar shows exactly what `isOpen` says, until it stops. */
  lemma ScanSeesIsOpen(cal: Calendar, z: Zone, open: Instant -> bool, x: Instant)
    requires Dependable(cal, z) && IsOpenAnswers(cal, open)
    ensures Sees(open, x, Scanned(cal, z, x))
  {
    IsOpenIsOpenOnSomeDate(cal, z);
    var onSomeDate := Openness(DaysOf(cal, z));
    forall t
      ensures onSomeDate(t) == open(t)
    {
      assert IsOpen(cal, t) == Success(open(t)) == Success(onSomeDate(t));
    }
    CalendarFits(cal, z);
    ScanSees(z, DaysOf(cal, z), x, MAX_DAYS_SCANNED);
    SeesSame(onSomeDate, open, x, Scanned(cal, z, x));
  }

  lemma ScannedKeeps(cal: Calendar, z: Zone, x: Instant, y: Instant)
    requires Dependable(cal, z) && x <= y
    ensures Keeps(Scanned(cal, z, x), Scanned(cal, z, y), y)
  {
    CalendarFits(cal, z);
    LaterScanKeeps(z, DaysOf(cal, z), x, y, MAX_DAYS_SCANNED);
  }

  lemma AddedOverScan(cal: Calendar, z: Zone, x: Instant, d: nat)
    requires Dependable(cal, z)
    ensures Added(cal, x, Finite(d)) ==
            match AddOver(Scanned(cal, z, x), x, d)
            case Reached(t) => Success(t)
            case Left(_) => Failure(NoOpenTime)
  {
    CalendarYields(cal, z);
    AddScanIsAddOver(ScanDays(cal, z), x - DAY, MAX_DAYS_SCANNED, x, d);
    ScanYieldsDates(cal, z, x - DAY, MAX_DAYS_SCANNED);
  }

  lemma ElapsedOverScan(cal: Calendar, z: Zone, x: Instant, to: Instant)
    requires Dependable(cal, z) && x < to
    ensures Elapsed(cal, x, to) ==
            match TallyOf(Scanned(cal, z, x), x, to)
            case Stopped(n) => Success(n)
            case Running(_) => Failure(NoOpenTime)
  {
    var scan := ScanDays(cal, z);
    assert Elapsed(cal, x, to) == ElapsedScan(scan, x - DAY, MAX_DAYS_SCANNED, x, to, 0);
    CalendarYields(cal, z);
    ScanTallies(scan, x - DAY, MAX_DAYS_SCANNED, x, to, Scanned(cal, z, x)) by {
      ScanYieldsDates(cal, z, x - DAY, MAX_DAYS_SCANNED);
    }
  }

  lemma ScanTallies(scan: Scan, cursor: Instant, n: nat, x: Instant, to: Instant, s: seq<Interval>)
    requires Yields(scan) && Stream(scan, cursor, n) == s
    ensures ElapsedScan(scan, cursor, n, x, to, 0) ==
            match TallyOf(s, x, to)
            case Stopped(m) => Success(m)
            case Running(_) => Failure(NoOpenTime)
  {
    ElapsedScanIsTally(scan, cursor, n, x, to, 0);
  }

  // Some interval of the horizon starts at or after `to`.
  ghost predicate OpensAgain(cal: Calendar, z: Zone, x: Instant, to: Instant) {
    exists k | 0 <= k < |Scanned(cal, z, x)| :: to <= Scanned(cal, z, x)[k].start
  }

  /**
   * `elapsedBusinessMs` is the number of milliseconds of [from, to) at which
   * `isOpen` answers true, and it answers exactly when the calendar opens again
   * at or after `to` within the scan.
   */
  lemma ElapsedCountsOpenMs(cal: Calendar, z: Zone, open: Instant -> bool, from: Instant, to: Instant)
    requires Dependable(cal, z) && IsOpenAnswers(cal, open)
    ensures Elapsed(cal, from, to) ==
            if to <= from || OpensAgain(cal, z, from, to) then Success(OpenMs(open, from, to))
            else Failure(NoOpenTime)
  {
    if from < to {
      ElapsedOverScan(cal, z, from, to);
      ScanSeesIsOpen(cal, z, open, from);
      MeasuringCounts(open, from, Scanned(cal, z, from), to);
    }
  }

  lemma OpensAgainInParts(cal: Calendar, z: Zone, a: Instant, b: Instant, c: Instant)
    requires Dependable(cal, z) && a <= b <= c && OpensAgain(cal, z, a, c)
    ensures OpensAgain(cal, z, a, b)
    ensures OpensAgain(cal, z, b, c)
  {
    var s, later := Scanned(cal, z, a), Scanned(cal, z, b);
    assert Ascending(s) by {
      hide Dependable, DaysOf;
      CalendarFits(cal, z);
      StreamAscends(z, DaysOf(cal, z), LocalDay(z, a - DAY), MAX_DAYS_SCANNED);
    }
    hide Dependable, DaysOf, Scanned;
    ScannedKeeps(cal, z, a, b);
    var k :| 0 <= k < |s| && c <= s[k].start;
    assert b <= s[k].start;
    var k' :| 0 <= k' < |later| && later[k'] == s[k];
  }

  /** Measured time is additive, and a range that can be measured can be measured in parts. */
  lemma ElapsedIsAdditive(cal: Calendar, z: Zone, a: Instant, b: Instant, c: Instant)
    requires Dependable(cal, z) && a <= b <= c && Elapsed(cal, a, c).Success?
    ensures Elapsed(cal, a, b).Success? && Elapsed(cal, b, c).Success?
    ensures Elapsed(cal, a, c).value == Elapsed(cal, a, b).value + Elapsed(cal, b, c).value
  {
    hide ScanDays, ElapsedScan, Dependable, DaysOf, Scanned;
    if a < b < c {
      IsOpenIsOpenOnSomeDate(cal, z);
      var open := Openness(DaysOf(cal, z));
      ElapsedCountsOpenMs(cal, z, open, a, c);
      OpensAgainInParts(cal, z, a, b, c);
      ElapsedCountsOpenMs(cal, z, open, a, b);
      ElapsedCountsOpenMs(cal, z, open, b, c);
      OpenMsAdds(open, a, b, c);
    }
  }

  /** `addBusinessMs` for d > 0: the least instant by which d milliseconds have been open. */
  lemma AddedIsLeast(cal: Calendar, z: Zone, open: Instant -> bool, x: Instant, d: nat)
    requires Dependable(cal, z) && IsOpenAnswers(cal, open)
    requires d > 0 && Added(cal, x, Finite(d)).Success?
    ensures var t := Added(cal, x, Finite(d)).value;
            && x < t
            && OpenMs(open, x, t) == d
            && forall u | x <= u < t :: OpenMs(open, x, u) < d
  {
    AddedOverScan(cal, z, x, d);
    ScanSeesIsOpen(cal, z, open, x);
    AddingIsLeast(open, x, Scanned(cal, z, x), d);
    var t := Added(cal, x, Finite(d)).value;
    forall u | x <= u < t
      ensures OpenMs(open, x, u) < d
    {
      CountPinsInstant(open, x, t, u);
    }
  }

  /**
   * `nextOpening`: the least open instant at or after x; x itself exactly when
   * x is open; and nothing only when nothing opens before the scan ends.
   */
  lemma NextOpeningIsLeast(cal: Calendar, z: Zone, open: Instant -> bool, x: Instant)
    requires Dependable(cal, z) && IsOpenAnswers(cal, open)
    ensures match Added(cal, x, Finite(0))
            case Success(t) => x <= t && open(t) && (t == x <==> open(x)) && forall u | x <= u < t :: !open(u)
            case Failure(_) => forall u | x <= u && open(u) :: PastAll(Scanned(cal, z, x), u)
  {
    AddedOverScan(cal, z, x, 0);
    ScanSeesIsOpen(cal, z, open, x);
    AddingNothingOpensNext(open, x, Scanned(cal, z, x));
  }

  /** Measuring undoes adding. */
  lemma ElapsedUndoesAdded(cal: Calendar, z: Zone, x: Instant, d: nat)
    requires Dependable(cal, z) && Added(cal, x, Finite(d)).Success?
    requires Elapsed(cal, x, Added(cal, x, Finite(d)).value).Success?
    ensures Elapsed(cal, x, Added(cal, x, Finite(d)).value) == Success(d)
  {
    IsOpenIsOpenOnSomeDate(cal, z);
    var open := Openness(DaysOf(cal, z));
    var t := Added(cal, x, Finite(d)).value;
    ElapsedCountsOpenMs(cal, z, open, x, t);
    if d == 0 {
      NextOpeningIsLeast(cal, z, open, x);
      OpenMsNone(open, x, t);
    } else {
      AddedIsLeast(cal, z, open, x, d);
    }
  }

  /** Adding m and then n more is adding m + n, whenever m + n can be placed at all. */
  lemma AddedComposes(cal: Calendar, z: Zone, x: Instant, m: nat, n: nat)
    requires Dependable(cal, z) && n > 0 && Added(cal, x, Finite(m + n)).Success?
    ensures Added(cal, x, Finite(m)).Success?
    ensures Added(cal, Added(cal, x, Finite(m)).value, Finite(n)) == Added(cal, x, Finite(m + n))
  {
    IsOpenIsOpenOnSomeDate(cal, z);
    var open, s := Openness(DaysOf(cal, z)), Scanned(cal, z, x);
    AddedOverScan(cal, z, x, m + n);
    AddedOverScan(cal, z, x, m);
    ScanSeesIsOpen(cal, z, open, x);
    AddingStopsOnTheWay(open, x, s, m, m + n);
    var y := AddOver(s, x, m).at;
    AddedOverScan(cal, z, y, n);
    ScanSeesIsOpen(cal, z, open, y);
    ScannedKeeps(cal, z, x, y);
    AddingComposes(open, x, s, m, n, Scanned(cal, z, y));
  }
}
