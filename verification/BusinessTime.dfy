/**
 * Adding and measuring working time over a calendar
 * (`packages/business-time/src/index.ts`).
 *
 * Both operations loop over the generator `scanDays`.  A generator is modelled
 * by what drives it: the intervals it yields at a cursor, and the next cursor.
 * The loops are proved for any such scan; `BusinessLaws` says what they
 * mean for the scan of a calendar.
 */
module BusinessTime {
  import opened Wrappers
  import opened Zones
  import opened BusinessCalendar
  import opened OpenTime

  const MAX_DAYS_SCANNED: nat := 3650

  datatype Scan = Scan(day: Instant -> Result<seq<Interval>, Error>, next: Instant -> Instant)

  // Midday of the cursor's local date.
  function Midday(z: Zone, cursor: Instant): Instant {
    WallToUtc(z, LocalDay(z, cursor) * DAY + 12 * HOUR)
  }

  /** `scanDays`: a local date's intervals, then midday of that date and a day more. */
  function ScanDays(cal: Calendar, z: Zone): Scan {
    Scan(cursor => OpenIntervals(cal, z, LocalDay(z, cursor)), cursor => Midday(z, cursor) + DAY)
  }

  datatype Duration = NotFinite | Finite(ms: int)

  function AddScan(scan: Scan, cursor: Instant, daysLeft: nat, from: Instant, remaining: nat): Result<Instant, Error>
    decreases daysLeft, cursor
  {
    if daysLeft == 0 then Failure(NoOpenTime)
    else
      match scan.day(cursor)
      case Failure(e) => Failure(e)
      case Success(intervals) =>
        match AddOver(intervals, from, remaining)
        case Reached(t) => Success(t)
        case Left(rest) => AddScan(scan, scan.next(cursor), daysLeft - 1, from, rest)
  }

  // What `addBusinessMs` answers; the scan starts a day early.
  function Added(cal: Calendar, from: Instant, duration: Duration): Result<Instant, Error> {
    if duration.NotFinite? || duration.ms < 0 then Failure(InvalidDuration)
    else
      match cal.zone
      case None => Failure(UnknownTimeZone)
      case Some(z) => AddScan(ScanDays(cal, z), from - DAY, MAX_DAYS_SCANNED, from, duration.ms)
  }

  method AddBusinessMs(cal: Calendar, from: Instant, duration: Duration) returns (r: Result<Instant, Error>)
    ensures r == Added(cal, from, duration)
  {
    if duration.NotFinite? || duration.ms < 0 {
      return Failure(InvalidDuration);
    }
    match cal.zone {
      case None => return Failure(UnknownTimeZone);
      case Some(z) => r := AddOverScan(ScanDays(cal, z), from - DAY, from, duration.ms);
    }
  }

  // The loop of `addBusinessMs`.
  method AddOverScan(scan: Scan, start: Instant, from: Instant, duration: nat) returns (r: Result<Instant, Error>)
    ensures r == AddScan(scan, start, MAX_DAYS_SCANNED, from, duration)
  {
    var remaining: nat := duration;
    var cursor := start;
    for scanned := 0 to MAX_DAYS_SCANNED
      invariant AddScan(scan, cursor, MAX_DAYS_SCANNED - scanned, from, remaining) ==
                AddScan(scan, start, MAX_DAYS_SCANNED, from, duration)
    {
      var day := scan.day(cursor);
      if day.Failure? {
        return Failure(day.error);
      }
      var placed := AddWithinDay(day.value, from, remaining);
      if placed.Reached? {
        return Success(placed.at);
      }
      remaining := placed.remaining;
      cursor := scan.next(cursor);
    }
    return Failure(NoOpenTime);
  }

  // The loop body of `addBusinessMs` over one date's intervals.
  method AddWithinDay(intervals: seq<Interval>, from: Instant, duration: nat) returns (r: Progress)
    ensures r == AddOver(intervals, from, duration)
  {
    var remaining := duration;
    for i := 0 to |intervals|
      invariant 0 <= remaining
      invariant AddOver(intervals[..i], from, duration) == Left(remaining)
    {
      assert intervals[..i + 1][..i] == intervals[..i];
      assert intervals == intervals[..i + 1] + intervals[i + 1..];
      AddConcat(intervals[..i + 1], intervals[i + 1..], from, duration);
      var interval := intervals[i];
      if interval.end <= from {
        continue;
      }
      var start := Max(interval.start, from);
      var available := interval.end - start;
      if available <= 0 {
        continue;
      }
      if remaining == 0 {
        return Reached(start);
      }
      if available >= remaining {
        return Reached(start + remaining);
      }
      remaining := remaining - available;
    }
    assert intervals[..|intervals|] == intervals;
    return Left(remaining);
  }

  function ElapsedScan(scan: Scan, cursor: Instant, daysLeft: nat, from: Instant, to: Instant, total: nat): Result<nat, Error>
    decreases daysLeft, cursor
  {
    if daysLeft == 0 then Failure(NoOpenTime)
    else
      match scan.day(cursor)
      case Failure(e) => Failure(e)
      case Success(intervals) =>
        match TallyOf(intervals, from, to)
        case Stopped(n) => Success(total + n)
        case Running(n) => ElapsedScan(scan, scan.next(cursor), daysLeft - 1, from, to, total + n)
  }

  // What `elapsedBusinessMs` answers.
  function Elapsed(cal: Calendar, from: Instant, to: Instant): Result<nat, Error> {
    if to <= from then Success(0)
    else
      match cal.zone
      case None => Failure(UnknownTimeZone)
      case Some(z) => ElapsedScan(ScanDays(cal, z), from - DAY, MAX_DAYS_SCANNED, from, to, 0)
  }

  method ElapsedBusinessMs(cal: Calendar, from: Instant, to: Instant) returns (r: Result<nat, Error>)
    ensures r == Elapsed(cal, from, to)
  {
    if to <= from {
      return Success(0);
    }
    match cal.zone {
      case None => return Failure(UnknownTimeZone);
      case Some(z) => r := TallyOverScan(ScanDays(cal, z), from - DAY, from, to);
    }
  }

  // The loop of `elapsedBusinessMs`.
  method TallyOverScan(scan: Scan, start: Instant, from: Instant, to: Instant) returns (r: Result<nat, Error>)
    ensures r == ElapsedScan(scan, start, MAX_DAYS_SCANNED, from, to, 0)
  {
    var total: nat := 0;
    var cursor := start;
    for scanned := 0 to MAX_DAYS_SCANNED
      invariant ElapsedScan(scan, cursor, MAX_DAYS_SCANNED - scanned, from, to, total) ==
                ElapsedScan(scan, start, MAX_DAYS_SCANNED, from, to, 0)
    {
      var day := scan.day(cursor);
      if day.Failure? {
        return Failure(day.error);
      }
      var tally := TallyWithinDay(day.value, from, to);
      total := total + tally.total;
      if tally.Stopped? {
        return Success(total);
      }
      cursor := scan.next(cursor);
    }
    return Failure(NoOpenTime);
  }

  // The loop body of `elapsedBusinessMs` over one date's intervals.
  method TallyWithinDay(intervals: seq<Interval>, from: Instant, to: Instant) returns (r: Tally)
    ensures r == TallyOf(intervals, from, to)
  {
    var total: nat := 0;
    for i := 0 to |intervals|
      invariant TallyOf(intervals[..i], from, to) == Running(total)
    {
      assert intervals[..i + 1][..i] == intervals[..i];
      assert intervals == intervals[..i + 1] + intervals[i + 1..];
      TallyConcat(intervals[..i + 1], intervals[i + 1..], from, to);
      var interval := intervals[i];
      if interval.start >= to {
        return Stopped(total);
      }
      var start := Max(interval.start, from);
      var end := Min(interval.end, to);
      if end > start {
        total := total + (end - start);
      }
    }
    assert intervals[..|intervals|] == intervals;
    return Running(total);
  }

  /** `isOpen`: the intervals of the local dates of this instant and of 24 hours earlier. */
  function IsOpen(cal: Calendar, t: Instant): Result<bool, Error> {
    match cal.zone
    case None => Failure(UnknownTimeZone)
    case Some(z) =>
      match OpenIntervals(cal, z, LocalDay(z, t - DAY))
      case Failure(e) => Failure(e)
      case Success(previous) =>
        match OpenIntervals(cal, z, LocalDay(z, t))
        case Failure(e) => Failure(e)
        case Success(today) =>
          var candidates := previous + today;
          Success(exists i | 0 <= i < |candidates| :: candidates[i].start <= t < candidates[i].end)
  }
}
