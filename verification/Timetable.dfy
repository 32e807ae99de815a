/**
 * What the dates of a calendar add up to, for any assignment of intervals to
 * local dates that keeps to its dates: the stream of dates is ascending, each
 * instant belongs to the date it reads or the one before, and a scan from an
 * instant is a horizon for everything open from then on.
 */
module Timetable {
  import opened Zones
  import opened BusinessCalendar
  import opened OpenTime
  import opened Horizon

  type Days = int -> seq<Interval>

  // The intervals of n consecutive local dates.
  ghost function DatesFrom(days: Days, day: int, n: nat): seq<Interval>
    decreases n, day
  {
    if n == 0 then [] else days(day) + DatesFrom(days, day + 1, n - 1)
  }

  // An instant that its own wall-clock reading converts back to.
  ghost predicate ConvertsBack(z: Zone, t: Instant) {
    WallToUtc(z, LocalTime(z, t)) == t
  }

  // Read in local time, an interval stays between the midnights of its date.
  ghost predicate WithinDate(z: Zone, day: int, i: Interval) {
    && ConvertsBack(z, i.start) && ConvertsBack(z, i.end)
    && day * DAY <= LocalTime(z, i.start) < LocalTime(z, i.end) <= (day + 1) * DAY
  }

  ghost predicate DateFits(z: Zone, day: int, s: seq<Interval>) {
    Ascending(s) && forall i | 0 <= i < |s| :: WithinDate(z, day, s[i])
  }

  // Local dates never go back: no clock change crosses midnight backwards.
  ghost predicate DatesNeverGoBack(z: Zone) {
    forall s, t :: s <= t ==> LocalDay(z, s) <= LocalDay(z, t)
  }

  ghost predicate DatesFit(z: Zone, days: Days) {
    forall day :: DateFits(z, day, days(day))
  }

  ghost predicate Fits(z: Zone, days: Days) {
    Settled(z) && DatesNeverGoBack(z) && DatesFit(z, days)
  }

  /* ------------------------------------------------------------ the stream of dates */

  lemma {:induction false} DatesFromSplits(days: Days, day: int, m: nat, n: nat)
    ensures DatesFrom(days, day, m + n) == DatesFrom(days, day, m) + DatesFrom(days, day + m, n)
    decreases m
  {
    if m > 0 {
      DatesFromSplits(days, day + 1, m - 1, n);
    }
  }

  // Where an interval of the stream comes from.
  lemma {:induction false} DateOf(days: Days, day: int, n: nat, k: nat) returns (d: int, j: nat)
    requires k < |DatesFrom(days, day, n)|
    ensures day <= d < day + n && j < |days(d)|
    ensures DatesFrom(days, day, n)[k] == days(d)[j]
    decreases n
  {
    if k < |days(day)| {
      d, j := day, k;
    } else {
      d, j := DateOf(days, day + 1, n - 1, k - |days(day)|);
    }
  }

  lemma {:induction false} DateIsIn(days: Days, day: int, n: nat, d: int, j: nat) returns (k: nat)
    requires day <= d < day + n && j < |days(d)|
    ensures k < |DatesFrom(days, day, n)| && DatesFrom(days, day, n)[k] == days(d)[j]
    decreases n
  {
    if d == day {
      k := j;
    } else {
      k := DateIsIn(days, day + 1, n - 1, d, j);
      k := k + |days(day)|;
    }
  }

  // The intervals of all dates, one after another, are ascending and disjoint.
  ghost predicate InOrder(days: Days) {
    && (forall d :: Ascending(days(d)))
    && forall d, e, i, j | d < e && 0 <= i < |days(d)| && 0 <= j < |days(e)| :: days(d)[i].end <= days(e)[j].start
  }

  lemma EarlierDateEndsFirst(z: Zone, days: Days, d: int, i: nat, d': int, j: nat)
    requires Settled(z) && DatesFit(z, days) && d < d'
    requires i < |days(d)| && j < |days(d')|
    ensures days(d)[i].end <= days(d')[j].start
  {
    assert DateFits(z, d, days(d)) && DateFits(z, d', days(d'));
    var closes, opens := days(d)[i].end, days(d')[j].start;
    assert WithinDate(z, d, days(d)[i]) && WithinDate(z, d', days(d')[j]);
    assert LocalTime(z, closes) <= (d + 1) * DAY <= d' * DAY <= LocalTime(z, opens);
    if LocalTime(z, closes) < LocalTime(z, opens) {
      ExistingWallsAscend(z, LocalTime(z, closes), LocalTime(z, opens));
    }
  }

  /** Dates that keep to themselves are in order. */
  lemma DatesThatFitAreInOrder(z: Zone, days: Days)
    requires Settled(z) && DatesFit(z, days)
    ensures InOrder(days)
  {
    forall d
      ensures Ascending(days(d))
    {
      assert DateFits(z, d, days(d));
    }
    forall d, e, i: nat, j: nat | d < e && i < |days(d)| && j < |days(e)|
      ensures days(d)[i].end <= days(e)[j].start
    {
      EarlierDateEndsFirst(z, days, d, i, e, j);
    }
  }

  /** Then any stretch of them is an ascending, disjoint stream. */
  lemma {:induction false} OrderedStreamAscends(days: Days, day: int, n: nat)
    requires InOrder(days)
    ensures Ascending(DatesFrom(days, day, n))
    decreases n
  {
    if n > 0 {
      OrderedStreamAscends(days, day + 1, n - 1);
      var today, later := days(day), DatesFrom(days, day + 1, n - 1);
      forall i, k | 0 <= i < |today| && 0 <= k < |later|
        ensures today[i].end <= later[k].start
      {
        var d, j := DateOf(days, day + 1, n - 1, k);
      }
      AscendingConcat(today, later);
    }
  }

  lemma StreamAscends(z: Zone, days: Days, day: int, n: nat)
    requires Settled(z) && DatesFit(z, days)
    ensures Ascending(DatesFrom(days, day, n))
  {
    DatesThatFitAreInOrder(z, days);
    OrderedStreamAscends(days, day, n);
  }

  /* ------------------------------------------------------------ pointwise */

  // Some local date has an interval holding this instant.
  ghost predicate OpenAt(days: Days, t: Instant) {
    exists d :: Covers(days(d), t)
  }

  ghost function Openness(days: Days): Instant -> bool {
    t => OpenAt(days, t)
  }

  // Inside an interval the date is the interval's, or it is after midnight and the end is midnight too.
  lemma IntervalSpansOneMidnight(z: Zone, day: int, i: Interval, t: Instant)
    requires DatesNeverGoBack(z)
    requires WithinDate(z, day, i) && Inside(i, t)
    ensures LocalDay(z, t) == day ||
            (LocalDay(z, t) == day + 1 && LocalTime(z, i.end) == (day + 1) * DAY <= LocalTime(z, t))
  {
    DayBrackets(LocalTime(z, i.start), day);
    DayBrackets(LocalTime(z, t), day + 1);
    DayBrackets(LocalTime(z, i.end), day + 1);
    assert LocalDay(z, i.start) <= LocalDay(z, t) <= LocalDay(z, i.end);
  }

  /** An interval that holds an instant belongs to its local date, or to that of 24 hours earlier. */
  lemma IntervalDate(z: Zone, day: int, i: Interval, t: Instant)
    requires Settled(z) && DatesNeverGoBack(z)
    requires WithinDate(z, day, i) && Inside(i, t)
    ensures day == LocalDay(z, t) || day == LocalDay(z, t - DAY)
  {
    IntervalSpansOneMidnight(z, day, i, t);
    if LocalDay(z, t) != day {
      // The hour from midnight repeats, and t is in its first pass.
      FirstPassIsADayOld(z, t, i.end);
      DayBrackets(LocalTime(z, t), day + 1);
      DayBrackets(LocalTime(z, t - DAY), day);
    }
  }

  // Before a change backwards, the offset of 24 hours ago still held.
  lemma FirstPassIsADayOld(z: Zone, t: Instant, later: Instant)
    requires Settled(z) && t < later && LocalTime(z, later) <= LocalTime(z, t)
    ensures z(t - DAY) == z(t)
  {
    assert SettledFrom(z, t - DAY);
    var T, a, b :| SmallChange(z, t - DAY, T, a, b);
    assert Ordinary(z, t) && Ordinary(z, later);
    assert later <= t + 2 * DAY;
    assert z(t) == if t < T then a else b;
    assert z(later) == if later < T then a else b;
    assert z(t - DAY) == if t - DAY < T then a else b;
  }

  // The interval an open instant lies in.
  lemma FitsInterval(z: Zone, days: Days, t: Instant) returns (d: int, i: nat)
    requires Fits(z, days) && OpenAt(days, t)
    ensures i < |days(d)| && Inside(days(d)[i], t) && WithinDate(z, d, days(d)[i])
  {
    d :| Covers(days(d), t);
    i :| 0 <= i < |days(d)| && Inside(days(d)[i], t);
    assert DateFits(z, d, days(d));
  }

  /** Two dates decide whether an instant is open: its own and that of 24 hours earlier. */
  lemma TwoDatesDecide(z: Zone, days: Days, t: Instant)
    requires Fits(z, days)
    ensures OpenAt(days, t) <==> Covers(days(LocalDay(z, t - DAY)) + days(LocalDay(z, t)), t)
  {
    CoversConcat(days(LocalDay(z, t - DAY)), days(LocalDay(z, t)), t);
    if OpenAt(days, t) {
      var d, i := FitsInterval(z, days, t);
      IntervalDate(z, d, days(d)[i], t);
      assert Covers(days(d), t);
    }
  }

  /* ------------------------------------------------------------ the horizon of a scan */

  // What a scan of n dates from x sees: it starts on the date of a day earlier.
  ghost function ScannedFrom(z: Zone, days: Days, x: Instant, n: nat): seq<Interval> {
    DatesFrom(days, LocalDay(z, x - DAY), n)
  }

  lemma ScannedIsOpen(z: Zone, days: Days, x: Instant, n: nat, t: Instant)
    requires Covers(ScannedFrom(z, days, x, n), t)
    ensures OpenAt(days, t)
  {
    var s := ScannedFrom(z, days, x, n);
    var k :| 0 <= k < |s| && Inside(s[k], t);
    var d, j := DateOf(days, LocalDay(z, x - DAY), n, k);
    assert Inside(days(d)[j], t);
    assert Covers(days(d), t);
  }

  lemma OpenIsScanned(z: Zone, days: Days, x: Instant, n: nat, t: Instant)
    requires Fits(z, days) && x <= t && OpenAt(days, t)
    ensures Covers(ScannedFrom(z, days, x, n), t) || PastAll(ScannedFrom(z, days, x, n), t)
  {
    var first := LocalDay(z, x - DAY);
    var s := ScannedFrom(z, days, x, n);
    var d, i := FitsInterval(z, days, t);
    IntervalDate(z, d, days(d)[i], t);
    assert first <= LocalDay(z, t - DAY) <= LocalDay(z, t);
    if d < first + n {
      var k := DateIsIn(days, first, n, d, i);
      assert Inside(s[k], t);
    } else {
      forall k | 0 <= k < |s|
        ensures s[k].end <= t
      {
        var e, j := DateOf(days, first, n, k);
        EarlierDateEndsFirst(z, days, e, j, d, i);
      }
    }
  }

  /** Starting a day early is enough: from x on, the scan sees everything open until it stops. */
  lemma ScanSees(z: Zone, days: Days, x: Instant, n: nat)
    requires Fits(z, days)
    ensures Sees(Openness(days), x, ScannedFrom(z, days, x, n))
  {
    var s := ScannedFrom(z, days, x, n);
    StreamAscends(z, days, LocalDay(z, x - DAY), n);
    forall t | Covers(s, t)
      ensures Openness(days)(t)
    {
      ScannedIsOpen(z, days, x, n, t);
    }
    forall t | x <= t && Openness(days)(t)
      ensures Covers(s, t) || PastAll(s, t)
    {
      OpenIsScanned(z, days, x, n, t);
    }
  }

  lemma LaterScanKeepsOne(z: Zone, days: Days, x: Instant, y: Instant, n: nat, k: nat)
    requires Fits(z, days) && x <= y
    requires k < |ScannedFrom(z, days, x, n)| && y < ScannedFrom(z, days, x, n)[k].end
    ensures ScannedFrom(z, days, x, n)[k] in ScannedFrom(z, days, y, n)
  {
    var firstX, firstY := LocalDay(z, x - DAY), LocalDay(z, y - DAY);
    var d, j := DateOf(days, firstX, n, k);
    assert DateFits(z, d, days(d));
    var u := days(d)[j].end - 1;
    assert WithinDate(z, d, days(d)[j]) && days(d)[j].start < days(d)[j].end;
    IntervalDate(z, d, days(d)[j], u);
    assert firstX <= firstY <= LocalDay(z, u - DAY) <= LocalDay(z, u);
    var k' := DateIsIn(days, firstY, n, d, j);
  }

  /** A later scan still sees every interval that has not ended when it starts. */
  lemma LaterScanKeeps(z: Zone, days: Days, x: Instant, y: Instant, n: nat)
    requires Fits(z, days) && x <= y
    ensures Keeps(ScannedFrom(z, days, x, n), ScannedFrom(z, days, y, n), y)
  {
    var s := ScannedFrom(z, days, x, n);
    forall k | 0 <= k < |s| && y < s[k].end
      ensures s[k] in ScannedFrom(z, days, y, n)
    {
      LaterScanKeepsOne(z, days, x, y, n, k);
    }
  }
}
