/**
 * Exactly when `elapsedBusinessMs` measures what a calendar's hours cover: when
 * the intervals of all its dates, once converted, are in order
 * (`packages/business-time/src/index.ts`).
 */
module MeasuredTime {
  import opened Wrappers
  import opened Zones
  import opened BusinessCalendar
  import opened OpenTime
  import opened Timetable
  import opened BusinessTime
  import opened CalendarLaws
  import opened MissedDates

  // Every range that can be measured is measured as what some date's intervals cover of it.
  ghost predicate MeasuresExactly(cal: Calendar, z: Zone) {
    forall from, to | from < to && Elapsed(cal, from, to).Success? ::
      Elapsed(cal, from, to).value == OpenMs(Openness(DaysOf(cal, z)), from, to)
  }

  // The calendar opens again within 3000 dates, whatever the date.
  ghost predicate KeepsOpening(days: Days) {
    forall d: int :: OpensSoon(days, d)
  }

  ghost predicate OpensSoon(days: Days, d: int) {
    exists e :: d <= e <= d + 3000 && days(e) != []
  }

  // What conversion leaves of every valid calendar: intervals from readings of their date, by start.
  ghost predicate FromItsDates(z: Zone, days: Days) {
    && (forall d, i | 0 <= i < |days(d)| :: FromReadings(z, d, days(d)[i]))
    && forall d :: StartsAscend(days(d))
  }

  lemma CalendarIsFromItsDates(cal: Calendar, z: Zone)
    requires ValidCalendar(cal) && Settled(z)
    ensures FromItsDates(z, DaysOf(cal, z)) && Yields(ScanDays(cal, z))
  {
    var days := DaysOf(cal, z);
    hide ValidCalendar, Settled, FromReadings;
    forall d
      ensures OpenIntervals(cal, z, d).Success? && StartsAscend(days(d))
      ensures forall i | 0 <= i < |days(d)| :: FromReadings(z, d, days(d)[i])
    {
      DateIntervalsFromReadings(cal, z, d);
      DateStartsAscend(cal, z, d);
    }
  }

  lemma DateStartsAscend(cal: Calendar, z: Zone, day: int)
    requires ValidCalendar(cal) && Settled(z)
    ensures OpenIntervals(cal, z, day).Success? && StartsAscend(OpenIntervals(cal, z, day).value)
  {
    hide ValidCalendar, Settled, PeriodsFor, Sound, Converted, SortByStart, FromReadings, StartsAscend;
    PeriodsAreSound(cal, day);
    ConvertedFromReadings(z, day, PeriodsFor(cal, day));
    var s := Converted(z, day, PeriodsFor(cal, day)).value;
    forall i | 0 <= i < |s|
      ensures s[i].start <= (day + 3) * DAY
    {
      assert s[i] in s;
      ReadingsStartNear(z, day, s[i]);
    }
    SortOrders(s, (day + 3) * DAY);
  }

  lemma ReadingsStartNear(z: Zone, day: int, x: Interval)
    requires Settled(z) && FromReadings(z, day, x)
    ensures x.start <= (day + 3) * DAY
  {
    var j: nat, k: nat :| j < k <= 1440 && x == ReadingsInterval(z, day, j, k);
    MinutesWithinDate(day, j, k);
    ConversionTwoPasses(z, day * DAY + j * MINUTE);
    hide WallToUtc, Settled;
  }

  /* ------------------------------------------------------------ dates far apart */

  // Readings a day apart convert in order.
  lemma DayApartConvertsInOrder(z: Zone, w: Wall, v: Wall)
    requires Settled(z) && w + DAY <= v
    ensures WallToUtc(z, w) < WallToUtc(z, v)
  {
    ConversionTwoPasses(z, w);
    ConversionTwoPasses(z, v);
    assert Ordinary(z, w - z(w)) && Ordinary(z, v - z(v));
    if v <= w + 2 * DAY {
      assert SettledFrom(z, w - DAY);
      var T, a, b :| SmallChange(z, w - DAY, T, a, b);
      assert z(w - z(w)) == if w - z(w) < T then a else b;
      assert z(v - z(v)) == if v - z(v) < T then a else b;
    }
  }

  // A date's intervals end before those of the date after next begin.
  lemma DatesApartAreInOrder(z: Zone, d: int, x: Interval, e: int, y: Interval)
    requires Settled(z) && d + 2 <= e && FromReadings(z, d, x) && FromReadings(z, e, y)
    ensures x.end <= y.start
  {
    hide Settled, WallToUtc;
    var j: nat, k: nat :| j < k <= 1440 && x == ReadingsInterval(z, d, j, k);
    var m: nat, n: nat :| m < n <= 1440 && y == ReadingsInterval(z, e, m, n);
    MinutesWithinDate(d, j, k);
    MinutesWithinDate(e, m, n);
    DayApartConvertsInOrder(z, d * DAY + k * MINUTE, e * DAY + m * MINUTE);
  }

  // The dates before the one a scan starts with are over when it begins to count.
  lemma EarlierDatesAreOver(z: Zone, from: Instant, d: int, x: Interval)
    requires Settled(z) && FromReadings(z, d, x) && d < LocalDay(z, from - DAY)
    ensures x.end <= from
  {
    var j: nat, k: nat :| j < k <= 1440 && x == ReadingsInterval(z, d, j, k);
    MinutesWithinDate(d, j, k);
    var w := d * DAY + k * MINUTE;
    DayBrackets(LocalTime(z, from - DAY), LocalDay(z, from - DAY));
    assert w <= LocalTime(z, from - DAY);
    hide LocalDay, WallToUtc;
    ReadingOfDayBefore(z, from, w);
  }

  // A reading up to that of 24 hours ago has come.
  lemma ReadingOfDayBefore(z: Zone, from: Instant, w: Wall)
    requires Settled(z) && w <= LocalTime(z, from - DAY)
    ensures WallToUtc(z, w) <= from
  {
    var last := LocalTime(z, from - DAY);
    assert SettledFrom(z, from - 3 * DAY);
    var T, a, b :| SmallChange(z, from - 3 * DAY, T, a, b);
    assert Ordinary(z, from - DAY) && Ordinary(z, w) && Ordinary(z, w - z(w));
    ConversionTwoPasses(z, w);
    assert z(from - DAY) == if from - DAY < T then a else b;
    if from - 2 * DAY <= w {
      assert from - 3 * DAY <= w - z(w) <= from + DAY;
      assert z(w - z(w)) == if w - z(w) < T then a else b;
    }
  }

  // An instant is covered by a date two from its own at most.
  lemma DateNearInstant(z: Zone, t: Instant, d: int, x: Interval)
    requires Settled(z) && FromReadings(z, d, x) && Inside(x, t)
    ensures LocalDay(z, t - DAY) <= d <= LocalDay(z, t - DAY) + 3
  {
    hide Settled, WallToUtc;
    if d < LocalDay(z, t - DAY) {
      EarlierDatesAreOver(z, t, d, x);
    }
    var j: nat, k: nat :| j < k <= 1440 && x == ReadingsInterval(z, d, j, k);
    MinutesWithinDate(d, j, k);
    DateIsNextTo(z, d, d * DAY + j * MINUTE, d * DAY + k * MINUTE, t);
    DayBeforeNear(z, t);
  }

  /* ------------------------------------------------------------ any list of intervals */

  lemma {:induction false} TallyStopsIff(s: seq<Interval>, from: Instant, to: Instant)
    ensures TallyOf(s, from, to).Stopped? <==> exists i :: 0 <= i < |s| && s[i].start >= to
    ensures TallyOf(s, from, to).total <= Total(s, from, to)
  {
    if s != [] {
      TallyStopsIff(s[..|s| - 1], from, to);
    }
  }

  // Once an interval starts at or after `to`, so do all that follow.
  ghost predicate LateLast(s: seq<Interval>, to: Instant) {
    forall i, j | 0 <= i < j < |s| && s[i].start >= to :: s[j].start >= to
  }

  lemma {:induction false} LateLastTallies(s: seq<Interval>, from: Instant, to: Instant)
    requires LateLast(s, to)
    ensures TallyOf(s, from, to).total == Total(s, from, to)
  {
    if s != [] {
      LateLastTallies(s[..|s| - 1], from, to);
      TallyStopsIff(s[..|s| - 1], from, to);
    }
  }

  lemma {:induction false} TotalAdds(s: seq<Interval>, a: Instant, b: Instant, c: Instant)
    requires a <= b <= c && forall i | 0 <= i < |s| :: s[i].start < s[i].end
    ensures Total(s, a, c) == Total(s, a, b) + Total(s, b, c)
  {
    if s != [] {
      TotalAdds(s[..|s| - 1], a, b, c);
    }
  }

  // Summing never falls short of counting.
  lemma {:induction false} TotalAtLeastCount(s: seq<Interval>, from: Instant, to: Instant)
    requires forall i | 0 <= i < |s| :: s[i].start < s[i].end
    ensures Total(s, from, to) >= OpenMs(Covered(s), from, to)
    decreases (to - from)
  {
    if from < to {
      TotalAtLeastCount(s, from, to - 1);
      TotalAdds(s, from, to - 1, to);
      CoveredIffTotal(s, to - 1);
    }
  }

  // It exceeds it where one millisecond is summed twice.
  lemma TotalExceedsCount(s: seq<Interval>, t: Instant, to: Instant)
    requires t < to && Total(s, t, t + 1) >= 2 && forall i | 0 <= i < |s| :: s[i].start < s[i].end
    ensures Total(s, t, to) > OpenMs(Covered(s), t, to)
  {
    TotalAdds(s, t, t + 1, to);
    TotalAtLeastCount(s, t + 1, to);
    OpenMsAdds(Covered(s), t, t + 1, to);
    assert OpenMs(Covered(s), t, t) == 0;
  }

  lemma {:induction false} NothingInside(s: seq<Interval>, from: Instant, to: Instant)
    requires forall i | 0 <= i < |s| :: s[i].end <= from || to <= s[i].start
    ensures Total(s, from, to) == 0
  {
    if s != [] {
      NothingInside(s[..|s| - 1], from, to);
    }
  }

  function MinStart(s: seq<Interval>): Instant
    requires s != []
  {
    if |s| == 1 then s[0].start
    else Min(MinStart(s[..|s| - 1]), s[|s| - 1].start)
  }

  lemma {:induction false} MinStartIsLeast(s: seq<Interval>)
    requires s != []
    ensures forall i | 0 <= i < |s| :: MinStart(s) <= s[i].start
  {
    if |s| > 1 {
      MinStartIsLeast(s[..|s| - 1]);
    }
  }

  lemma {:induction false} MinStartIsOne(s: seq<Interval>)
    requires s != []
    ensures exists i :: 0 <= i < |s| && s[i].start == MinStart(s)
  {
    if |s| == 1 {
      assert s[0].start == MinStart(s);
    } else {
      var front := s[..|s| - 1];
      MinStartIsOne(front);
      var i :| 0 <= i < |front| && front[i].start == MinStart(front);
      if MinStart(front) < s[|s| - 1].start {
        assert s[i].start == MinStart(s);
      } else {
        assert s[|s| - 1].start == MinStart(s);
      }
    }
  }

  /* ------------------------------------------------------------ in order */

  // What a scan sees of a range it can measure, where dates are in order.
  lemma OrderedScanCovers(z: Zone, days: Days, from: Instant, to: Instant, n: nat, t: Instant)
    requires Settled(z) && FromItsDates(z, days) && InOrder(days) && from <= t < to
    requires var s := DatesFrom(days, LocalDay(z, from - DAY), n); exists k :: 0 <= k < |s| && s[k].start >= to
    ensures OpenAt(days, t) <==> Covers(DatesFrom(days, LocalDay(z, from - DAY), n), t)
  {
    hide Settled, FromReadings, LocalDay;
    var f := LocalDay(z, from - DAY);
    var s := DatesFrom(days, f, n);
    var k :| 0 <= k < |s| && s[k].start >= to;
    var g, m := DateOf(days, f, n, k);
    if OpenAt(days, t) {
      var e :| Covers(days(e), t);
      var i :| 0 <= i < |days(e)| && Inside(days(e)[i], t);
      assert FromReadings(z, e, days(e)[i]) && Ascending(days(g));
      if e < f {
        EarlierDatesAreOver(z, from, e, days(e)[i]);
      }
      assert e <= g;
      var p := DateIsIn(days, f, n, e, i);
      assert Inside(s[p], t);
    }
    if Covers(s, t) {
      var p :| 0 <= p < |s| && Inside(s[p], t);
      var e, i := DateOf(days, f, n, p);
      assert Covers(days(e), t);
    }
  }

  lemma OrderedMeasures(cal: Calendar, z: Zone)
    requires ValidCalendar(cal) && cal.zone == Some(z) && Settled(z) && InOrder(DaysOf(cal, z))
    ensures MeasuresExactly(cal, z)
  {
    var days := DaysOf(cal, z);
    hide ValidCalendar, Settled, Elapsed, InOrder, FromItsDates, DaysOf, Yields, LocalDay;
    CalendarIsFromItsDates(cal, z);
    forall from, to | from < to && Elapsed(cal, from, to).Success?
      ensures Elapsed(cal, from, to).value == OpenMs(Openness(days), from, to)
    {
      ElapsedIsTally(cal, z, from, to);
      OrderedTally(z, days, from, to, MAX_DAYS_SCANNED);
    }
  }

  lemma OrderedTally(z: Zone, days: Days, from: Instant, to: Instant, n: nat)
    requires Settled(z) && FromItsDates(z, days) && InOrder(days) && from < to
    requires TallyOf(DatesFrom(days, LocalDay(z, from - DAY), n), from, to).Stopped?
    ensures TallyOf(DatesFrom(days, LocalDay(z, from - DAY), n), from, to).total == OpenMs(Openness(days), from, to)
  {
    hide Settled, FromItsDates, InOrder, LocalDay;
    var s := DatesFrom(days, LocalDay(z, from - DAY), n);
    OrderedStreamAscends(days, LocalDay(z, from - DAY), n);
    TallyIsTotal(s, from, to);
    AscendingIsDisjoint(s);
    TotalCounts(s, from, to);
    forall t | from <= t < to
      ensures Covered(s)(t) == Openness(days)(t)
    {
      OrderedScanCovers(z, days, from, to, n, t);
    }
    OpenMsAgree(Covered(s), Openness(days), from, to);
  }

  lemma AscendingIsDisjoint(s: seq<Interval>)
    requires Ascending(s)
    ensures Disjoint(s)
  {
  }

  /* ------------------------------------------------------------ out of order */

  // Interval i of date d and interval j of date e are two, and share an instant.
  ghost predicate Overlap(days: Days, d: int, i: nat, e: int, j: nat, t: Instant) {
    && i < |days(d)| && j < |days(e)| && (d < e || (d == e && i < j))
    && Inside(days(d)[i], t) && Inside(days(e)[j], t)
  }

  // Interval j of a later date comes before interval i of an earlier one.
  ghost predicate Reversed(days: Days, d: int, i: nat, e: int, j: nat) {
    && i < |days(d)| && j < |days(e)| && d < e
    && days(e)[j].end <= days(d)[i].start
  }

  lemma DateOutOfOrder(z: Zone, days: Days, d: int) returns (i: nat, j: nat, t: Instant)
    requires FromItsDates(z, days) && !Ascending(days(d))
    ensures Overlap(days, d, i, d, j, t)
  {
    var s := days(d);
    assert StartsAscend(s);
    forall p | 0 <= p < |s|
      ensures s[p].start < s[p].end
    {
      ReadingsAreNotEmpty(z, d, s[p]);
    }
    hide FromItsDates, FromReadings;
    i, j :| 0 <= i < j < |s| && s[i].end > s[j].start;
    t := s[j].start;
  }

  lemma DatesOutOfOrder(z: Zone, days: Days, d: int, i: nat, e: int, j: nat)
    requires FromItsDates(z, days) && d < e && i < |days(d)| && j < |days(e)| && days(d)[i].end > days(e)[j].start
    ensures Reversed(days, d, i, e, j) || Overlap(days, d, i, e, j, Max(days(d)[i].start, days(e)[j].start))
  {
    ReadingsAreNotEmpty(z, d, days(d)[i]);
    ReadingsAreNotEmpty(z, e, days(e)[j]);
    hide FromItsDates, FromReadings;
  }

  lemma OutOfOrder(z: Zone, days: Days)
    requires FromItsDates(z, days) && !InOrder(days)
    ensures (exists d, i: nat, e, j: nat, t :: Overlap(days, d, i, e, j, t)) || (exists d, i: nat, e, j: nat :: Reversed(days, d, i, e, j))
  {
    hide FromItsDates, Ascending, Overlap, Reversed;
    if d :| !Ascending(days(d)) {
      var i, j, t := DateOutOfOrder(z, days, d);
    } else {
      var d, e, i: nat, j: nat :| d < e && i < |days(d)| && j < |days(e)| && days(d)[i].end > days(e)[j].start;
      DatesOutOfOrder(z, days, d, i, e, j);
    }
  }

  lemma OpenFromStart(open: Instant -> bool, from: Instant, to: Instant)
    requires from < to && open(from)
    ensures OpenMs(open, from, to) > 0
  {
    OpenMsAdds(open, from, from + 1, to);
    assert OpenMs(open, from, from) == 0;
  }

  // Where no two intervals share an instant, one before another keeps out of its way.
  lemma ApartFrom(z: Zone, days: Days, d: int, i: nat, e: int, j: nat)
    requires FromItsDates(z, days) && d < e && i < |days(d)| && j < |days(e)|
    requires forall t :: !Overlap(days, d, i, e, j, t)
    ensures days(d)[i].end <= days(e)[j].start || days(e)[j].end <= days(d)[i].start
  {
    hide WallToUtc;
    var x, y := days(d)[i], days(e)[j];
    assert FromReadings(z, d, x) && FromReadings(z, e, y);
    assert !Overlap(days, d, i, e, j, Max(x.start, y.start));
  }

  // A stream whose earlier dates keep out of [from, to), one of them after it, is tallied as nothing.
  lemma TalliesNothing(z: Zone, days: Days, f: int, n: nat, d: int, i: nat, e: int, j: nat)
    requires FromItsDates(z, days) && Reversed(days, d, i, e, j) && f <= d && e < f + n
    requires forall d, i: nat, e, j: nat, t :: !Overlap(days, d, i, e, j, t)
    ensures TallyOf(DatesFrom(days, f, n), days(e)[j].start, days(e)[j].end) == Stopped(0)
  {
    hide FromItsDates, Overlap;
    var from, to := days(e)[j].start, days(e)[j].end;
    var early, rest := DatesFrom(days, f, e - f), DatesFrom(days, e, n - (e - f));
    DatesFromSplits(days, f, e - f, n - (e - f));
    var k := DateIsIn(days, f, e - f, d, i);
    assert early[k].start >= to;
    TallyStopsIff(early, from, to);
    forall p | 0 <= p < |early|
      ensures early[p].end <= from || to <= early[p].start
    {
      var g, m := DateOf(days, f, e - f, p);
      ApartFrom(z, days, g, m, e, j);
    }
    NothingInside(early, from, to);
    TallyConcat(early, rest, from, to);
  }

  lemma ReversedIsMissed(cal: Calendar, z: Zone, d: int, i: nat, e: int, j: nat)
    requires ValidCalendar(cal) && cal.zone == Some(z) && Settled(z)
    requires Reversed(DaysOf(cal, z), d, i, e, j)
    requires forall d, i: nat, e, j: nat, t :: !Overlap(DaysOf(cal, z), d, i, e, j, t)
    ensures !MeasuresExactly(cal, z)
  {
    var days := DaysOf(cal, z);
    hide ValidCalendar, Settled, Elapsed, FromReadings, DaysOf, Yields, LocalDay, Overlap;
    CalendarIsFromItsDates(cal, z);
    var x, y := days(d)[i], days(e)[j];
    assert FromReadings(z, d, x) && FromReadings(z, e, y);
    ReadingsAreNotEmpty(z, d, x);
    ReadingsAreNotEmpty(z, e, y);
    var f := LocalDay(z, y.start - DAY);
    if d < f {
      EarlierDatesAreOver(z, y.start, d, x);
    }
    DateNearInstant(z, y.start, e, y);
    ElapsedIsTally(cal, z, y.start, y.end);
    TalliesNothing(z, days, f, MAX_DAYS_SCANNED, d, i, e, j);
    assert Covers(days(e), y.start);
    OpenFromStart(Openness(days), y.start, y.end);
    hide DatesFrom, TallyOf, OpenMs;
    assert Elapsed(cal, y.start, y.end) == Success(0);
  }

  lemma ReadingsAreNotEmpty(z: Zone, d: int, x: Interval)
    requires FromReadings(z, d, x)
    ensures x.start < x.end
  {
  }

  /* ------------------------------------------------------------ twice */

  lemma {:induction false} AllLateStops(s: seq<Interval>, from: Instant, to: Instant)
    requires s != [] && forall i | 0 <= i < |s| :: s[i].start >= to
    ensures TallyOf(s, from, to) == Stopped(0)
  {
    if |s| == 1 {
      assert s[..0] == [];
      assert TallyOf([], from, to) == Running(0);
    } else {
      AllLateStops(s[..|s| - 1], from, to);
    }
  }

  // Every interval of date D or later starts at `to` or later, and one of them at `to` itself.
  ghost predicate StartOfTheRest(days: Days, D: int, to: Instant) {
    && (forall g, m: nat | D <= g && m < |days(g)| :: to <= days(g)[m].start)
    && exists g, m: nat :: D <= g <= D + 3001 && m < |days(g)| && days(g)[m].start == to
  }

  lemma SomeStartOfTheRest(z: Zone, days: Days, D: int)
    requires Settled(z) && FromItsDates(z, days) && OpensSoon(days, D)
    ensures exists to :: StartOfTheRest(days, D, to)
  {
    hide Settled, FromReadings;
    var D0 :| D <= D0 <= D + 3000 && days(D0) != [];
    var n := D0 + 2 - D;
    var s := DatesFrom(days, D, n);
    var k := DateIsIn(days, D, n, D0, 0);
    MinStartIsLeast(s);
    MinStartIsOne(s);
    var to := MinStart(s);
    forall g, m: nat | D <= g && m < |days(g)|
      ensures to <= days(g)[m].start
    {
      if g < D + n {
        var p := DateIsIn(days, D, n, g, m);
      } else {
        assert FromReadings(z, D0, days(D0)[0]) && FromReadings(z, g, days(g)[m]);
        DatesApartAreInOrder(z, D0, days(D0)[0], g, days(g)[m]);
        ReadingsAreNotEmpty(z, D0, days(D0)[0]);
      }
    }
    var q :| 0 <= q < |s| && s[q].start == to;
    var g, m := DateOf(days, D, n, q);
    assert days(g)[m].start == to;
    assert StartOfTheRest(days, D, to);
  }

  lemma TallyOfThree(early: seq<Interval>, last: seq<Interval>, rest: seq<Interval>, from: Instant, to: Instant)
    requires (forall p | 0 <= p < |early| :: early[p].start < to) && LateLast(last, to)
    requires rest != [] && forall p | 0 <= p < |rest| :: rest[p].start >= to
    ensures TallyOf(early + last + rest, from, to) == Stopped(Total(early + last, from, to))
  {
    TallyStopsIff(early, from, to);
    LateLastTallies(early, from, to);
    LateLastTallies(last, from, to);
    AllLateStops(rest, from, to);
    TallyConcat(early, last, from, to);
    TotalConcat(early, last, from, to);
    TallyConcat(early + last, rest, from, to);
    hide TallyOf, Total;
  }

  // The dates before the one before D start before the rest.
  lemma EarlyStarts(z: Zone, days: Days, f: int, n: nat, D: int, to: Instant)
    requires Settled(z) && FromItsDates(z, days) && StartOfTheRest(days, D, to) && f + n < D
    ensures var s := DatesFrom(days, f, n); forall p | 0 <= p < |s| :: s[p].start < to
  {
    hide Settled, FromReadings;
    var g0, m0: nat :| D <= g0 <= D + 3001 && m0 < |days(g0)| && days(g0)[m0].start == to;
    var s := DatesFrom(days, f, n);
    forall p | 0 <= p < |s|
      ensures s[p].start < to
    {
      var g, m := DateOf(days, f, n, p);
      assert FromReadings(z, g, days(g)[m]) && FromReadings(z, g0, days(g0)[m0]);
      DatesApartAreInOrder(z, g, days(g)[m], g0, days(g0)[m0]);
      ReadingsAreNotEmpty(z, g, days(g)[m]);
    }
  }

  lemma RestStarts(days: Days, D: int, n: nat, to: Instant)
    requires StartOfTheRest(days, D, to) && n >= 3002
    ensures var s := DatesFrom(days, D, n); s != [] && forall p | 0 <= p < |s| :: s[p].start >= to
  {
    var s := DatesFrom(days, D, n);
    var g0, m0: nat :| D <= g0 <= D + 3001 && m0 < |days(g0)| && days(g0)[m0].start == to;
    var k := DateIsIn(days, D, n, g0, m0);
    forall p | 0 <= p < |s|
      ensures s[p].start >= to
    {
      var g, m := DateOf(days, D, n, p);
    }
  }

  // A scan that reaches past date D tallies the dates before it in full, up to there.
  lemma TalliesInFull(z: Zone, days: Days, f: int, D: int, n: nat, from: Instant, to: Instant)
    requires Settled(z) && FromItsDates(z, days) && StartOfTheRest(days, D, to)
    requires f < D && D + 3002 <= f + n
    ensures TallyOf(DatesFrom(days, f, n), from, to) == Stopped(Total(DatesFrom(days, f, D - f), from, to))
  {
    hide Settled, FromItsDates, StartOfTheRest, DatesFrom, TallyOf, Total, LateLast;
    var k := D - 1 - f;
    EarlyStarts(z, days, f, k, D, to);
    RestStarts(days, D, n - (k + 1), to);
    DatesFromSplits(days, f, k + 1, n - (k + 1));
    DatesFromSplits(days, f, k, 1);
    OneDate(days, D - 1);
    DateIsLateLast(z, days, D - 1, to);
    TallyOfThree(DatesFrom(days, f, k), days(D - 1), DatesFrom(days, D, n - (k + 1)), from, to);
  }

  lemma DateIsLateLast(z: Zone, days: Days, d: int, to: Instant)
    requires FromItsDates(z, days)
    ensures LateLast(days(d), to)
  {
    hide FromReadings;
    assert StartsAscend(days(d));
  }

  lemma OneDate(days: Days, d: int)
    ensures DatesFrom(days, d, 1) == days(d)
  {
    assert DatesFrom(days, d + 1, 0) == [];
  }

  // Two intervals that share t are summed twice there.
  lemma SummedTwice(days: Days, f: int, D: int, d: int, i: nat, e: int, j: nat, t: Instant)
    requires Overlap(days, d, i, e, j, t) && f <= d && e < D
    ensures Total(DatesFrom(days, f, D - f), t, t + 1) >= 2
  {
    if d == e {
      SummedTwiceOnADate(days, f, D, d, i, j, t);
    } else {
      SummedOnTwoDates(days, f, D, d, i, e, j, t);
    }
  }

  lemma DatesAround(days: Days, f: int, D: int, d: int)
    requires f <= d < D
    ensures DatesFrom(days, f, D - f) == DatesFrom(days, f, d - f) + (days(d) + DatesFrom(days, d + 1, D - d - 1))
  {
    DatesFromSplits(days, f, d - f, D - d);
  }

  lemma MiddleOfTotal(front: seq<Interval>, middle: seq<Interval>, rest: seq<Interval>, from: Instant, to: Instant)
    ensures Total(front + (middle + rest), from, to) >= Total(middle, from, to)
  {
    hide Total;
    TotalConcat(front, middle + rest, from, to);
    TotalConcat(middle, rest, from, to);
  }

  lemma SummedTwiceOnADate(days: Days, f: int, D: int, d: int, i: nat, j: nat, t: Instant)
    requires Overlap(days, d, i, d, j, t) && f <= d < D
    ensures Total(DatesFrom(days, f, D - f), t, t + 1) >= 2
  {
    SharedIsSummedTwice(days(d), i, j, t);
    DatesAround(days, f, D, d);
    hide DatesFrom, Total, Overlap;
    MiddleOfTotal(DatesFrom(days, f, d - f), days(d), DatesFrom(days, d + 1, D - d - 1), t, t + 1);
  }

  lemma SharedIsSummedTwice(s: seq<Interval>, i: nat, j: nat, t: Instant)
    requires i < j < |s| && Inside(s[i], t) && Inside(s[j], t)
    ensures Total(s, t, t + 1) >= 2
  {
    TotalAtLeast(s, i, j, t, t + 1);
    hide Total;
  }

  lemma SummedOnTwoDates(days: Days, f: int, D: int, d: int, i: nat, e: int, j: nat, t: Instant)
    requires Overlap(days, d, i, e, j, t) && f <= d < e < D
    ensures Total(DatesFrom(days, f, D - f), t, t + 1) >= 2
  {
    DatesFromSplits(days, f, e - f, D - e);
    var front, rest := DatesFrom(days, f, e - f), DatesFrom(days, e, D - e);
    hide DatesFrom, Total;
    var k := DateIsIn(days, f, e - f, d, i);
    assert Inside(front[k], t);
    var l := DateIsIn(days, e, D - e, e, j);
    assert Inside(rest[l], t);
    TotalConcat(front, rest, t, t + 1);
    CoveredIffTotal(front, t);
    CoveredIffTotal(rest, t);
  }

  // Between from and the start of the rest, the dates before it hold whatever is open.
  lemma EarlyDatesCover(z: Zone, days: Days, from: Instant, D: int, to: Instant, u: Instant)
    requires Settled(z) && FromItsDates(z, days) && StartOfTheRest(days, D, to) && from <= u < to && LocalDay(z, from - DAY) < D
    ensures OpenAt(days, u) <==> Covers(DatesFrom(days, LocalDay(z, from - DAY), D - LocalDay(z, from - DAY)), u)
  {
    hide Settled, FromReadings, LocalDay;
    var f := LocalDay(z, from - DAY);
    var s := DatesFrom(days, f, D - f);
    if OpenAt(days, u) {
      var e :| Covers(days(e), u);
      var i :| 0 <= i < |days(e)| && Inside(days(e)[i], u);
      assert FromReadings(z, e, days(e)[i]);
      if e < f {
        EarlierDatesAreOver(z, from, e, days(e)[i]);
      }
      var p := DateIsIn(days, f, D - f, e, i);
      assert Inside(s[p], u);
    }
    if Covers(s, u) {
      var p :| 0 <= p < |s| && Inside(s[p], u);
      var e, i := DateOf(days, f, D - f, p);
      assert Covers(days(e), u);
    }
  }

  lemma EarlyDatesAreNotEmpty(z: Zone, days: Days, f: int, n: nat)
    requires FromItsDates(z, days)
    ensures var s := DatesFrom(days, f, n); forall p | 0 <= p < |s| :: s[p].start < s[p].end
  {
    hide FromReadings;
    forall p | 0 <= p < |DatesFrom(days, f, n)|
      ensures DatesFrom(days, f, n)[p].start < DatesFrom(days, f, n)[p].end
    {
      var g, m := DateOf(days, f, n, p);
      ReadingsAreNotEmpty(z, g, days(g)[m]);
    }
  }

  lemma OverlapCountsTwice(cal: Calendar, z: Zone, d: int, i: nat, e: int, j: nat, t: Instant)
    requires ValidCalendar(cal) && cal.zone == Some(z) && Settled(z) && KeepsOpening(DaysOf(cal, z))
    requires Overlap(DaysOf(cal, z), d, i, e, j, t)
    ensures !MeasuresExactly(cal, z)
  {
    var days := DaysOf(cal, z);
    hide ValidCalendar, Settled, Elapsed, FromReadings, DaysOf, Yields, LocalDay, OpensSoon, StartOfTheRest, DatesFrom, TallyOf, OpenMs, Total, MeasuresExactly;
    CalendarIsFromItsDates(cal, z);
    var x, y := days(d)[i], days(e)[j];
    assert FromReadings(z, d, x) && FromReadings(z, e, y);
    DateNearInstant(z, t, d, x);
    DateNearInstant(z, t, e, y);
    var f, D := LocalDay(z, t - DAY), e + 2;
    assert OpensSoon(days, D);
    SomeStartOfTheRest(z, days, D);
    var to :| StartOfTheRest(days, D, to);
    RestIsLater(z, days, D, to, e, y, t);
    ElapsedIsTally(cal, z, t, to);
    TalliesInFull(z, days, f, D, MAX_DAYS_SCANNED, t, to);
    var s := DatesFrom(days, f, D - f);
    assert Elapsed(cal, t, to) == Success(Total(s, t, to));
    SummedTwice(days, f, D, d, i, e, j, t);
    EarlyDatesAreNotEmpty(z, days, f, D - f);
    TotalExceedsCount(s, t, to);
    forall u | t <= u < to
      ensures Covered(s)(u) == Openness(days)(u)
    {
      EarlyDatesCover(z, days, t, D, to, u);
    }
    OpenMsAgree(Covered(s), Openness(days), t, to);
    NotExactAt(cal, z, t, to);
  }

  lemma RestIsLater(z: Zone, days: Days, D: int, to: Instant, e: int, y: Interval, t: Instant)
    requires Settled(z) && FromItsDates(z, days) && StartOfTheRest(days, D, to) && e + 2 <= D && FromReadings(z, e, y) && Inside(y, t)
    ensures t < to
  {
    hide Settled, FromReadings;
    var g, m: nat :| D <= g <= D + 3001 && m < |days(g)| && days(g)[m].start == to;
    assert FromReadings(z, g, days(g)[m]);
    DatesApartAreInOrder(z, e, y, g, days(g)[m]);
  }

  lemma NotExactAt(cal: Calendar, z: Zone, from: Instant, to: Instant)
    requires from < to && Elapsed(cal, from, to).Success?
    requires Elapsed(cal, from, to).value != OpenMs(Openness(DaysOf(cal, z)), from, to)
    ensures !MeasuresExactly(cal, z)
  {
    hide Elapsed, OpenMs, DaysOf;
  }

  /* ------------------------------------------------------------ the condition */

  /**
   * For every valid calendar that keeps opening, `elapsedBusinessMs` measures
   * every range it can exactly if and only if the intervals of all dates are in
   * order: overlapping ones are counted twice, and one that comes before another
   * of an earlier date is missed.
   */
  lemma MeasuresExactlyIff(cal: Calendar, z: Zone)
    requires ValidCalendar(cal) && cal.zone == Some(z) && Settled(z) && KeepsOpening(DaysOf(cal, z))
    ensures MeasuresExactly(cal, z) <==> InOrder(DaysOf(cal, z))
  {
    var days := DaysOf(cal, z);
    hide ValidCalendar, Settled, MeasuresExactly, InOrder, FromItsDates, DaysOf, Yields, Overlap, Reversed;
    CalendarIsFromItsDates(cal, z);
    if InOrder(days) {
      OrderedMeasures(cal, z);
    } else {
      OutOfOrder(z, days);
      if d, i: nat, e, j: nat, t :| Overlap(days, d, i, e, j, t) {
        OverlapCountsTwice(cal, z, d, i, e, j, t);
      } else {
        var d, i: nat, e, j: nat :| Reversed(days, d, i, e, j);
        ReversedIsMissed(cal, z, d, i, e, j);
      }
    }
  }
}
