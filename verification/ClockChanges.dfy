/**
 * What a clock change does to a date's periods: exactly which readings come out
 * of conversion in the wrong order, and so exactly when working time is counted
 * twice (`packages/business-time/src/index.ts`).
 */
module ClockChanges {
  import opened Wrappers
  import opened Zones
  import opened BusinessCalendar
  import opened OpenTime
  import opened CalendarLaws

  /* ------------------------------------------------------------ two readings */

  // One of two readings, c up to r, is skipped and the change pulls them together:
  // c is shifted forward and r lies past the hour, or r is shifted back and c lies before it.
  predicate PulledTogether(T: Instant, a: int, b: int, c: Wall, r: Wall) {
    || (InGap(c, T, a, b) && T <= c && T + b <= r)
    || (InGap(r, T, a, b) && r < T && c < T + a)
  }

  // They are pulled past one another, or at least onto one another.
  predicate Swaps(T: Instant, a: int, b: int, c: Wall, r: Wall) {
    PulledTogether(T, a, b, c, r) && r - c < b - a
  }

  predicate Collapses(T: Instant, a: int, b: int, c: Wall, r: Wall) {
    c == r || (PulledTogether(T, a, b, c, r) && r - c <= b - a)
  }

  /** Two readings in order convert out of order exactly where the change pulls them together by more than their distance. */
  lemma ConversionSwapsIff(z: Zone, T: Instant, a: int, b: int, c: Wall, r: Wall)
    requires OneChangeAround(z, c, T, a, b) && OneChangeAround(z, r, T, a, b) && c <= r
    ensures WallToUtc(z, r) < WallToUtc(z, c) <==> Swaps(T, a, b, c, r)
    ensures WallToUtc(z, r) <= WallToUtc(z, c) <==> Collapses(T, a, b, c, r)
  {
    WallToUtcSolved(z, c, T, a, b);
    WallToUtcSolved(z, r, T, a, b);
    hide WallToUtc, OneChangeAround;
  }

  /* ------------------------------------------------------------ two periods */

  // Of two periods in order, neither comes out empty and some instant is in both.
  predicate Clash(T: Instant, a: int, b: int, v: Interval, w: Interval) {
    && Swaps(T, a, b, v.end, w.start)
    && !Collapses(T, a, b, v.start, v.end)
    && !Collapses(T, a, b, w.start, w.end)
    && !Collapses(T, a, b, v.start, w.end)
  }

  ghost function ConvertedInterval(z: Zone, w: Interval): Interval {
    Interval(WallToUtc(z, w.start), WallToUtc(z, w.end))
  }

  ghost predicate ShareAnInstant(i: Interval, j: Interval) {
    exists t :: Inside(i, t) && Inside(j, t)
  }

  lemma SharingIsCrossing(i: Interval, j: Interval)
    ensures ShareAnInstant(i, j) <==> i.start < i.end && j.start < j.end && j.start < i.end && i.start < j.end
  {
    var t := if i.start < j.start then j.start else i.start;
    if i.start < i.end && j.start < j.end && j.start < i.end && i.start < j.end {
      assert Inside(i, t) && Inside(j, t);
    }
  }

  // Two periods, the second not before the first ends.
  predicate InTurn(v: Interval, w: Interval) {
    v.start < v.end <= w.start < w.end
  }

  ghost predicate OneChangeAroundBoth(z: Zone, i: Interval, T: Instant, a: int, b: int) {
    OneChangeAround(z, i.start, T, a, b) && OneChangeAround(z, i.end, T, a, b)
  }

  /** Two periods, of one date or of two, overlap once converted exactly where they clash. */
  lemma PeriodsOverlapIffClash(z: Zone, T: Instant, a: int, b: int, v: Interval, w: Interval)
    requires OneChangeAroundBoth(z, v, T, a, b) && OneChangeAroundBoth(z, w, T, a, b) && InTurn(v, w)
    ensures ShareAnInstant(ConvertedInterval(z, v), ConvertedInterval(z, w)) <==> Clash(T, a, b, v, w)
  {
    hide WallToUtc, OneChangeAround, Swaps, Collapses;
    ConversionSwapsIff(z, T, a, b, v.end, w.start);
    ConversionSwapsIff(z, T, a, b, v.start, v.end);
    ConversionSwapsIff(z, T, a, b, w.start, w.end);
    ConversionSwapsIff(z, T, a, b, v.start, w.end);
    SharingIsCrossing(ConvertedInterval(z, v), ConvertedInterval(z, w));
  }

  /* ------------------------------------------------------------ a date */

  // At most one change around every reading of a date.
  ghost predicate OneChangeOn(z: Zone, day: int, T: Instant, a: int, b: int) {
    forall wall :: day * DAY <= wall <= (day + 1) * DAY ==> OneChangeAround(z, wall, T, a, b)
  }

  // No two periods of the date clash.
  ghost predicate NoClash(day: int, T: Instant, a: int, b: int, periods: seq<OpenPeriod>)
    requires forall p | p in periods :: Span(p).Success?
  {
    forall i, j | 0 <= i < j < |periods| :: !Clash(T, a, b, Walls(periods[i], day), Walls(periods[j], day))
  }

  ghost function AllIntervals(z: Zone, day: int, periods: seq<OpenPeriod>): seq<Interval>
    requires forall p | p in periods :: Span(p).Success?
  {
    seq(|periods|, i requires 0 <= i < |periods| => IntervalOf(z, periods[i], day))
  }

  lemma SoundSpans(periods: seq<OpenPeriod>)
    requires Sound(periods)
    ensures forall p | p in periods :: Span(p).Success?
  {
    hide Span;
  }

  lemma SoundInTurn(z: Zone, day: int, T: Instant, a: int, b: int, periods: seq<OpenPeriod>, i: nat, j: nat)
    requires OneChangeOn(z, day, T, a, b) && Sound(periods) && i < j < |periods|
    ensures var v, w := Walls(periods[i], day), Walls(periods[j], day);
            InTurn(v, w) && OneChangeAroundBoth(z, v, T, a, b) && OneChangeAroundBoth(z, w, T, a, b)
  {
    var v, w := Span(periods[i]).value, Span(periods[j]).value;
    assert v.1 <= w.0;
    hide Span, OneChangeAround;
    MinutesWithinDate(day, v.0, v.1);
    MinutesWithinDate(day, w.0, w.1);
  }

  lemma DisjointIffNoClash(z: Zone, day: int, T: Instant, a: int, b: int, periods: seq<OpenPeriod>)
    requires OneChangeOn(z, day, T, a, b) && Sound(periods)
    ensures forall p | p in periods :: Span(p).Success?
    ensures Disjoint(AllIntervals(z, day, periods)) <==> NoClash(day, T, a, b, periods)
  {
    SoundSpans(periods);
    var s := AllIntervals(z, day, periods);
    hide Span, Clash, WallToUtc, OneChangeOn, OneChangeAroundBoth, Sound;
    forall i: nat, j: nat | i < j < |periods|
      ensures ShareAnInstant(s[i], s[j]) <==> Clash(T, a, b, Walls(periods[i], day), Walls(periods[j], day))
    {
      SoundInTurn(z, day, T, a, b, periods, i, j);
      PeriodsOverlapIffClash(z, T, a, b, Walls(periods[i], day), Walls(periods[j], day));
    }
    DisjointIsNotSharing(s);
  }

  lemma DisjointIsNotSharing(s: seq<Interval>)
    ensures Disjoint(s) <==> forall i, j | 0 <= i < j < |s| :: !ShareAnInstant(s[i], s[j])
  {
  }

  // Dropping the intervals that come out empty changes nothing that is covered.
  lemma {:induction false} DroppingEmpties(z: Zone, day: int, periods: seq<OpenPeriod>)
    requires Sound(periods)
    ensures forall p | p in periods :: Span(p).Success?
    ensures Converted(z, day, periods).Success?
    ensures var s, all := Converted(z, day, periods).value, AllIntervals(z, day, periods);
            (Disjoint(s) <==> Disjoint(all)) && forall t :: Covers(s, t) <==> Covers(all, t)
  {
    hide Span, IntervalOf, Sound, Disjoint, Covers, Converted;
    SoundSpans(periods);
    if periods == [] {
      NothingConverts(z, day);
    } else {
      var front, last := periods[..|periods| - 1], periods[|periods| - 1];
      SoundInFront(periods, |periods| - 1);
      DroppingEmpties(z, day, front);
      ConvertedLast(z, day, periods);
      assert AllIntervals(z, day, periods) == AllIntervals(z, day, front) + [IntervalOf(z, last, day)];
      DroppingLast(Converted(z, day, front).value, AllIntervals(z, day, front), IntervalOf(z, last, day));
    }
  }

  lemma NothingConverts(z: Zone, day: int)
    ensures Converted(z, day, []) == Success([]) && AllIntervals(z, day, []) == []
  {
  }

  lemma ConvertedLast(z: Zone, day: int, periods: seq<OpenPeriod>)
    requires periods != [] && Span(periods[|periods| - 1]).Success?
    requires Converted(z, day, periods[..|periods| - 1]).Success?
    ensures var before, last := Converted(z, day, periods[..|periods| - 1]).value, IntervalOf(z, periods[|periods| - 1], day);
            Converted(z, day, periods) == Success(if last.end > last.start then before + [last] else before)
  {
    hide PeriodInterval, IntervalOf;
    PeriodConverts(z, day, periods[|periods| - 1]);
  }

  lemma DroppingLast(before: seq<Interval>, all: seq<Interval>, last: Interval)
    requires (Disjoint(before) <==> Disjoint(all)) && forall t :: Covers(before, t) <==> Covers(all, t)
    ensures var s := if last.end > last.start then before + [last] else before;
            (Disjoint(s) <==> Disjoint(all + [last])) && forall t :: Covers(s, t) <==> Covers(all + [last], t)
  {
    hide Disjoint, Covers;
    DisjointWithLast(before, last);
    DisjointWithLast(all, last);
  }

  lemma SoundInFront(periods: seq<OpenPeriod>, n: nat)
    requires Sound(periods) && n <= |periods|
    ensures Sound(periods[..n])
  {
    hide Span;
  }

  lemma DisjointWithLast(s: seq<Interval>, last: Interval)
    ensures Disjoint(s + [last]) <==> Disjoint(s) && forall t :: Inside(last, t) ==> !Covers(s, t)
    ensures forall t :: Covers(s + [last], t) <==> Covers(s, t) || Inside(last, t)
  {
    var all := s + [last];
    assert forall i | 0 <= i < |s| :: all[i] == s[i];
    assert all[|s|] == last;
    forall t
      ensures Covers(all, t) <==> Covers(s, t) || Inside(last, t)
    {
      if i :| 0 <= i < |s| && Inside(s[i], t) {
        assert Inside(all[i], t);
      }
    }
    if Disjoint(s) && forall t :: Inside(last, t) ==> !Covers(s, t) {
      forall i, j, t | 0 <= i < j < |all| && Inside(all[i], t)
        ensures !Inside(all[j], t)
      {
        if j == |s| {
          assert Covers(s, t);
        }
      }
    }
    if Disjoint(all) {
      forall i, t | 0 <= i < |s| && Inside(s[i], t)
        ensures !Inside(last, t)
      {
        assert Inside(all[i], t);
      }
    }
  }

  // Sorting leaves what is covered, and the sum of clipped lengths.
  lemma {:induction false} SortKeepsTotal(s: seq<Interval>, from: Instant, to: Instant)
    ensures Total(SortByStart(s), from, to) == Total(s, from, to)
  {
    if s != [] {
      SortKeepsTotal(s[..|s| - 1], from, to);
      InsertAddsClipped(SortByStart(s[..|s| - 1]), s[|s| - 1], from, to);
    }
  }

  lemma {:induction false} InsertAddsClipped(sorted: seq<Interval>, x: Interval, from: Instant, to: Instant)
    ensures Total(InsertByStart(sorted, x), from, to) == Total(sorted, from, to) + Clipped(x, from, to)
  {
    hide Clipped;
    var n := |sorted| - 1;
    if n < 0 || sorted[n].start <= x.start {
      assert (sorted + [x])[..|sorted|] == sorted;
    } else {
      InsertAddsClipped(sorted[..n], x, from, to);
      var front := InsertByStart(sorted[..n], x);
      assert (front + [sorted[n]])[..|front|] == front;
    }
  }

  lemma SortKeepsCovered(s: seq<Interval>, t: Instant)
    ensures Covers(SortByStart(s), t) <==> Covers(s, t)
  {
    SortKeepsTotal(s, t, t + 1);
    CoveredIffTotal(s, t);
    CoveredIffTotal(SortByStart(s), t);
  }

  lemma SameMeasure(s: seq<Interval>, from: Instant, to: Instant)
    ensures Total(SortByStart(s), from, to) == Total(s, from, to)
    ensures OpenMs(Covered(SortByStart(s)), from, to) == OpenMs(Covered(s), from, to)
  {
    SortKeepsTotal(s, from, to);
    forall t
      ensures Covered(SortByStart(s))(t) == Covered(s)(t)
    {
      SortKeepsCovered(s, t);
    }
    OpenMsAgree(Covered(SortByStart(s)), Covered(s), from, to);
  }

  lemma SortKeepsMeasure(s: seq<Interval>)
    ensures Measures(SortByStart(s)) <==> Measures(s)
  {
    hide SortByStart, Total, OpenMs, Covered;
    forall from, to
      ensures Total(SortByStart(s), from, to) == Total(s, from, to)
      ensures OpenMs(Covered(SortByStart(s)), from, to) == OpenMs(Covered(s), from, to)
    {
      SameMeasure(s, from, to);
    }
  }

  /**
   * The intervals of a date measure the time they cover, over every range, if
   * and only if no two of its periods clash: otherwise some of it counts twice.
   */
  lemma DateMeasuresIffNoClash(z: Zone, day: int, T: Instant, a: int, b: int, cal: Calendar)
    requires ValidCalendar(cal) && OneChangeOn(z, day, T, a, b)
    ensures OpenIntervals(cal, z, day).Success?
    ensures forall p | p in PeriodsFor(cal, day) :: Span(p).Success?
    ensures Measures(OpenIntervals(cal, z, day).value) <==> NoClash(day, T, a, b, PeriodsFor(cal, day))
  {
    PeriodsAreSound(cal, day);
    var periods := PeriodsFor(cal, day);
    hide ValidCalendar, PeriodsFor, Sound, OneChangeOn, Converted, NoClash, Span;
    DroppingEmpties(z, day, periods);
    DisjointIffNoClash(z, day, T, a, b, periods);
    hide AllIntervals, Disjoint, Measures;
    var s := Converted(z, day, periods).value;
    SummingIsCountingIffDisjoint(s);
    SortKeepsMeasure(s);
  }
}
