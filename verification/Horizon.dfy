/**
 * The laws of adding and measuring open time through a horizon: a finite,
 * ascending list of intervals that shows everything open from some instant on,
 * until it ends.
 */
module Horizon {
  import opened Zones
  import opened BusinessCalendar
  import opened OpenTime

  ghost predicate PastAll(s: seq<Interval>, t: Instant) {
    forall k | 0 <= k < |s| :: s[k].end <= t
  }

  // From x on, s shows exactly what is open, except what lies past its end.
  ghost predicate Sees(open: Instant -> bool, x: Instant, s: seq<Interval>) {
    && Ascending(s)
    && (forall t :: Covers(s, t) ==> open(t))
    && (forall t | x <= t && open(t) :: Covers(s, t) || PastAll(s, t))
  }

  // s' still has every interval of s that has not ended by y.
  ghost predicate Keeps(s: seq<Interval>, s': seq<Interval>, y: Instant) {
    forall k | 0 <= k < |s| && y < s[k].end :: s[k] in s'
  }

  ghost function HorizonEnd(s: seq<Interval>): Instant
    requires s != []
  {
    s[|s| - 1].end
  }

  /** Up to its end, a horizon's total is the count of open milliseconds. */
  lemma TotalIsOpenMs(open: Instant -> bool, x: Instant, s: seq<Interval>, until: Instant)
    requires Sees(open, x, s) && s != [] && until <= HorizonEnd(s)
    ensures Total(s, x, until) == OpenMs(open, x, until)
  {
    TotalCounts(s, x, until);
    forall t | x <= t < until
      ensures Covered(s)(t) == open(t)
    {
      assert !PastAll(s, t);
    }
    OpenMsAgree(Covered(s), open, x, until);
  }

  /** Measuring: it needs an interval at or after the end, and then it counts. */
  lemma MeasuringCounts(open: Instant -> bool, x: Instant, s: seq<Interval>, to: Instant)
    requires Sees(open, x, s)
    ensures TallyOf(s, x, to).Stopped? <==> exists k | 0 <= k < |s| :: to <= s[k].start
    ensures TallyOf(s, x, to).Stopped? ==> TallyOf(s, x, to).total == OpenMs(open, x, to)
  {
    TallyIsTotal(s, x, to);
    if k :| 0 <= k < |s| && to <= s[k].start {
      assert s[k].end <= HorizonEnd(s);
      TotalIsOpenMs(open, x, s, to);
    }
  }

  /** Adding d > 0 finds the instant at which exactly d milliseconds have been open, the last of them just now. */
  lemma AddingIsLeast(open: Instant -> bool, x: Instant, s: seq<Interval>, d: nat)
    requires Sees(open, x, s) && d > 0 && AddOver(s, x, d).Reached?
    ensures var t := AddOver(s, x, d).at;
            && x < t
            && OpenMs(open, x, t) == d
            && Covers(s, t - 1)
  {
    AddPlaces(s, x, d);
    TotalIsOpenMs(open, x, s, AddOver(s, x, d).at);
  }

  /** Adding d > 0 succeeds exactly when the horizon holds d milliseconds. */
  lemma AddingNeedsRoom(x: Instant, s: seq<Interval>, d: nat)
    requires Ascending(s) && d > 0 && s != []
    ensures AddOver(s, x, d).Reached? <==> d <= Total(s, x, HorizonEnd(s))
  {
    if AddOver(s, x, d).Left? {
      AddLeavesRest(s, x, d, HorizonEnd(s));
    } else {
      AddPlaces(s, x, d);
      TotalGrows(s, x, AddOver(s, x, d).at, HorizonEnd(s));
    }
  }

  /** Adding nothing finds the first open instant. */
  lemma AddingNothingOpensNext(open: Instant -> bool, x: Instant, s: seq<Interval>)
    requires Sees(open, x, s)
    ensures match AddOver(s, x, 0)
            case Reached(t) => x <= t && Covers(s, t) && forall u | x <= u < t :: !open(u)
            case Left(_) => forall u | x <= u && open(u) :: PastAll(s, u)
  {
    AddNothing(s, x);
    match AddOver(s, x, 0) {
      case Reached(t) =>
        forall u | x <= u < t
          ensures !open(u)
        {
          assert !PastAll(s, u);
        }
      case Left(_) =>
    }
  }

  // Two instants closed by an open millisecond and reached after the same open time are one.
  lemma SameCountSameInstant(open: Instant -> bool, x: Instant, t: Instant, t': Instant)
    requires x < t && x < t' && open(t - 1) && open(t' - 1)
    requires OpenMs(open, x, t) == OpenMs(open, x, t')
    ensures t == t'
  {
    if t' < t {
      CountPinsInstant(open, x, t, t');
    } else if t < t' {
      CountPinsInstant(open, x, t', t);
    }
  }

  /** Adding is the inverse of measuring: it finds the instant that closes m open milliseconds. */
  lemma AddingFinds(open: Instant -> bool, y: Instant, s: seq<Interval>, m: nat, t: Instant)
    requires Sees(open, y, s) && m > 0 && y < t && Covers(s, t - 1)
    requires OpenMs(open, y, t) == m
    ensures AddOver(s, y, m) == Reached(t)
  {
    var k :| 0 <= k < |s| && Inside(s[k], t - 1);
    assert t <= s[k].end <= HorizonEnd(s);
    TotalIsOpenMs(open, y, s, t);
    TotalGrows(s, y, t, HorizonEnd(s));
    AddingNeedsRoom(y, s, m);
    AddingIsLeast(open, y, s, m);
    SameCountSameInstant(open, y, t, AddOver(s, y, m).at);
  }

  // Where the first m of d milliseconds end.
  lemma AddingStopsOnTheWay(open: Instant -> bool, x: Instant, s: seq<Interval>, m: nat, d: nat)
    requires Sees(open, x, s) && m < d && AddOver(s, x, d).Reached?
    ensures AddOver(s, x, m).Reached?
    ensures x <= AddOver(s, x, m).at < AddOver(s, x, d).at
    ensures OpenMs(open, x, AddOver(s, x, m).at) == m
  {
    AddingIsLeast(open, x, s, d);
    var t := AddOver(s, x, d).at;
    if m == 0 {
      AddingNothingOpensNext(open, x, s);
      assert open(t - 1) && !PastAll(s, t - 1);
      OpenMsNone(open, x, AddOver(s, x, 0).at);
    } else {
      AddingNeedsRoom(x, s, d);
      AddingNeedsRoom(x, s, m);
      AddingIsLeast(open, x, s, m);
      var y := AddOver(s, x, m).at;
      if y >= t {
        OpenMsAdds(open, x, t, y);
      }
    }
  }

  lemma KeptIsCovered(s: seq<Interval>, s': seq<Interval>, y: Instant, t: Instant)
    requires Keeps(s, s', y) && y <= t && Covers(s, t)
    ensures Covers(s', t)
  {
    var k :| 0 <= k < |s| && Inside(s[k], t);
    var k' :| 0 <= k' < |s'| && s'[k'] == s[k];
    assert Inside(s'[k'], t);
  }

  /** Adding m, then n more through the horizon seen from there, is adding m + n. */
  lemma AddingComposes(open: Instant -> bool, x: Instant, s: seq<Interval>, m: nat, n: nat, s': seq<Interval>)
    requires Sees(open, x, s) && n > 0 && AddOver(s, x, m + n).Reached? && AddOver(s, x, m).Reached?
    requires var y := AddOver(s, x, m).at; Sees(open, y, s') && Keeps(s, s', y)
    ensures AddOver(s', AddOver(s, x, m).at, n) == AddOver(s, x, m + n)
  {
    AddingStopsOnTheWay(open, x, s, m, m + n);
    AddingIsLeast(open, x, s, m + n);
    var y, t := AddOver(s, x, m).at, AddOver(s, x, m + n).at;
    OpenMsAdds(open, x, y, t);
    KeptIsCovered(s, s', y, t - 1);
    AddingFinds(open, y, s', n, t);
  }
}
