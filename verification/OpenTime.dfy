/**
 * Open intervals as sets of milliseconds: what adding and measuring working
 * time mean, for any list of intervals, before a calendar produces one.
 */
module OpenTime {
  import opened Zones
  import opened BusinessCalendar

  function Max(a: int, b: int): int {
    if a < b then b else a
  }

  function Min(a: int, b: int): int {
    if a < b then a else b
  }

  ghost predicate Inside(i: Interval, t: Instant) {
    i.start <= t < i.end
  }

  ghost predicate Covers(s: seq<Interval>, t: Instant) {
    exists i | 0 <= i < |s| :: Inside(s[i], t)
  }

  ghost predicate Disjoint(s: seq<Interval>) {
    forall i, j, t | 0 <= i < j < |s| && Inside(s[i], t) :: !Inside(s[j], t)
  }

  ghost predicate Ascending(s: seq<Interval>) {
    && (forall i | 0 <= i < |s| :: s[i].start < s[i].end)
    && (forall i, j | 0 <= i < j < |s| :: s[i].end <= s[j].start)
  }

  /** The number of milliseconds of [from, to) at which `open` holds. */
  ghost function OpenMs(open: Instant -> bool, from: Instant, to: Instant): nat
    decreases (to - from)
  {
    if to <= from then 0 else OpenMs(open, from, to - 1) + if open(to - 1) then 1 else 0
  }

  ghost function Covered(s: seq<Interval>): Instant -> bool {
    t => Covers(s, t)
  }

  /* ------------------------------------------------------------ counting */

  lemma {:induction false} OpenMsAgree(f: Instant -> bool, g: Instant -> bool, from: Instant, to: Instant)
    requires forall t | from <= t < to :: f(t) == g(t)
    ensures OpenMs(f, from, to) == OpenMs(g, from, to)
    decreases (to - from)
  {
    if from < to {
      OpenMsAgree(f, g, from, to - 1);
    }
  }

  /** Counting is additive over adjacent ranges. */
  lemma {:induction false} OpenMsAdds(open: Instant -> bool, a: Instant, b: Instant, c: Instant)
    requires a <= b <= c
    ensures OpenMs(open, a, c) == OpenMs(open, a, b) + OpenMs(open, b, c)
    decreases c - b
  {
    if b < c {
      OpenMsAdds(open, a, b, c - 1);
    }
  }

  lemma {:induction false} OpenMsUnion(f: Instant -> bool, g: Instant -> bool, h: Instant -> bool, from: Instant, to: Instant)
    requires forall t :: h(t) <==> f(t) || g(t)
    requires forall t :: !(f(t) && g(t))
    ensures OpenMs(h, from, to) == OpenMs(f, from, to) + OpenMs(g, from, to)
    decreases (to - from)
  {
    if from < to {
      OpenMsUnion(f, g, h, from, to - 1);
    }
  }

  lemma {:induction false} OpenMsNone(open: Instant -> bool, from: Instant, to: Instant)
    requires forall t | from <= t < to :: !open(t)
    ensures OpenMs(open, from, to) == 0
    decreases (to - from)
  {
    if from < to {
      OpenMsNone(open, from, to - 1);
    }
  }

  lemma {:induction false} OpenMsAll(open: Instant -> bool, from: Instant, to: Instant)
    requires from <= to && forall t | from <= t < to :: open(t)
    ensures OpenMs(open, from, to) == to - from
    decreases (to - from)
  {
    if from < to {
      OpenMsAll(open, from, to - 1);
    }
  }

  lemma {:induction false} OpenMsAtMost(open: Instant -> bool, from: Instant, to: Instant)
    requires from <= to
    ensures OpenMs(open, from, to) <= to - from
    decreases (to - from)
  {
    if from < to {
      OpenMsAtMost(open, from, to - 1);
    }
  }

  /** An instant is pinned by its count together with the millisecond before it being open. */
  lemma CountPinsInstant(open: Instant -> bool, x: Instant, t: Instant, u: Instant)
    requires x < t && open(t - 1)
    requires x <= u < t
    ensures OpenMs(open, x, u) < OpenMs(open, x, t)
  {
    OpenMsAdds(open, x, u, t);
    OpenMsAdds(open, u, t - 1, t);
  }

  /* ------------------------------------------------------------ measuring */

  // The part of an interval inside [from, to), as the loop of `elapsedBusinessMs` clips it.
  function Clipped(i: Interval, from: Instant, to: Instant): nat {
    Max(0, Min(i.end, to) - Max(i.start, from))
  }

  function Total(s: seq<Interval>, from: Instant, to: Instant): nat {
    if s == [] then 0 else Total(s[..|s| - 1], from, to) + Clipped(s[|s| - 1], from, to)
  }

  lemma {:induction false} ClippedCounts(i: Interval, from: Instant, to: Instant)
    ensures Clipped(i, from, to) == OpenMs(t => Inside(i, t), from, to)
    decreases (to - from)
  {
    if from < to {
      ClippedCounts(i, from, to - 1);
    }
  }

  /** The sum of clipped lengths is the number of covered milliseconds. */
  lemma {:induction false} TotalCounts(s: seq<Interval>, from: Instant, to: Instant)
    requires Disjoint(s)
    ensures Total(s, from, to) == OpenMs(Covered(s), from, to)
  {
    if s == [] {
      OpenMsNone(Covered(s), from, to);
    } else {
      var n := |s| - 1;
      TotalCounts(s[..n], from, to);
      ClippedCounts(s[n], from, to);
      CoversSplits(s);
      OpenMsUnion(Covered(s[..n]), t => Inside(s[n], t), Covered(s), from, to);
    }
  }

  lemma AscendingConcat(a: seq<Interval>, b: seq<Interval>)
    requires Ascending(a) && Ascending(b)
    requires forall i, k | 0 <= i < |a| && 0 <= k < |b| :: a[i].end <= b[k].start
    ensures Ascending(a + b)
  {
  }

  lemma CoversConcat(a: seq<Interval>, b: seq<Interval>, t: Instant)
    ensures Covers(a + b, t) <==> Covers(a, t) || Covers(b, t)
  {
    if i :| 0 <= i < |a| && Inside(a[i], t) {
      assert Inside((a + b)[i], t);
    } else if j :| 0 <= j < |b| && Inside(b[j], t) {
      assert Inside((a + b)[|a| + j], t);
    }
  }

  lemma CoversSplits(s: seq<Interval>)
    requires s != []
    ensures forall t :: Covers(s, t) <==> Covers(s[..|s| - 1], t) || Inside(s[|s| - 1], t)
  {
    var n := |s| - 1;
    forall t
      ensures Covers(s, t) <==> Covers(s[..n], t) || Inside(s[n], t)
    {
      if i :| 0 <= i < n && Inside(s[i], t) {
        assert Inside(s[..n][i], t);
      }
    }
  }

  lemma {:induction false} TotalAtLeast(s: seq<Interval>, i: nat, j: nat, from: Instant, to: Instant)
    requires i < j < |s|
    ensures Total(s, from, to) >= Clipped(s[i], from, to) + Clipped(s[j], from, to)
    ensures Total(s, from, to) >= Clipped(s[i], from, to)
  {
    var n := |s| - 1;
    if j < n {
      TotalAtLeast(s[..n], i, j, from, to);
    } else if i < n - 1 {
      TotalAtLeast(s[..n], i, n - 1, from, to);
    } else {
      assert s[..n][|s[..n]| - 1] == s[i];
    }
  }

  // An instant is covered exactly where the total over its millisecond is positive.
  lemma {:induction false} CoveredIffTotal(s: seq<Interval>, t: Instant)
    ensures Covers(s, t) <==> Total(s, t, t + 1) > 0
  {
    if s != [] {
      CoveredIffTotal(s[..|s| - 1], t);
      CoversSplits(s);
    }
  }

  // The intervals measure what they cover, over every range.
  ghost predicate Measures(s: seq<Interval>) {
    forall from, to :: Total(s, from, to) == OpenMs(Covered(s), from, to)
  }

  /**
   * Exactly when summing measures covered time over every range: when no
   * instant lies in two of the intervals.
   */
  lemma SummingIsCountingIffDisjoint(s: seq<Interval>)
    ensures Disjoint(s) <==> Measures(s)
  {
    if Disjoint(s) {
      forall from, to
        ensures Total(s, from, to) == OpenMs(Covered(s), from, to)
      {
        TotalCounts(s, from, to);
      }
    } else {
      var i, j, t :| 0 <= i < j < |s| && Inside(s[i], t) && Inside(s[j], t);
      TotalAtLeast(s, i, j, t, t + 1);
      assert OpenMs(Covered(s), t, t) == 0;
      assert OpenMs(Covered(s), t, t + 1) <= 1;
      assert Total(s, t, t + 1) >= 2;
    }
  }

  lemma {:induction false} TotalConcat(a: seq<Interval>, b: seq<Interval>, from: Instant, to: Instant)
    ensures Total(a + b, from, to) == Total(a, from, to) + Total(b, from, to)
  {
    if b == [] {
      assert a + b == a;
    } else {
      TotalConcat(a, b[..|b| - 1], from, to);
      assert (a + b)[..|a + b| - 1] == a + b[..|b| - 1];
    }
  }

  lemma {:induction false} TotalGrows(s: seq<Interval>, from: Instant, to: Instant, later: Instant)
    requires to <= later
    ensures Total(s, from, to) <= Total(s, from, later)
  {
    if s != [] {
      TotalGrows(s[..|s| - 1], from, to, later);
    }
  }

  // Past the last end nothing more is gained.
  lemma {:induction false} TotalSettles(s: seq<Interval>, from: Instant, to: Instant, later: Instant)
    requires forall i | 0 <= i < |s| :: s[i].end <= to
    requires to <= later
    ensures Total(s, from, to) == Total(s, from, later)
  {
    if s != [] {
      TotalSettles(s[..|s| - 1], from, to, later);
    }
  }

  // The state of `elapsedBusinessMs`'s loop: still running, or broken out of.
  datatype Tally = Running(total: nat) | Stopped(total: nat)

  function TallyOf(s: seq<Interval>, from: Instant, to: Instant): Tally {
    if s == [] then Running(0)
    else
      match TallyOf(s[..|s| - 1], from, to)
      case Stopped(n) => Stopped(n)
      case Running(n) =>
        var last := s[|s| - 1];
        if last.start >= to then Stopped(n) else Running(n + Clipped(last, from, to))
  }

  /** Stopping at the first interval that starts at or after `to` loses nothing. */
  lemma {:induction false} TallyIsTotal(s: seq<Interval>, from: Instant, to: Instant)
    requires Ascending(s)
    ensures TallyOf(s, from, to).total == Total(s, from, to)
    ensures TallyOf(s, from, to).Stopped? <==> exists i | 0 <= i < |s| :: s[i].start >= to
  {
    if s != [] {
      TallyIsTotal(s[..|s| - 1], from, to);
    }
  }

  lemma {:induction false} TallyConcat(a: seq<Interval>, b: seq<Interval>, from: Instant, to: Instant)
    ensures TallyOf(a + b, from, to) ==
            match TallyOf(a, from, to)
            case Stopped(n) => Stopped(n)
            case Running(n) =>
              match TallyOf(b, from, to)
              case Stopped(m) => Stopped(n + m)
              case Running(m) => Running(n + m)
  {
    if b == [] {
      assert a + b == a;
    } else {
      TallyConcat(a, b[..|b| - 1], from, to);
      assert (a + b)[..|a + b| - 1] == a + b[..|b| - 1];
    }
  }

  /* ------------------------------------------------------------ adding */

  // The state of `addBusinessMs`'s loop: the answer, or the duration still to place.
  datatype Progress = Reached(at: Instant) | Left(remaining: nat)

  function AddStep(i: Interval, from: Instant, remaining: nat): Progress {
    if i.end <= from then Left(remaining)
    else
      var start := Max(i.start, from);
      var available := i.end - start;
      if available <= 0 then Left(remaining)
      else if remaining == 0 then Reached(start)
      else if available >= remaining then Reached(start + remaining)
      else Left(remaining - available)
  }

  function AddOver(s: seq<Interval>, from: Instant, duration: nat): Progress {
    if s == [] then Left(duration)
    else
      match AddOver(s[..|s| - 1], from, duration)
      case Reached(t) => Reached(t)
      case Left(r) => AddStep(s[|s| - 1], from, r)
  }

  lemma {:induction false} AddConcat(a: seq<Interval>, b: seq<Interval>, from: Instant, duration: nat)
    ensures AddOver(a + b, from, duration) ==
            match AddOver(a, from, duration)
            case Reached(t) => Reached(t)
            case Left(r) => AddOver(b, from, r)
  {
    if b == [] {
      assert a + b == a;
    } else {
      AddConcat(a, b[..|b| - 1], from, duration);
      assert (a + b)[..|a + b| - 1] == a + b[..|b| - 1];
    }
  }

  // What the intervals so far could not hold is left over.
  lemma {:induction false} AddLeavesRest(s: seq<Interval>, from: Instant, duration: nat, end: Instant)
    requires duration > 0 && AddOver(s, from, duration).Left?
    requires forall i | 0 <= i < |s| :: s[i].end <= end
    ensures 0 < AddOver(s, from, duration).remaining
    ensures Total(s, from, end) + AddOver(s, from, duration).remaining == duration
  {
    if s != [] {
      AddLeavesRest(s[..|s| - 1], from, duration, end);
      assert s[|s| - 1].end <= end;
    }
  }

  /** A positive duration is placed at the end of exactly that much covered time. */
  lemma {:induction false} AddPlaces(s: seq<Interval>, from: Instant, duration: nat)
    requires Ascending(s) && duration > 0 && AddOver(s, from, duration).Reached?
    ensures var t := AddOver(s, from, duration).at;
            && s != [] && from < t <= s[|s| - 1].end
            && Total(s, from, t) == duration
            && Covers(s, t - 1)
  {
    var t, n := AddOver(s, from, duration).at, |s| - 1;
    var before, last := s[..n], s[n];
    if AddOver(before, from, duration).Reached? {
      AddPlaces(before, from, duration);
      CoversSplits(s);
      assert before[n - 1].end <= last.start;
    } else {
      AddLeavesRest(before, from, duration, t);
      assert Inside(last, t - 1);
    }
  }

  /** Adding nothing finds the first covered instant. */
  lemma {:induction false} AddNothing(s: seq<Interval>, from: Instant)
    requires Ascending(s)
    ensures match AddOver(s, from, 0)
            case Reached(t) =>
              && s != [] && from <= t < s[|s| - 1].end
              && Covers(s, t)
              && forall u | from <= u < t :: !Covers(s, u)
            case Left(r) => r == 0 && forall u | from <= u :: !Covers(s, u)
  {
    if s != [] {
      AddNothing(s[..|s| - 1], from);
      CoversSplits(s);
      match AddOver(s[..|s| - 1], from, 0) {
        case Reached(t) =>
        case Left(r) =>
          var placed := AddOver(s, from, 0);
          if placed.Reached? {
            assert Inside(s[|s| - 1], placed.at);
          }
      }
    }
  }
}
