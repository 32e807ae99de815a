/**
 * How far 3650 days reach: in a zone that never changes its offset, without
 * exceptions, every duration up to 521 weeks of opening time can be added
 * (`packages/business-time/src/index.ts`, the scan bound).
 */
module ScanBound {
  import opened Wrappers
  import opened Zones
  import opened BusinessCalendar
  import opened OpenTime
  import opened Horizon
  import opened Timetable
  import opened BusinessTime
  import opened CalendarLaws
  import opened BusinessLaws

  function PeriodsMs(periods: seq<OpenPeriod>): nat {
    if periods == [] then 0
    else
      var last := Span(periods[|periods| - 1]);
      PeriodsMs(periods[..|periods| - 1]) +
      if last.Success? && last.value.0 < last.value.1 then (last.value.1 - last.value.0) * MINUTE else 0
  }

  // Opening time on the k-th day of the week.
  function DayMs(cal: Calendar, k: nat): nat {
    var day := NthWeekday(k);
    if day in cal.hours then PeriodsMs(cal.hours[day]) else 0
  }

  function WeekMs(cal: Calendar): nat {
    DayMs(cal, 0) + DayMs(cal, 1) + DayMs(cal, 2) + DayMs(cal, 3) + DayMs(cal, 4) + DayMs(cal, 5) + DayMs(cal, 6)
  }

  // Opening time over n consecutive dates.
  function DatesMs(cal: Calendar, day: int, n: nat): nat
    decreases n, day
  {
    if n == 0 then 0 else DayMs(cal, (day + 4) % 7) + DatesMs(cal, day + 1, n - 1)
  }

  lemma {:induction false} DatesMsSplits(cal: Calendar, day: int, m: nat, n: nat)
    ensures DatesMs(cal, day, m + n) == DatesMs(cal, day, m) + DatesMs(cal, day + m, n)
    decreases m
  {
    if m > 0 {
      DatesMsSplits(cal, day + 1, m - 1, n);
    }
  }

  // Leaving a date behind and taking the same weekday a week later changes nothing.
  lemma WeekSlides(cal: Calendar, day: int)
    ensures DatesMs(cal, day, 7) == DatesMs(cal, day + 1, 7)
  {
    hide DayMs;
    DatesMsSplits(cal, day, 1, 7);
    DatesMsSplits(cal, day, 7, 1);
    assert (day + 7 + 4) % 7 == (day + 4) % 7;
    assert DatesMs(cal, day, 1) == DayMs(cal, (day + 4) % 7) + DatesMs(cal, day + 1, 0);
    assert DatesMs(cal, day + 7, 1) == DayMs(cal, (day + 7 + 4) % 7) + DatesMs(cal, day + 8, 0);
  }

  lemma SundayFirst(cal: Calendar)
    ensures DatesMs(cal, -4, 7) == WeekMs(cal)
  {
    hide DayMs;
    assert DatesMs(cal, -4, 7) == DayMs(cal, 0) + DatesMs(cal, -3, 6);
    assert DatesMs(cal, -3, 6) == DayMs(cal, 1) + DatesMs(cal, -2, 5);
    assert DatesMs(cal, -2, 5) == DayMs(cal, 2) + DatesMs(cal, -1, 4);
    assert DatesMs(cal, -1, 4) == DayMs(cal, 3) + DatesMs(cal, 0, 3);
    assert DatesMs(cal, 0, 3) == DayMs(cal, 4) + DatesMs(cal, 1, 2);
    assert DatesMs(cal, 1, 2) == DayMs(cal, 5) + DatesMs(cal, 2, 1);
    assert DatesMs(cal, 2, 1) == DayMs(cal, 6) + DatesMs(cal, 3, 0);
  }

  lemma {:induction false} AnyWeekIsAWeek(cal: Calendar, day: int)
    ensures DatesMs(cal, day, 7) == WeekMs(cal)
    decreases if day >= -4 then day + 4 else -4 - day
  {
    hide DatesMs, WeekMs;
    if day > -4 {
      WeekSlides(cal, day - 1);
      AnyWeekIsAWeek(cal, day - 1);
    } else if day < -4 {
      WeekSlides(cal, day);
      AnyWeekIsAWeek(cal, day + 1);
    } else {
      SundayFirst(cal);
    }
  }

  /** Any run of whole weeks is open that many times the weekly hours. */
  lemma {:induction false} WeeksMs(cal: Calendar, day: int, weeks: nat)
    ensures DatesMs(cal, day, 7 * weeks) == weeks * WeekMs(cal)
    decreases weeks
  {
    hide WeekMs, DayMs;
    if weeks > 0 {
      DatesMsSplits(cal, day, 7, 7 * (weeks - 1));
      AnyWeekIsAWeek(cal, day);
      WeeksMs(cal, day + 7, weeks - 1);
    }
  }

  /* ------------------------------------------------------------ lengths of intervals */

  ghost function Length(s: seq<Interval>): int {
    if s == [] then 0 else Length(s[..|s| - 1]) + s[|s| - 1].end - s[|s| - 1].start
  }

  lemma {:induction false} LengthConcat(a: seq<Interval>, b: seq<Interval>)
    ensures Length(a + b) == Length(a) + Length(b)
  {
    if b == [] {
      assert a + b == a;
    } else {
      LengthConcat(a, b[..|b| - 1]);
      assert (a + b)[..|a + b| - 1] == a + b[..|b| - 1];
    }
  }

  lemma {:induction false} WholeIntervalsTotal(s: seq<Interval>, from: Instant, to: Instant)
    requires forall i | 0 <= i < |s| :: from <= s[i].start <= s[i].end <= to
    ensures Total(s, from, to) == Length(s)
  {
    if s != [] {
      WholeIntervalsTotal(s[..|s| - 1], from, to);
      assert from <= s[|s| - 1].start <= s[|s| - 1].end <= to;
    }
  }

  // A zone that never changes keeps the length of every period.
  lemma {:induction false} FixedOffsetKeepsLength(z: Zone, offset: int, day: int, periods: seq<OpenPeriod>, s: seq<Interval>)
    requires forall t :: z(t) == offset
    requires ConvertsInPlace(z, day, periods, s) && Sound(periods)
    ensures Length(s) == PeriodsMs(periods)
  {
    hide Span, WallToUtc;
    if s != [] {
      var n := |s| - 1;
      FixedOffsetKeepsLength(z, offset, day, periods[..n], s[..n]);
      ConvertedKeepsLength(z, offset, day, periods[n]);
    }
  }

  lemma ConvertedKeepsLength(z: Zone, offset: int, day: int, p: OpenPeriod)
    requires (forall t :: z(t) == offset) && Span(p).Success?
    ensures var i := IntervalOf(z, p, day); i.end - i.start == (Span(p).value.1 - Span(p).value.0) * MINUTE
  {
    hide Span, ParseHm;
  }

  ghost predicate Regular(cal: Calendar, z: Zone, offset: int) {
    && ValidCalendar(cal) && cal.zone == Some(z) && cal.exceptions == []
    && -DAY < offset < DAY && offset % SECOND == 0
    && forall t :: z(t) == offset
  }

  lemma DateLength(cal: Calendar, z: Zone, offset: int, day: int)
    requires Regular(cal, z, offset)
    ensures Length(DaysOf(cal, z)(day)) == DayMs(cal, (day + 4) % 7)
  {
    FixedOffsetIsDependable(cal, z, offset);
    DateConverts(cal, z, day);
    PeriodsAreSound(cal, day);
    FixedOffsetKeepsLength(z, offset, day, PeriodsFor(cal, day), OpenIntervals(cal, z, day).value);
  }

  ghost predicate LengthsAre(days: Days, cal: Calendar) {
    forall day :: Length(days(day)) == DayMs(cal, (day + 4) % 7)
  }

  lemma {:induction false} DatesLength(days: Days, cal: Calendar, day: int, n: nat)
    requires LengthsAre(days, cal)
    ensures Length(DatesFrom(days, day, n)) == DatesMs(cal, day, n)
    decreases n
  {
    hide DayMs;
    if n > 0 {
      LengthConcat(days(day), DatesFrom(days, day + 1, n - 1));
      DatesLength(days, cal, day + 1, n - 1);
    }
  }

  /* ------------------------------------------------------------ the bound */

  // With a fixed offset, a date after x's own starts after x.
  lemma LaterDateStartsLater(z: Zone, offset: int, x: Instant, day: int, i: Interval)
    requires z(x) == offset && z(i.start) == offset
    requires LocalDay(z, x) < day && WithinDate(z, day, i)
    ensures x <= i.start
  {
    DayBrackets(LocalTime(z, x), LocalDay(z, x));
  }

  lemma LaterDatesStartLater(z: Zone, days: Days, offset: int, x: Instant, day: int, n: nat)
    requires Fits(z, days) && (forall t :: z(t) == offset) && LocalDay(z, x) < day
    ensures forall k | 0 <= k < |DatesFrom(days, day, n)| ::
              x <= DatesFrom(days, day, n)[k].start < DatesFrom(days, day, n)[k].end
  {
    hide LocalDay, WithinDate, Settled, DatesNeverGoBack;
    forall k | 0 <= k < |DatesFrom(days, day, n)|
      ensures x <= DatesFrom(days, day, n)[k].start < DatesFrom(days, day, n)[k].end
    {
      var d, j := DateOf(days, day, n, k);
      assert DateFits(z, d, days(d));
      LaterDateStartsLater(z, offset, x, d, days(d)[j]);
    }
  }

  // Intervals in the middle of an ascending list count in full.
  lemma MiddleCounts(a: seq<Interval>, mid: seq<Interval>, b: seq<Interval>, x: Instant)
    requires Ascending(a + mid + b) && mid != []
    requires forall k | 0 <= k < |mid| :: x <= mid[k].start < mid[k].end
    ensures Total(a + mid + b, x, HorizonEnd(a + mid + b)) >= Length(mid)
  {
    var s := a + mid + b;
    var end := HorizonEnd(s);
    forall k | 0 <= k < |mid|
      ensures mid[k].end <= end
    {
      assert s[|a| + k] == mid[k];
      assert s[|a| + k].end <= s[|s| - 1].end;
    }
    WholeIntervalsTotal(mid, x, end);
    TotalConcat(a + mid, b, x, end);
    TotalConcat(a, mid, x, end);
  }

  lemma WeeksLength(cal: Calendar, z: Zone, offset: int, day: int)
    requires Regular(cal, z, offset)
    ensures Length(DatesFrom(DaysOf(cal, z), day, 3647)) == 521 * WeekMs(cal)
  {
    hide WeekMs, DayMs, DaysOf, Regular;
    forall d
      ensures Length(DaysOf(cal, z)(d)) == DayMs(cal, (d + 4) % 7)
    {
      DateLength(cal, z, offset, d);
    }
    DatesLength(DaysOf(cal, z), cal, day, 3647);
    WeeksMs(cal, day, 521);
  }

  /** A scan from x holds at least 521 weeks of opening time after x. */
  lemma ScanHolds521Weeks(cal: Calendar, z: Zone, offset: int, x: Instant)
    requires Regular(cal, z, offset) && WeekMs(cal) > 0
    ensures Dependable(cal, z)
    ensures Scanned(cal, z, x) != []
    ensures Total(Scanned(cal, z, x), x, HorizonEnd(Scanned(cal, z, x))) >= 521 * WeekMs(cal)
    ensures exists k | 0 <= k < |Scanned(cal, z, x)| :: x <= Scanned(cal, z, x)[k].start < Scanned(cal, z, x)[k].end
  {
    hide WeekMs, ValidCalendar, DaysOf;
    FixedOffsetIsDependable(cal, z, offset);
    CalendarFits(cal, z);
    var days, first := DaysOf(cal, z), LocalDay(z, x - DAY);
    OffsetKeepsDates(z, offset, x);
    DatesFromSplits(days, first, 2 + 3647, 1);
    DatesFromSplits(days, first, 2, 3647);
    var a, mid, b := DatesFrom(days, first, 2), DatesFrom(days, first + 2, 3647), DatesFrom(days, first + 3649, 1);
    assert Scanned(cal, z, x) == a + mid + b;
    WeeksLength(cal, z, offset, first + 2);
    LaterDatesStartLater(z, days, offset, x, first + 2, 3647);
    StreamAscends(z, days, first, MAX_DAYS_SCANNED);
    MiddleCounts(a, mid, b, x);
    assert (a + mid + b)[|a|] == mid[0];
  }

  lemma OffsetKeepsDates(z: Zone, offset: int, x: Instant)
    requires forall t :: z(t) == offset
    ensures LocalDay(z, x) == LocalDay(z, x - DAY) + 1
  {
    DayBrackets(LocalTime(z, x - DAY), LocalDay(z, x - DAY));
    DayBrackets(LocalTime(z, x), LocalDay(z, x - DAY) + 1);
  }

  /** So adding never gives up before 521 weeks of opening time. */
  lemma AddingReaches521Weeks(cal: Calendar, z: Zone, offset: int, x: Instant, d: nat)
    requires Regular(cal, z, offset) && WeekMs(cal) > 0
    requires d <= 521 * WeekMs(cal)
    ensures Added(cal, x, Finite(d)).Success?
  {
    hide WeekMs, Scanned, Regular, Dependable, AddScan, ScanDays, DaysOf, OpenAt;
    ScanHolds521Weeks(cal, z, offset, x);
    var s := Scanned(cal, z, x);
    AddedOverScan(cal, z, x, d);
    IsOpenIsOpenOnSomeDate(cal, z);
    var open := Openness(DaysOf(cal, z));
    ScanSeesIsOpen(cal, z, open, x);
    if d > 0 {
      AddingNeedsRoom(x, s, d);
    } else {
      AddingNothingOpensNext(open, x, s);
      var k :| 0 <= k < |s| && x <= s[k].start < s[k].end;
      assert Inside(s[k], s[k].start);
      assert Covers(s, s[k].start) && !PastAll(s, s[k].start);
    }
  }
}
