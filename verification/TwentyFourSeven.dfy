/**
 * The calendar that never closes, `TWENTY_FOUR_SEVEN` of
 * `packages/business-time/src/index.ts`: adding working time is plain addition.
 */
module TwentyFourSeven {
  import opened Wrappers
  import opened Zones
  import opened BusinessCalendar
  import opened BusinessTime
  import opened CalendarLaws
  import opened ScanBound
  import opened EveryDay
  import opened HiddenHours
  import opened OrderedTime

  function Utc(t: Instant): int {
    0
  }

  function AlwaysOpen(dateKey: int -> string): Calendar {
    EveryDayOpen(Utc, dateKey, [Hours(0, 1440)])
  }

  lemma SameHoursAllWeek(z: Zone, dateKey: int -> string, periods: seq<OpenPeriod>)
    ensures WeekMs(EveryDayOpen(z, dateKey, periods)) == 7 * PeriodsMs(periods)
  {
    hide PeriodsMs;
  }

  lemma OnePeriodMs(from: nat, to: nat)
    requires from < to <= 1440
    ensures PeriodsMs([Hours(from, to)]) == (to - from) * MINUTE
  {
    hide Span, Hours;
    HoursSpan(from, to);
    var periods := [Hours(from, to)];
    assert periods[..0] == [];
    assert PeriodsMs([]) == 0;
  }

  lemma AlwaysOpenIsRegular(dateKey: int -> string)
    ensures Regular(AlwaysOpen(dateKey), Utc, 0)
    ensures WeekMs(AlwaysOpen(dateKey)) == 7 * DAY
  {
    hide Hours, Sound, ValidCalendar, WeekMs, PeriodsMs;
    OnePeriodIsSound(0, 1440);
    EveryDayIsValid(Utc, dateKey, [Hours(0, 1440)]);
    SameHoursAllWeek(Utc, dateKey, [Hours(0, 1440)]);
    OnePeriodMs(0, 1440);
  }

  lemma AlwaysOpenNeverCloses(dateKey: int -> string)
    ensures NeverCloses(AlwaysOpen(dateKey), Utc)
  {
    AroundTheClockNeverCloses(Utc, dateKey);
  }

  /** It is open at every instant. */
  lemma AlwaysOpenIsOpen(dateKey: int -> string, t: Instant)
    ensures IsOpen(AlwaysOpen(dateKey), t) == Success(true)
  {
    AlwaysOpenNeverCloses(dateKey);
    hide NeverCloses;
    NeverClosedLooksClosedIff(AlwaysOpen(dateKey), Utc, t, t, 0, 0);
  }

  /** Adding d to x gives x + d, for every duration up to 521 weeks. */
  lemma AddingIsPlainAddition(dateKey: int -> string, x: Instant, d: nat)
    requires d <= 521 * 7 * DAY
    ensures Added(AlwaysOpen(dateKey), x, Finite(d)) == Success(x + d)
  {
    hide Added, Regular, Dependable, WeekMs, Hours;
    AlwaysOpenIsRegular(dateKey);
    AddingReaches521Weeks(AlwaysOpen(dateKey), Utc, 0, x, d);
    FixedOffsetIsSettled(Utc, 0);
    AroundTheClockAddsPlainly(Utc, dateKey, x, d);
  }
}
