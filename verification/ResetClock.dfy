/**
 * The demo's reset clock (`packages/contracts/src/demo.ts`): midnight in London,
 * through both clock changes.
 */
module ResetClock {
  import opened Zones
  import opened Text

  // British clocks are on UTC or an hour ahead, and change only at 01:00 UTC.
  ghost predicate UkClock(z: Zone) {
    && (forall t :: z(t) == 0 || z(t) == HOUR)
    && (forall s, t :: SameChangeDay(s, t) ==> z(s) == z(t))
  }

  // No 01:00 UTC lies between two instants.
  predicate SameChangeDay(s: Instant, t: Instant) {
    (s - HOUR) / DAY == (t - HOUR) / DAY
  }

  /** `zonedInstant` for midnight of a date: two passes. */
  function MidnightOf(z: Zone, day: int): Instant {
    var guess := day * DAY;
    guess - z(guess - z(guess))
  }

  /** `previousResetAt`. */
  function PreviousResetAt(z: Zone, now: Instant): Instant {
    var today := MidnightOf(z, LocalDay(z, now));
    if today <= now then today else MidnightOf(z, LocalDay(z, now) - 1)
  }

  /** `nextResetAt`. */
  function NextResetAt(z: Zone, now: Instant): Instant {
    var today := MidnightOf(z, LocalDay(z, now));
    if today > now then today else MidnightOf(z, LocalDay(z, now) + 1)
  }

  function PeriodMs(z: Zone, now: Instant): int {
    NextResetAt(z, now) - PreviousResetAt(z, now)
  }

  function SecondsUntilNextReset(z: Zone, now: Instant): nat {
    var left := (NextResetAt(z, now) - now) / SECOND;
    if left < 0 then 0 else left
  }

  // The offset in force from 01:00 UTC on the day before a date to 01:00 UTC on it.
  ghost function NightOffset(z: Zone, day: int): int {
    z(day * DAY)
  }

  lemma NightIsSteady(z: Zone, day: int, t: Instant)
    requires UkClock(z) && (day - 1) * DAY + HOUR <= t < day * DAY + HOUR
    ensures z(t) == NightOffset(z, day)
  {
    assert (t - HOUR) / DAY == day - 1;
    assert (day * DAY - HOUR) / DAY == day - 1;
    assert SameChangeDay(t, day * DAY);
  }

  /** Midnight in London is never skipped or repeated: the conversion finds the one instant that reads it. */
  lemma MidnightIsUnique(z: Zone, day: int)
    requires UkClock(z)
    ensures MidnightOf(z, day) == day * DAY - NightOffset(z, day)
    ensures forall t :: LocalTime(z, t) == day * DAY <==> t == MidnightOf(z, day)
  {
    NightIsSteady(z, day, day * DAY - z(day * DAY));
    forall t
      ensures LocalTime(z, t) == day * DAY <==> t == MidnightOf(z, day)
    {
      if day * DAY - HOUR <= t <= day * DAY {
        NightIsSteady(z, day, t);
      }
    }
  }

  /** Between one midnight and the next lies exactly one local date. */
  lemma DateBetweenMidnights(z: Zone, day: int, t: Instant)
    requires UkClock(z)
    ensures MidnightOf(z, day) <= t < MidnightOf(z, day + 1) <==> LocalDay(z, t) == day
  {
    MidnightIsUnique(z, day);
    MidnightIsUnique(z, day + 1);
    var o, o' := NightOffset(z, day), NightOffset(z, day + 1);
    if (day - 1) * DAY + HOUR <= t < day * DAY + HOUR {
      NightIsSteady(z, day, t);
    } else if day * DAY + HOUR <= t < (day + 1) * DAY + HOUR {
      NightIsSteady(z, day + 1, t);
    }
    DayBrackets(LocalTime(z, t), day);
  }

  /** The resets around an instant are the midnights that begin and end its London date. */
  lemma ResetsAreMidnights(z: Zone, now: Instant)
    requires UkClock(z)
    ensures PreviousResetAt(z, now) == MidnightOf(z, LocalDay(z, now))
    ensures NextResetAt(z, now) == MidnightOf(z, LocalDay(z, now) + 1)
  {
    DateBetweenMidnights(z, LocalDay(z, now), now);
  }

  /**
   * The reset clock: the resets enclose `now`, read midnight, have no midnight
   * between them, are 23, 24 or 25 hours apart, and enclose exactly one date.
   */
  lemma ResetClockLaws(z: Zone, now: Instant)
    requires UkClock(z)
    ensures var p, n := PreviousResetAt(z, now), NextResetAt(z, now);
            && p <= now < n
            && LocalTime(z, p) == LocalDay(z, now) * DAY
            && LocalTime(z, n) == (LocalDay(z, now) + 1) * DAY
            && (forall t :: p < t < n ==> LocalTime(z, t) % DAY != 0)
            && PeriodMs(z, now) in {23 * HOUR, 24 * HOUR, 25 * HOUR}
            && (forall t :: p <= t < n <==> LocalDay(z, t) == LocalDay(z, now))
  {
    var day := LocalDay(z, now);
    var p, n := PreviousResetAt(z, now), NextResetAt(z, now);
    ResetsAreMidnights(z, now);
    MidnightIsUnique(z, day);
    MidnightIsUnique(z, day + 1);
    forall t
      ensures p <= t < n <==> LocalDay(z, t) == day
    {
      DateBetweenMidnights(z, day, t);
    }
    forall t | p < t < n
      ensures LocalTime(z, t) % DAY != 0
    {
      NoMidnightInside(z, day, t);
    }
    assert z(day * DAY) in {0, HOUR} && z((day + 1) * DAY) in {0, HOUR};
  }

  lemma NoMidnightInside(z: Zone, day: int, t: Instant)
    requires UkClock(z) && MidnightOf(z, day) < t < MidnightOf(z, day + 1)
    ensures LocalTime(z, t) % DAY != 0
  {
    DateBetweenMidnights(z, day, t);
    MidnightIsUnique(z, day);
    var local := LocalTime(z, t);
    assert local / DAY == day && local != day * DAY;
  }

  /* ------------------------------------------------------------ the re-entry cookie's day */

  datatype Area = Portal | Workbench | Admin

  // The persona each area mints, by its key.
  function PersonaFor(area: Area): string {
    match area
    case Portal => "employee"
    case Workbench => "agent"
    case Admin => "admin"
  }

  predicate IsPersonaKey(s: string) {
    s == "employee" || s == "agent" || s == "admin"
  }

  const DEMO_COOKIE_MAX_SECONDS: nat := 86_400

  /** `demoCookieValue`; `dateKey` writes a date as `YYYY-MM-DD`. */
  function DemoCookieValue(z: Zone, dateKey: int -> string, persona: string, now: Instant): string {
    persona + "." + dateKey(LocalDay(z, now))
  }

  /** `demoCookieMaxAge`, in seconds. */
  function DemoCookieMaxAge(z: Zone, now: Instant): nat {
    var left := SecondsUntilNextReset(z, now);
    if left < DEMO_COOKIE_MAX_SECONDS then left else DEMO_COOKIE_MAX_SECONDS
  }

  /** `demoReentryFromValue`, for one of the three areas: whether the cookie offers its persona. */
  predicate OffersDemo(z: Zone, dateKey: int -> string, value: string, area: Area, now: Instant) {
    var separator := IndexOf(value, '.');
    && 1 <= separator < |value|
    && IsPersonaKey(value[..separator])
    && value[..separator] == PersonaFor(area)
    && value[separator + 1..] == dateKey(LocalDay(z, now))
  }

  ghost predicate DistinctKeys(dateKey: int -> string) {
    forall d, e {:trigger dateKey(d), dateKey(e)} :: dateKey(d) == dateKey(e) ==> d == e
  }

  lemma CookieReadsBack(z: Zone, dateKey: int -> string, minted: Area, now: Instant, area: Area, t: Instant)
    ensures OffersDemo(z, dateKey, DemoCookieValue(z, dateKey, PersonaFor(minted), now), area, t) <==>
            minted == area && dateKey(LocalDay(z, now)) == dateKey(LocalDay(z, t))
  {
    var persona, key := PersonaFor(minted), dateKey(LocalDay(z, now));
    var value := DemoCookieValue(z, dateKey, persona, now);
    assert value == persona + ['.'] + key;
    IndexOfFirst(persona, '.', key);
    assert value[..|persona|] == persona && value[|persona| + 1..] == key;
    assert PersonaFor(minted)[1] == PersonaFor(area)[1] ==> minted == area;
  }

  /** A demo cookie is honoured by the area that minted it, on its own demo day, and nowhere else. */
  lemma HonouredOnItsDayOnly(z: Zone, dateKey: int -> string, minted: Area, now: Instant, area: Area, t: Instant)
    requires UkClock(z) && DistinctKeys(dateKey)
    ensures OffersDemo(z, dateKey, DemoCookieValue(z, dateKey, PersonaFor(minted), now), area, t) <==>
            minted == area && PreviousResetAt(z, now) <= t < NextResetAt(z, now)
  {
    CookieReadsBack(z, dateKey, minted, now, area, t);
    ResetClockLaws(z, now);
  }

  /** So it is honoured at every instant of its Max-Age, and the browser drops it before the reset. */
  lemma HonouredThroughoutItsMaxAge(z: Zone, dateKey: int -> string, area: Area, now: Instant, t: Instant)
    requires UkClock(z) && DistinctKeys(dateKey)
    requires now <= t < now + DemoCookieMaxAge(z, now) * SECOND
    ensures OffersDemo(z, dateKey, DemoCookieValue(z, dateKey, PersonaFor(area), now), area, t)
    ensures now + DemoCookieMaxAge(z, now) * SECOND <= NextResetAt(z, now)
  {
    ResetClockLaws(z, now);
    HonouredOnItsDayOnly(z, dateKey, area, now, area, t);
  }

  /** The Max-Age is as long as it may be: a day, or else one more second would reach past the reset. */
  lemma MaxAgeIsLongest(z: Zone, now: Instant)
    requires UkClock(z)
    ensures DemoCookieMaxAge(z, now) <= 86_400
    ensures DemoCookieMaxAge(z, now) == 86_400 || now + (DemoCookieMaxAge(z, now) + 1) * SECOND > NextResetAt(z, now)
  {
    ResetClockLaws(z, now);
  }

  /** Which cookies an area honours at an instant, for every text: its own persona's, with the London date. */
  lemma OffersDemoIff(z: Zone, dateKey: int -> string, value: string, area: Area, now: Instant)
    requires dateKey(LocalDay(z, now)) != ""
    ensures OffersDemo(z, dateKey, value, area, now) <==>
            || (area == Portal && value == "employee." + dateKey(LocalDay(z, now)))
            || (area == Workbench && value == "agent." + dateKey(LocalDay(z, now)))
            || (area == Admin && value == "admin." + dateKey(LocalDay(z, now)))
  {
    var persona, key := PersonaFor(area), dateKey(LocalDay(z, now));
    assert persona + "." == match area case Portal => "employee." case Workbench => "agent." case Admin => "admin.";
    if OffersDemo(z, dateKey, value, area, now) {
      var i := IndexOf(value, '.');
      assert value == value[..i] + [value[i]] + value[i + 1..];
      assert value == persona + "." + key;
    }
    if value == persona + "." + key {
      assert value == persona + ['.'] + key;
      IndexOfFirst(persona, '.', key);
      assert value[..|persona|] == persona && value[|persona| + 1..] == key;
    }
  }
}
