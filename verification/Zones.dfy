/**
 * Time zones and the two-pass conversion from a wall clock to an instant
 * (`packages/business-time/src/index.ts`, `wallToUtc`).
 *
 * An instant is a number of milliseconds since 1970 in UTC.  A zone is the
 * function that gives, for every instant, how far local clocks are ahead of
 * UTC.  A wall-clock reading is the number of milliseconds that UTC would show
 * the same reading at ("naive" in the source), and a local date is the number
 * of days since 1 January 1970.
 */
module Zones {
  const SECOND := 1000
  const MINUTE := 60 * SECOND
  const HOUR := 60 * MINUTE
  const DAY := 24 * HOUR

  lemma InMilliseconds()
    ensures SECOND == 1000 && MINUTE == 60_000 && HOUR == 3_600_000 && DAY == 86_400_000
  {
  }

  type Instant = int
  type Wall = int
  type Zone = Instant -> int

  // What local clocks read at an instant.
  function LocalTime(z: Zone, t: Instant): Wall {
    t + z(t)
  }

  // The local date, as a day number.
  function LocalDay(z: Zone, t: Instant): int {
    LocalTime(z, t) / DAY
  }

  lemma DayBrackets(wall: Wall, day: int)
    ensures wall / DAY == day <==> day * DAY <= wall < (day + 1) * DAY
    ensures wall / DAY >= day <==> day * DAY <= wall
  {
  }

  /**
   * `offsetMs`: the formatter only shows whole seconds, so the offset is the
   * distance between two instants cut down to their second.
   */
  function OffsetMs(z: Zone, t: Instant): int {
    LocalTime(z, t) / SECOND * SECOND - t / SECOND * SECOND
  }

  // Real zones move by whole seconds, and by less than a day.
  ghost predicate Ordinary(z: Zone, t: Instant) {
    z(t) % SECOND == 0 && -DAY < z(t) < DAY
  }

  lemma OffsetIsExact(z: Zone, t: Instant)
    requires Ordinary(z, t)
    ensures OffsetMs(z, t) == z(t)
  {
    var q := z(t) / SECOND;
    assert z(t) == q * SECOND;
    assert LocalTime(z, t) / SECOND == t / SECOND + q;
  }

  /** `wallToUtc` on the naive instant: one guess, one correction. */
  function WallToUtc(z: Zone, wall: Wall): Instant {
    var guess := wall - z(wall);
    var corrected := wall - z(guess);
    if corrected != guess then corrected else guess
  }

  /** Reading the offset off clocks that show whole seconds changes nothing. */
  lemma WallToUtcReadsClocks(z: Zone, wall: Wall)
    requires forall t :: Ordinary(z, t)
    ensures WallToUtc(z, wall) == wall - OffsetMs(z, wall - OffsetMs(z, wall))
  {
    assert Ordinary(z, wall) && Ordinary(z, wall - z(wall));
    OffsetIsExact(z, wall);
    OffsetIsExact(z, wall - z(wall));
  }

  // On [lo, hi] the zone changes its offset at most once, from a to b at T.
  ghost predicate OneChange(z: Zone, lo: Instant, hi: Instant, T: Instant, a: int, b: int) {
    forall t :: lo <= t <= hi ==> z(t) == if t < T then a else b
  }

  // Some instant reads this wall-clock time.
  ghost predicate WallExists(z: Zone, wall: Wall) {
    exists t :: LocalTime(z, t) == wall
  }

  ghost predicate ReadsBack(z: Zone, wall: Wall) {
    LocalTime(z, WallToUtc(z, wall)) == wall
  }

  // The stretch around a wall-clock reading that can hold an instant reading it.
  ghost predicate OneChangeAround(z: Zone, wall: Wall, T: Instant, a: int, b: int) {
    && (forall t :: Ordinary(z, t))
    && -DAY < a < DAY && -DAY < b < DAY
    && OneChange(z, wall - DAY, wall + DAY, T, a, b)
  }

  // Local clocks skip [T + a, T + b) when a < b, and repeat [T + b, T + a) when b < a.
  predicate InGap(wall: Wall, T: Instant, a: int, b: int) {
    T + a <= wall < T + b
  }

  predicate InOverlap(wall: Wall, T: Instant, a: int, b: int) {
    T + b <= wall < T + a
  }

  lemma ConversionTwoPasses(z: Zone, wall: Wall)
    requires forall t :: Ordinary(z, t)
    ensures WallToUtc(z, wall) == wall - z(wall - z(wall))
    ensures wall - DAY <= wall - z(wall) <= wall + DAY
    ensures wall - DAY <= WallToUtc(z, wall) <= wall + DAY
  {
    assert Ordinary(z, wall) && Ordinary(z, wall - z(wall));
  }

  /** The conversion, solved: what it answers for every reading near a change. */
  lemma WallToUtcSolved(z: Zone, wall: Wall, T: Instant, a: int, b: int)
    requires OneChangeAround(z, wall, T, a, b)
    ensures WallToUtc(z, wall) ==
            if InGap(wall, T, a, b) then (if wall >= T then wall - a else wall - b)
            else if InOverlap(wall, T, a, b) then (if wall >= T then wall - b else wall - a)
            else if wall < T + a then wall - a else wall - b
  {
    ConversionTwoPasses(z, wall);
    assert z(wall) == if wall < T then a else b;
    assert z(wall - z(wall)) == if wall - z(wall) < T then a else b;
  }

  // Which instants can read a wall-clock time: one either side of the change.
  lemma Readers(z: Zone, wall: Wall, T: Instant, a: int, b: int, t: Instant)
    requires OneChangeAround(z, wall, T, a, b)
    ensures LocalTime(z, t) == wall <==> (t == wall - a && t < T) || (t == wall - b && t >= T)
  {
    assert Ordinary(z, t);
    if wall - DAY <= t <= wall + DAY {
      assert z(t) == if t < T then a else b;
    }
  }

  /**
   * A reading that exists, at most one change away, converts to an instant that
   * reads it; the readings that do not exist are those the change skips.
   */
  lemma ReadsBackIffExists(z: Zone, wall: Wall, T: Instant, a: int, b: int)
    requires OneChangeAround(z, wall, T, a, b)
    ensures WallExists(z, wall) <==> ReadsBack(z, wall)
    ensures WallExists(z, wall) <==> !InGap(wall, T, a, b)
  {
    WallToUtcSolved(z, wall, T, a, b);
    forall t
      ensures LocalTime(z, t) == wall <==> (t == wall - a && t < T) || (t == wall - b && t >= T)
    {
      Readers(z, wall, T, a, b, t);
    }
  }

  /**
   * What the doc comment promises - a gap shifts forward, an overlap gives the
   * later occurrence - holds exactly where the reading, taken as UTC, is not
   * before the change.  Zones east of UTC meet that; zones west of it do not,
   * and there the opposite choice is made.
   */
  lemma DocumentedChoice(z: Zone, wall: Wall, T: Instant, a: int, b: int)
    requires OneChangeAround(z, wall, T, a, b)
    ensures InGap(wall, T, a, b) ==>
              LocalTime(z, WallToUtc(z, wall)) == if wall >= T then wall + (b - a) else wall - (b - a)
    ensures InGap(wall, T, a, b) ==>
              (LocalTime(z, WallToUtc(z, wall)) > wall <==> wall >= T)
    ensures InOverlap(wall, T, a, b) ==>
              forall t :: LocalTime(z, t) == wall <==> t == wall - a || t == wall - b
    ensures InOverlap(wall, T, a, b) ==>
              wall - a < wall - b && (WallToUtc(z, wall) == wall - b <==> wall >= T)
  {
    WallToUtcSolved(z, wall, T, a, b);
    var r := WallToUtc(z, wall);
    ConversionTwoPasses(z, wall);
    if InGap(wall, T, a, b) {
      assert z(r) == if r < T then a else b;
    }
    if InOverlap(wall, T, a, b) {
      forall t
        ensures LocalTime(z, t) == wall <==> t == wall - a || t == wall - b
      {
        Readers(z, wall, T, a, b, t);
      }
    }
  }

  // New York, 2026: 02:00 standard time on 8 March becomes 03:00 daylight time.
  const NEW_YORK_SPRING: Instant := 20520 * DAY + 7 * HOUR

  function NewYork(t: Instant): int {
    if t < NEW_YORK_SPRING then -5 * HOUR else -4 * HOUR
  }

  /** The comment fails west of UTC: the skipped 02:30 resolves backwards, to 01:30. */
  lemma NewYorkGapShiftsBackwards()
    ensures var skipped := 20520 * DAY + 2 * HOUR + 30 * MINUTE;
            !WallExists(NewYork, skipped) &&
            LocalTime(NewYork, WallToUtc(NewYork, skipped)) == skipped - HOUR
  {
    var skipped := 20520 * DAY + 2 * HOUR + 30 * MINUTE;
    assert forall t :: Ordinary(NewYork, t);
    assert OneChangeAround(NewYork, skipped, NEW_YORK_SPRING, -5 * HOUR, -4 * HOUR);
    ReadsBackIffExists(NewYork, skipped, NEW_YORK_SPRING, -5 * HOUR, -4 * HOUR);
    DocumentedChoice(NewYork, skipped, NEW_YORK_SPRING, -5 * HOUR, -4 * HOUR);
  }

  /* ------------------------------------------------------------ zones as calendars meet them */

  // Offsets are under a day and whole seconds, at most one change falls in any
  // four days, and a change is under twelve hours: every zone in use today.
  ghost predicate Settled(z: Zone) {
    && (forall t :: Ordinary(z, t))
    && (forall lo :: SettledFrom(z, lo))
  }

  ghost predicate SettledFrom(z: Zone, lo: Instant) {
    exists T, a, b :: SmallChange(z, lo, T, a, b)
  }

  ghost predicate SmallChange(z: Zone, lo: Instant, T: Instant, a: int, b: int) {
    && -DAY < a < DAY && -DAY < b < DAY
    && -HOUR * 12 < b - a < HOUR * 12
    && OneChange(z, lo, lo + 4 * DAY, T, a, b)
  }

  lemma FixedOffsetIsSettled(z: Zone, offset: int)
    requires -DAY < offset < DAY && offset % SECOND == 0
    requires forall t :: z(t) == offset
    ensures Settled(z)
  {
    forall lo
      ensures SettledFrom(z, lo)
    {
      assert SmallChange(z, lo, lo, offset, offset);
    }
  }

  /** Readings that exist convert in order: this is what keeps a day's intervals apart. */
  lemma ExistingWallsAscend(z: Zone, w1: Wall, w2: Wall)
    requires Settled(z)
    requires w1 < w2 && WallExists(z, w1) && WallExists(z, w2)
    ensures ReadsBack(z, w1) && ReadsBack(z, w2)
    ensures WallToUtc(z, w1) < WallToUtc(z, w2)
  {
    SettledReadsBack(z, w1);
    SettledReadsBack(z, w2);
    if w2 - w1 < 2 * DAY {
      assert SettledFrom(z, w1 - DAY);
      var T, a, b :| SmallChange(z, w1 - DAY, T, a, b);
      WallToUtcSolved(z, w1, T, a, b);
      WallToUtcSolved(z, w2, T, a, b);
      ReadsBackIffExists(z, w1, T, a, b);
      ReadsBackIffExists(z, w2, T, a, b);
    } else {
      assert Ordinary(z, WallToUtc(z, w1)) && Ordinary(z, WallToUtc(z, w2));
    }
  }

  lemma SettledReadsBack(z: Zone, wall: Wall)
    requires Settled(z)
    ensures WallExists(z, wall) <==> ReadsBack(z, wall)
  {
    assert SettledFrom(z, wall - DAY);
    var T, a, b :| SmallChange(z, wall - DAY, T, a, b);
    ReadsBackIffExists(z, wall, T, a, b);
  }

  /** A conversion lands less than twelve hours of local time away from what was asked. */
  lemma ConvertedLandsNear(z: Zone, wall: Wall)
    requires Settled(z)
    ensures -12 * HOUR < LocalTime(z, WallToUtc(z, wall)) - wall < 12 * HOUR
  {
    assert SettledFrom(z, wall - DAY);
    var T, a, b :| SmallChange(z, wall - DAY, T, a, b);
    WallToUtcSolved(z, wall, T, a, b);
    var r := WallToUtc(z, wall);
    ConversionTwoPasses(z, wall);
    assert z(r) == if r < T then a else b;
  }

  /** What a reading converts to is what its own reading converts to. */
  lemma ConvertedConvertsBack(z: Zone, wall: Wall)
    requires Settled(z)
    ensures WallToUtc(z, LocalTime(z, WallToUtc(z, wall))) == WallToUtc(z, wall)
  {
    assert SettledFrom(z, wall - 2 * DAY);
    var T, a, b :| SmallChange(z, wall - 2 * DAY, T, a, b);
    WallToUtcSolved(z, wall, T, a, b);
    ConversionTwoPasses(z, wall);
    var t := WallToUtc(z, wall);
    assert z(t) == if t < T then a else b;
    ConvertedLandsNear(z, wall);
    WallToUtcSolved(z, LocalTime(z, t), T, a, b);
  }
}
