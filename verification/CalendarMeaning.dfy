/**
 * What a calendar says, read off its hours and exceptions as they are written:
 * which periods a date has, when `isOpen` answers yes, and what validation
 * reports (`packages/business-time/src/index.ts`).
 */
module CalendarMeaning {
  import opened Wrappers
  import opened Text
  import opened Zones
  import opened BusinessCalendar
  import opened OpenTime
  import opened BusinessTime
  import opened CalendarLaws
  import opened BusinessLaws
  import opened OrderOfDates

  /* ------------------------------------------------------------ the days of the week */

  function DayAfter(day: Weekday): Weekday {
    match day
    case Sun => Mon
    case Mon => Tue
    case Tue => Wed
    case Wed => Thu
    case Thu => Fri
    case Fri => Sat
    case Sat => Sun
  }

  /** 1 January 1970 was a Thursday, and the days follow one another. */
  lemma WeekdaysFollow(day: int)
    ensures WeekdayOf(0) == Thu && WeekdayOf(day + 1) == DayAfter(WeekdayOf(day))
  {
  }

  /* ------------------------------------------------------------ the periods of a date */

  // Exception i is the first for the date.
  ghost predicate FirstFor(cal: Calendar, day: int, i: nat) {
    && i < |cal.exceptions| && cal.exceptions[i].date == cal.dateKey(day)
    && forall j | 0 <= j < i :: cal.exceptions[j].date != cal.dateKey(day)
  }

  ghost predicate NoExceptionOn(cal: Calendar, day: int) {
    forall e | e in cal.exceptions :: e.date != cal.dateKey(day)
  }

  lemma {:induction false} FirstIsFound(exceptions: seq<CalendarException>, key: string, i: nat)
    requires i < |exceptions| && exceptions[i].date == key && forall j | 0 <= j < i :: exceptions[j].date != key
    ensures ExceptionFor(exceptions, key) == Some(exceptions[i])
  {
    if i > 0 {
      FirstIsFound(exceptions[1..], key, i - 1);
    }
  }

  lemma {:induction false} FoundIsFirst(exceptions: seq<CalendarException>, key: string) returns (i: nat)
    requires exists e :: e in exceptions && e.date == key
    ensures i < |exceptions| && exceptions[i].date == key && forall j | 0 <= j < i :: exceptions[j].date != key
  {
    if exceptions[0].date == key {
      i := 0;
    } else {
      i := FoundIsFirst(exceptions[1..], key);
      i := i + 1;
    }
  }

  /**
   * The first exception for a date decides its periods: a holiday has none, and
   * extended hours replace the weekday's, which apply where there is no exception.
   */
  lemma ExceptionsDecide(cal: Calendar, day: int)
    ensures forall i: nat | FirstFor(cal, day, i) ::
              PeriodsFor(cal, day) ==
              if cal.exceptions[i].kind == Extended && cal.exceptions[i].hours.Some? then cal.exceptions[i].hours.value else []
    ensures NoExceptionOn(cal, day) ==>
              PeriodsFor(cal, day) == if WeekdayOf(day) in cal.hours then cal.hours[WeekdayOf(day)] else []
    ensures NoExceptionOn(cal, day) || exists i: nat :: FirstFor(cal, day, i)
  {
    hide WeekdayOf;
    forall i: nat | FirstFor(cal, day, i)
      ensures ExceptionFor(cal.exceptions, cal.dateKey(day)) == Some(cal.exceptions[i])
    {
      FirstIsFound(cal.exceptions, cal.dateKey(day), i);
    }
    if !NoExceptionOn(cal, day) {
      var i := FoundIsFirst(cal.exceptions, cal.dateKey(day));
      assert FirstFor(cal, day, i);
    }
  }

  // The period is written for the date: by its first exception, or for its weekday if it has none.
  ghost predicate Written(cal: Calendar, day: int, p: OpenPeriod) {
    || (exists i: nat :: FirstFor(cal, day, i) && cal.exceptions[i].kind == Extended
                         && cal.exceptions[i].hours.Some? && p in cal.exceptions[i].hours.value)
    || (NoExceptionOn(cal, day) && WeekdayOf(day) in cal.hours && p in cal.hours[WeekdayOf(day)])
  }

  lemma OneIsFirst(cal: Calendar, day: int, i: nat, j: nat)
    requires FirstFor(cal, day, i) && FirstFor(cal, day, j)
    ensures i == j
  {
  }

  lemma WrittenPeriods(cal: Calendar, day: int, p: OpenPeriod)
    ensures p in PeriodsFor(cal, day) <==> Written(cal, day, p)
  {
    hide PeriodsFor, WeekdayOf;
    ExceptionsDecide(cal, day);
    if NoExceptionOn(cal, day) {
      assert forall i: nat :: !FirstFor(cal, day, i);
    } else {
      var i: nat :| FirstFor(cal, day, i);
      forall j: nat | FirstFor(cal, day, j)
        ensures i == j
      {
        OneIsFirst(cal, day, i, j);
      }
    }
  }

  /** A holiday has no open interval, whatever its weekday's hours. */
  lemma HolidaysAreClosed(cal: Calendar, z: Zone, day: int, i: nat)
    requires FirstFor(cal, day, i) && cal.exceptions[i].kind == Holiday
    ensures OpenIntervals(cal, z, day) == Success([])
  {
    ExceptionsDecide(cal, day);
    assert PeriodsFor(cal, day) == [];
  }

  /* ------------------------------------------------------------ isOpen */

  // Some period written for the date, converted, holds the instant.
  ghost predicate OpenOnDate(cal: Calendar, z: Zone, day: int, t: Instant) {
    exists p :: Written(cal, day, p) && Span(p).Success? && Inside(IntervalOf(z, p, day), t)
  }

  lemma DateCovers(cal: Calendar, z: Zone, day: int, t: Instant)
    requires ValidCalendar(cal)
    ensures OpenIntervals(cal, z, day).Success?
    ensures Covers(OpenIntervals(cal, z, day).value, t) <==> OpenOnDate(cal, z, day, t)
  {
    hide ValidCalendar, PeriodsFor, Written, IntervalOf, Span, OpenIntervals;
    var s := DaysOf(cal, z)(day);
    DateConvertsAnyway(cal, z, day);
    forall x
      ensures x in s <==> exists p :: Written(cal, day, p) && FromPeriod(z, day, p, x)
    {
      DateHoldsItsPeriods(cal, z, day, x);
      forall p
        ensures p in PeriodsFor(cal, day) <==> Written(cal, day, p)
      {
        WrittenPeriods(cal, day, p);
      }
    }
    CoversIsSome(s, t);
    if OpenOnDate(cal, z, day, t) {
      var p :| Written(cal, day, p) && Span(p).Success? && Inside(IntervalOf(z, p, day), t);
      assert FromPeriod(z, day, p, IntervalOf(z, p, day));
    }
  }

  lemma CoversIsSome(s: seq<Interval>, t: Instant)
    ensures Covers(s, t) <==> exists x :: x in s && Inside(x, t)
  {
  }

  lemma DateConvertsAnyway(cal: Calendar, z: Zone, day: int)
    requires ValidCalendar(cal)
    ensures OpenIntervals(cal, z, day) == Success(DaysOf(cal, z)(day))
  {
    hide ValidCalendar, PeriodsFor, Sound, Converted, SortByStart, FromPeriod;
    PeriodsAreSound(cal, day);
    ConvertedPeriods(z, day, PeriodsFor(cal, day), Interval(0, 0));
  }

  /**
   * `isOpen` answers for every valid calendar, in every zone: yes exactly where a
   * period written for the local date of the instant, or for that of 24 hours
   * earlier, holds it.
   */
  lemma IsOpenMeans(cal: Calendar, z: Zone, t: Instant)
    requires ValidCalendar(cal) && cal.zone == Some(z)
    ensures IsOpen(cal, t) == Success(OpenOnDate(cal, z, LocalDay(z, t), t) || OpenOnDate(cal, z, LocalDay(z, t - DAY), t))
  {
    hide ValidCalendar, OpenIntervals, OpenOnDate, IsOpen, LocalDay;
    var today, last := LocalDay(z, t), LocalDay(z, t - DAY);
    DateCovers(cal, z, today, t);
    DateCovers(cal, z, last, t);
    var s, u := OpenIntervals(cal, z, last).value, OpenIntervals(cal, z, today).value;
    IsOpenOverDates(cal, z, t, s, u);
    CoversConcat(s, u, t);
  }

  // The local clock reads a time within a period written for its date.
  ghost predicate ClockWithinHours(cal: Calendar, z: Zone, t: Instant) {
    exists p :: Written(cal, LocalDay(z, t), p) && Span(p).Success?
                && Span(p).value.0 * MINUTE <= LocalTime(z, t) % DAY < Span(p).value.1 * MINUTE
  }

  lemma FixedInterval(z: Zone, offset: int, day: int, p: OpenPeriod, t: Instant)
    requires (forall u :: z(u) == offset) && Span(p).Success?
    ensures Inside(IntervalOf(z, p, day), t) <==>
            Walls(p, day).start <= LocalTime(z, t) < Walls(p, day).end
  {
    hide Span;
  }

  lemma FixedDate(cal: Calendar, z: Zone, offset: int, t: Instant, day: int)
    requires ValidCalendar(cal) && forall u :: z(u) == offset
    ensures day == LocalDay(z, t) ==> (OpenOnDate(cal, z, day, t) <==> ClockWithinHours(cal, z, t))
    ensures day == LocalDay(z, t) - 1 ==> !OpenOnDate(cal, z, day, t)
  {
    hide Span, ValidCalendar, Written, IntervalOf, Sound;
    var local := LocalTime(z, t);
    assert local == LocalDay(z, t) * DAY + local % DAY;
    forall p | Span(p).Success?
      ensures Inside(IntervalOf(z, p, day), t) <==> day * DAY + Span(p).value.0 * MINUTE <= local < day * DAY + Span(p).value.1 * MINUTE
      ensures Span(p).value.1 <= 1440
    {
      FixedInterval(z, offset, day, p, t);
    }
  }

  /** Where clocks never change, `isOpen` holds exactly while the local clock reads a time within the hours written for its date. */
  lemma IsOpenReadsTheClock(cal: Calendar, z: Zone, offset: int, t: Instant)
    requires ValidCalendar(cal) && cal.zone == Some(z) && forall u :: z(u) == offset
    ensures IsOpen(cal, t) == Success(ClockWithinHours(cal, z, t))
  {
    hide ValidCalendar, OpenOnDate, IsOpen, ClockWithinHours;
    IsOpenMeans(cal, z, t);
    assert LocalDay(z, t - DAY) == LocalDay(z, t) - 1;
    FixedDate(cal, z, offset, t, LocalDay(z, t));
    FixedDate(cal, z, offset, t, LocalDay(z, t) - 1);
  }

  /* ------------------------------------------------------------ times and dates as written */

  /** `parseHm` reads nothing but clock faces, with one hour digit or two. */
  lemma ParseHmReadsOnlyClockFaces(s: string, name: string)
    requires ParseHm(s, name).Success?
    ensures var time := ParseHm(s, name).value;
            || s == TwoDigits(time.hour) + ":" + TwoDigits(time.minute)
            || (time.hour < 10 && s == [Digit(time.hour)] + ":" + TwoDigits(time.minute))
  {
    var time := ParseHm(s, name).value;
    if |s| == 4 {
      assert s == [s[0], s[1], s[2], s[3]];
      assert [Digit(time.hour)] + ":" + TwoDigits(time.minute) == [Digit(time.hour), ':', Digit(time.minute / 10), Digit(time.minute % 10)];
    } else {
      assert s == [s[0], s[1], s[2], s[3], s[4]];
      assert TwoDigits(time.hour) + ":" + TwoDigits(time.minute) ==
             [Digit(time.hour / 10), Digit(time.hour % 10), ':', Digit(time.minute / 10), Digit(time.minute % 10)];
    }
  }

  ghost predicate WrittenDate(s: string) {
    exists y, m, d {:trigger y + "-" + m + "-" + d} ::
      |y| == 4 && |m| == 2 && |d| == 2 && AllDigits(y + m + d) && s == y + "-" + m + "-" + d
  }

  lemma DateShapedIff(s: string)
    ensures IsDateShaped(s) <==> WrittenDate(s)
  {
    if IsDateShaped(s) {
      var y, m, d := s[..4], s[5..7], s[8..];
      assert s == y + "-" + m + "-" + d;
      assert AllDigits(y + m + d);
    }
    if y, m, d :| |y| == 4 && |m| == 2 && |d| == 2 && AllDigits(y + m + d) && s == y + "-" + m + "-" + d {
      var digits := y + m + d;
      forall i | 0 <= i < 10 && i != 4 && i != 7
        ensures IsDigit(s[i])
      {
        var k := if i < 4 then i else if i < 7 then i - 1 else i - 2;
        assert s[i] == digits[k] && digits[k] in digits;
      }
    }
  }

  /* ------------------------------------------------------------ what validation reports */

  // The end of the last period before place i that can be read, or `first` where there is none.
  ghost function EndBefore(periods: seq<OpenPeriod>, i: nat, first: int): int
    requires i <= |periods|
  {
    if i == 0 then first
    else
      match Span(periods[i - 1])
      case Success((_, end)) => end
      case Failure(_) => EndBefore(periods, i - 1, first)
  }

  // What is wrong with a period, given where the last one ended.
  ghost predicate Wrong(p: OpenPeriod, where: Label, last: int, problem: Problem) {
    match problem
    case TimeInvalid(w, e) => w == where && Span(p) == Failure(e)
    case EndsBeforeItStarts(w, q) => w == where && q == p && Span(p).Success? && Span(p).value.1 <= Span(p).value.0
    case OverlapsPrevious(w, q) => w == where && q == p && Span(p).Success? && Span(p).value.0 < last
    case _ => false
  }

  lemma CheckFinds(p: OpenPeriod, where: Label, last: int, problem: Problem)
    ensures problem in PeriodCheck(p, where, last).0 <==> Wrong(p, where, last, problem)
    ensures PeriodCheck(p, where, last).1 == EndBefore([p], 1, last)
  {
    hide ParseHm, Span;
    assert EndBefore([p], 0, last) == last;
  }

  lemma {:induction false} EndBeforeRest(periods: seq<OpenPeriod>, i: nat, first: int)
    requires 0 < i <= |periods|
    ensures EndBefore(periods, i, first) == EndBefore(periods[1..], i - 1, EndBefore([periods[0]], 1, first))
  {
    hide Span;
    assert EndBefore([periods[0]], 0, first) == first;
    if i > 1 {
      EndBeforeRest(periods, i - 1, first);
    }
  }

  lemma {:induction false} PeriodProblemsFound(periods: seq<OpenPeriod>, where: Label, first: int, problem: Problem)
    ensures problem in PeriodProblems(periods, where, first) <==>
            exists i :: 0 <= i < |periods| && Wrong(periods[i], where, EndBefore(periods, i, first), problem)
  {
    hide PeriodCheck, Span, Wrong;
    if periods != [] {
      CheckFinds(periods[0], where, first, problem);
      var (found, end) := PeriodCheck(periods[0], where, first);
      var rest := periods[1..];
      PeriodProblemsFound(rest, where, end, problem);
      assert EndBefore(periods, 0, first) == first;
      forall i | 0 < i < |periods|
        ensures periods[i] == rest[i - 1] && EndBefore(periods, i, first) == EndBefore(rest, i - 1, end)
      {
        EndBeforeRest(periods, i, first);
      }
      if i :| 0 <= i < |rest| && Wrong(rest[i], where, EndBefore(rest, i, end), problem) {
        assert Wrong(periods[i + 1], where, EndBefore(periods, i + 1, first), problem);
      }
    }
  }

  // The hours of a weekday, or of an exception that extends them.
  ghost predicate Listed(cal: Calendar, where: Label, periods: seq<OpenPeriod>) {
    match where
    case DayLabel(day) => day in cal.hours && periods == cal.hours[day]
    case ExceptionLabel(date) => exists e :: e in cal.exceptions && e.date == date && e.kind == Extended && periods == e.Hours()
  }

  ghost predicate SomeListWrong(cal: Calendar, where: Label, problem: Problem) {
    exists periods, i :: Listed(cal, where, periods) && 0 <= i < |periods| && Wrong(periods[i], where, EndBefore(periods, i, -1), problem)
  }

  lemma {:induction false} WeekProblemsFound(cal: Calendar, n: nat, problem: Problem)
    ensures problem in WeekProblems(cal, n) <==>
            exists k: nat :: k < n && NthWeekday(k) in cal.hours
                             && problem in PeriodProblems(cal.hours[NthWeekday(k)], DayLabel(NthWeekday(k)), -1)
  {
    hide NthWeekday, PeriodProblems;
    if n > 0 {
      WeekProblemsFound(cal, n - 1, problem);
    }
  }

  lemma {:induction false} ExceptionProblemsFound(exceptions: seq<CalendarException>, problem: Problem)
    ensures problem in ExceptionProblems(exceptions) <==>
            exists e :: e in exceptions
                        && ((problem == ExceptionDateMalformed(e.date) && !IsDateShaped(e.date))
                            || (e.kind == Extended && problem in PeriodProblems(e.Hours(), ExceptionLabel(e.date), -1)))
  {
    hide IsDateShaped, PeriodProblems;
    if exceptions != [] {
      var n := |exceptions| - 1;
      ExceptionProblemsFound(exceptions[..n], problem);
      assert exceptions == exceptions[..n] + [exceptions[n]];
    }
  }

  lemma EveryWeekdayIsNth(day: Weekday) returns (k: nat)
    ensures k < 7 && NthWeekday(k) == day
  {
    k := match day case Sun => 0 case Mon => 1 case Tue => 2 case Wed => 3 case Thu => 4 case Fri => 5 case Sat => 6;
  }

  // The label a problem of some period carries.
  function LabelOf(problem: Problem): Option<Label> {
    match problem
    case TimeInvalid(where, _) => Some(where)
    case EndsBeforeItStarts(where, _) => Some(where)
    case OverlapsPrevious(where, _) => Some(where)
    case _ => None
  }

  lemma OfPeriods(periods: seq<OpenPeriod>, where: Label, problem: Problem)
    ensures problem in PeriodProblems(periods, where, -1) ==> LabelOf(problem) == Some(where)
  {
    hide PeriodProblems, Span, EndBefore;
    PeriodProblemsFound(periods, where, -1, problem);
  }

  lemma InProblems(cal: Calendar, problem: Problem)
    ensures problem in Problems(cal) <==>
            || (problem == ZoneUnknown && cal.zone == None)
            || problem in WeekProblems(cal, 7)
            || problem in ExceptionProblems(cal.exceptions)
            || (problem == NoOpeningHours && !HasOpenTime(cal))
  {
    hide WeekProblems, ExceptionProblems, HasOpenTime;
  }

  lemma WeekListWrong(cal: Calendar, day: Weekday, problem: Problem)
    requires LabelOf(problem) == Some(DayLabel(day))
    ensures problem in WeekProblems(cal, 7) <==> SomeListWrong(cal, DayLabel(day), problem)
  {
    hide PeriodProblems, EndBefore, Wrong, NthWeekday;
    WeekProblemsFound(cal, 7, problem);
    var n := EveryWeekdayIsNth(day);
    forall k: nat | k < 7 && NthWeekday(k) in cal.hours
      ensures problem in PeriodProblems(cal.hours[NthWeekday(k)], DayLabel(NthWeekday(k)), -1) ==> NthWeekday(k) == day
    {
      OfPeriods(cal.hours[NthWeekday(k)], DayLabel(NthWeekday(k)), problem);
    }
    if day in cal.hours {
      PeriodProblemsFound(cal.hours[day], DayLabel(day), -1, problem);
    }
  }

  lemma ExceptionListWrong(cal: Calendar, date: string, problem: Problem)
    requires LabelOf(problem) == Some(ExceptionLabel(date))
    ensures problem in ExceptionProblems(cal.exceptions) <==> SomeListWrong(cal, ExceptionLabel(date), problem)
  {
    hide PeriodProblems, EndBefore, Wrong, IsDateShaped;
    ExceptionProblemsFound(cal.exceptions, problem);
    forall e | e in cal.exceptions && e.kind == Extended
      ensures problem in PeriodProblems(e.Hours(), ExceptionLabel(e.date), -1) ==> e.date == date
      ensures problem in PeriodProblems(e.Hours(), ExceptionLabel(e.date), -1) <==>
              exists i :: 0 <= i < |e.Hours()| && Wrong(e.Hours()[i], ExceptionLabel(e.date), EndBefore(e.Hours(), i, -1), problem)
    {
      OfPeriods(e.Hours(), ExceptionLabel(e.date), problem);
      PeriodProblemsFound(e.Hours(), ExceptionLabel(e.date), -1, problem);
    }
  }

  lemma OtherLabelsApart(cal: Calendar, problem: Problem)
    ensures problem in WeekProblems(cal, 7) ==> LabelOf(problem).Some? && LabelOf(problem).value.DayLabel?
    ensures problem in ExceptionProblems(cal.exceptions) ==>
              problem.ExceptionDateMalformed? || (LabelOf(problem).Some? && LabelOf(problem).value.ExceptionLabel?)
  {
    hide PeriodProblems, IsDateShaped, NthWeekday;
    WeekProblemsFound(cal, 7, problem);
    ExceptionProblemsFound(cal.exceptions, problem);
    forall periods, where | problem in PeriodProblems(periods, where, -1)
      ensures LabelOf(problem) == Some(where)
    {
      OfPeriods(periods, where, problem);
    }
  }

  /** Each problem is reported exactly where the calendar has it. */
  lemma EachProblemIsFound(cal: Calendar)
    ensures ZoneUnknown in Problems(cal) <==> cal.zone == None
    ensures forall where, problem | LabelOf(problem) == Some(where) :: problem in Problems(cal) <==> SomeListWrong(cal, where, problem)
    ensures forall date :: ExceptionDateMalformed(date) in Problems(cal) <==>
                           exists e :: e in cal.exceptions && e.date == date && !WrittenDate(date)
    ensures NoOpeningHours in Problems(cal) <==>
            && (forall day | day in cal.hours :: cal.hours[day] == [])
            && (forall e | e in cal.exceptions :: e.kind == Holiday || e.Hours() == [])
  {
    hide Problems, WeekProblems, ExceptionProblems, HasOpenTime, SomeListWrong, IsDateShaped, WrittenDate, PeriodProblems;
    forall problem
      ensures problem in Problems(cal) <==>
              || (problem == ZoneUnknown && cal.zone == None)
              || problem in WeekProblems(cal, 7)
              || problem in ExceptionProblems(cal.exceptions)
              || (problem == NoOpeningHours && !HasOpenTime(cal))
      ensures problem in WeekProblems(cal, 7) ==> LabelOf(problem).Some? && LabelOf(problem).value.DayLabel?
      ensures problem in ExceptionProblems(cal.exceptions) ==>
                problem.ExceptionDateMalformed? || (LabelOf(problem).Some? && LabelOf(problem).value.ExceptionLabel?)
    {
      InProblems(cal, problem);
      OtherLabelsApart(cal, problem);
    }
    forall where, problem | LabelOf(problem) == Some(where)
      ensures problem in Problems(cal) <==> SomeListWrong(cal, where, problem)
    {
      match where {
        case DayLabel(day) => WeekListWrong(cal, day, problem);
        case ExceptionLabel(date) => ExceptionListWrong(cal, date, problem);
      }
    }
    forall date
      ensures ExceptionDateMalformed(date) in ExceptionProblems(cal.exceptions) <==>
              exists e :: e in cal.exceptions && e.date == date && !WrittenDate(date)
    {
      MalformedDateFound(cal, date);
    }
    NothingWritten(cal);
  }

  lemma MalformedDateFound(cal: Calendar, date: string)
    ensures ExceptionDateMalformed(date) in ExceptionProblems(cal.exceptions) <==>
            exists e :: e in cal.exceptions && e.date == date && !WrittenDate(date)
  {
    hide PeriodProblems, IsDateShaped, WrittenDate;
    DateShapedIff(date);
    ExceptionProblemsFound(cal.exceptions, ExceptionDateMalformed(date));
    forall e | e in cal.exceptions
      ensures ExceptionDateMalformed(date) !in PeriodProblems(e.Hours(), ExceptionLabel(e.date), -1)
    {
      OfPeriods(e.Hours(), ExceptionLabel(e.date), ExceptionDateMalformed(date));
    }
  }

  lemma NothingWritten(cal: Calendar)
    ensures !HasOpenTime(cal) <==>
            && (forall day | day in cal.hours :: cal.hours[day] == [])
            && (forall e | e in cal.exceptions :: e.kind == Holiday || e.Hours() == [])
  {
  }

  /* ------------------------------------------------------------ refusals */

  /** Adding refuses a duration that is not finite or is negative, and then a zone nobody knows, and nothing else but time without end. */
  lemma AddingRefuses(cal: Calendar, x: Instant, duration: Duration)
    requires ValidCalendar(cal) || cal.zone == None
    ensures var r := Added(cal, x, duration);
            && (r == Failure(InvalidDuration) <==> duration == NotFinite || (duration.Finite? && duration.ms < 0))
            && (r == Failure(UnknownTimeZone) <==> duration.Finite? && duration.ms >= 0 && cal.zone == None)
            && (r.Failure? ==> r.error in {InvalidDuration, UnknownTimeZone, NoOpenTime})
  {
    if cal.zone.Some? && duration.Finite? && duration.ms >= 0 {
      var z := cal.zone.value;
      forall cursor
        ensures ScanDays(cal, z).day(cursor).Success?
      {
        DateConvertsAnyway(cal, z, LocalDay(z, cursor));
      }
      hide ScanDays, Stream, AddOver, ValidCalendar;
      AddScanIsAddOver(ScanDays(cal, z), x - DAY, MAX_DAYS_SCANNED, x, duration.ms);
    }
  }
}
