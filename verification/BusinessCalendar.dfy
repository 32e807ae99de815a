/**
 * Calendars, their validation, and the open intervals of one local date
 * (`packages/business-time/src/index.ts`).
 */
module BusinessCalendar {
  import opened Wrappers
  import opened Zones
  import opened Text

  datatype Weekday = Sun | Mon | Tue | Wed | Thu | Fri | Sat

  // Day 0, 1 January 1970, was a Thursday.
  function WeekdayOf(day: int): Weekday {
    NthWeekday((day + 4) % 7)
  }

  function NthWeekday(n: nat): Weekday {
    if n == 0 then Sun
    else if n == 1 then Mon
    else if n == 2 then Tue
    else if n == 3 then Wed
    else if n == 4 then Thu
    else if n == 5 then Fri
    else Sat
  }

  datatype OpenPeriod = OpenPeriod(start: string, end: string)

  datatype ExceptionType = Holiday | Extended

  datatype CalendarException = CalendarException(date: string, kind: ExceptionType, hours: Option<seq<OpenPeriod>>)
  {
    // `hours ?? []`
    function Hours(): seq<OpenPeriod> {
      match hours
      case None => []
      case Some(periods) => periods
    }
  }

  /**
   * `zone` is None when the runtime does not know the zone's name; `dateKey`
   * writes a local date as the `YYYY-MM-DD` text exceptions are matched by.
   */
  datatype Calendar = Calendar(
    zone: Option<Zone>,
    dateKey: int -> string,
    hours: map<Weekday, seq<OpenPeriod>>,
    exceptions: seq<CalendarException>)

  datatype Error =
    | UnknownTimeZone
    | InvalidTime(name: string, value: string)
    | InvalidDuration
    | NoOpenTime

  datatype Interval = Interval(start: Instant, end: Instant)

  /* ------------------------------------------------------------ times of day */

  datatype HourMinute = HourMinute(hour: nat, minute: nat) {
    function Minutes(): nat {
      hour * 60 + minute
    }
  }

  function DigitValue(c: char): (n: nat)
    requires IsDigit(c)
    ensures n < 10
  {
    c as int - '0' as int
  }

  // One or two digits, a colon, two digits.
  predicate ClockShaped(v: string) {
    || (|v| == 4 && IsDigit(v[0]) && v[1] == ':' && IsDigit(v[2]) && IsDigit(v[3]))
    || (|v| == 5 && IsDigit(v[0]) && IsDigit(v[1]) && v[2] == ':' && IsDigit(v[3]) && IsDigit(v[4]))
  }

  function TwoDigitValue(tens: char, units: char): (n: nat)
    requires IsDigit(tens) && IsDigit(units)
    ensures n < 100
  {
    DigitValue(tens) * 10 + DigitValue(units)
  }

  /** `parseHm`: at most 24:00, minutes under 60. */
  function ParseHm(value: string, name: string): (r: Result<HourMinute, Error>)
    ensures r.Success? ==> r.value.minute < 60 && (r.value.hour < 24 || r.value == HourMinute(24, 0))
    ensures r.Failure? ==> r.error == InvalidTime(name, value)
  {
    if !ClockShaped(value) then Failure(InvalidTime(name, value))
    else
      var n := |value|;
      var hour := if n == 4 then DigitValue(value[0]) else TwoDigitValue(value[0], value[1]);
      var minute := TwoDigitValue(value[n - 2], value[n - 1]);
      if hour > 24 || minute > 59 || (hour == 24 && minute != 0) then Failure(InvalidTime(name, value))
      else Success(HourMinute(hour, minute))
  }

  function Digit(n: nat): char
    requires n < 10
  {
    ('0' as int + n) as char
  }

  function TwoDigits(n: nat): string
    requires n < 100
  {
    [Digit(n / 10), Digit(n % 10)]
  }

  /** Every minute of the day, and 24:00, is read back from how it is written. */
  lemma ParseHmReadsClockFaces(time: HourMinute, name: string)
    requires time.minute < 60 && (time.hour < 24 || time == HourMinute(24, 0))
    ensures ParseHm(TwoDigits(time.hour) + ":" + TwoDigits(time.minute), name) == Success(time)
    ensures time.hour < 10 ==>
              ParseHm([Digit(time.hour)] + ":" + TwoDigits(time.minute), name) == Success(time)
  {
    var s := TwoDigits(time.hour) + ":" + TwoDigits(time.minute);
    assert s == [Digit(time.hour / 10), Digit(time.hour % 10), ':', Digit(time.minute / 10), Digit(time.minute % 10)];
    if time.hour < 10 {
      var short := [Digit(time.hour)] + ":" + TwoDigits(time.minute);
      assert short == [Digit(time.hour), ':', Digit(time.minute / 10), Digit(time.minute % 10)];
    }
  }

  /* ------------------------------------------------------------ validation */

  datatype Label = DayLabel(day: Weekday) | ExceptionLabel(date: string)

  datatype Problem =
    | ZoneUnknown
    | TimeInvalid(where: Label, error: Error)
    | EndsBeforeItStarts(where: Label, period: OpenPeriod)
    | OverlapsPrevious(where: Label, period: OpenPeriod)
    | ExceptionDateMalformed(date: string)
    | NoOpeningHours

  // The start and end of a period in minutes, or the first parse error.
  function Span(p: OpenPeriod): (r: Result<(nat, nat), Error>)
    ensures r.Success? ==> r.value.0 <= 24 * 60 && r.value.1 <= 24 * 60
  {
    match ParseHm(p.start, "start")
    case Failure(e) => Failure(e)
    case Success(from) =>
      match ParseHm(p.end, "end")
      case Failure(e) => Failure(e)
      case Success(to) => Success((from.Minutes(), to.Minutes()))
  }

  // What one period adds to the problems, and the end the next one is held against.
  function PeriodCheck(p: OpenPeriod, where: Label, previousEnd: int): (seq<Problem>, int) {
    match Span(p)
    case Failure(e) => ([TimeInvalid(where, e)], previousEnd)
    case Success((start, end)) =>
      ((if end <= start then [EndsBeforeItStarts(where, p)] else []) +
       (if start < previousEnd then [OverlapsPrevious(where, p)] else []), end)
  }

  // The problems `checkPeriods` reports for a list, in order.
  function PeriodProblems(periods: seq<OpenPeriod>, where: Label, previousEnd: int): seq<Problem> {
    if periods == [] then []
    else
      var (found, end) := PeriodCheck(periods[0], where, previousEnd);
      found + PeriodProblems(periods[1..], where, end)
  }

  method CheckPeriod(p: OpenPeriod, where: Label, previousEnd: int) returns (found: seq<Problem>, end: int)
    ensures (found, end) == PeriodCheck(p, where, previousEnd)
  {
    found, end := [], previousEnd;
    var from := ParseHm(p.start, "start");
    if from.Failure? {
      return [TimeInvalid(where, from.error)], previousEnd;
    }
    var to := ParseHm(p.end, "end");
    if to.Failure? {
      return [TimeInvalid(where, to.error)], previousEnd;
    }
    var startM := from.value.hour * 60 + from.value.minute;
    var endM := to.value.hour * 60 + to.value.minute;
    if endM <= startM {
      found := [EndsBeforeItStarts(where, p)];
    }
    if startM < previousEnd {
      found := found + [OverlapsPrevious(where, p)];
    }
    end := endM;
    assert found == (if endM <= startM then [EndsBeforeItStarts(where, p)] else []) +
                    (if startM < previousEnd then [OverlapsPrevious(where, p)] else []);
  }

  method CheckPeriods(periods: seq<OpenPeriod>, where: Label, problems: seq<Problem>) returns (all: seq<Problem>)
    ensures all == problems + PeriodProblems(periods, where, -1)
  {
    all := problems;
    var previousEnd := -1;
    assert periods[0..] == periods;
    for i := 0 to |periods|
      invariant all + PeriodProblems(periods[i..], where, previousEnd) == problems + PeriodProblems(periods, where, -1)
    {
      var found, end := CheckPeriod(periods[i], where, previousEnd);
      assert periods[i..][1..] == periods[i + 1..];
      assert all + (found + PeriodProblems(periods[i + 1..], where, end)) == (all + found) + PeriodProblems(periods[i + 1..], where, end);
      all, previousEnd := all + found, end;
    }
  }

  predicate IsDateShaped(date: string) {
    && |date| == 10
    && date[4] == '-' && date[7] == '-'
    && (forall i | 0 <= i < 10 && i != 4 && i != 7 :: IsDigit(date[i]))
  }

  function WeekProblems(cal: Calendar, n: nat): seq<Problem> {
    if n == 0 then []
    else
      var day := NthWeekday(n - 1);
      WeekProblems(cal, n - 1) +
      (if day in cal.hours then PeriodProblems(cal.hours[day], DayLabel(day), -1) else [])
  }

  function ExceptionProblems(exceptions: seq<CalendarException>): seq<Problem> {
    if exceptions == [] then []
    else
      var e := exceptions[|exceptions| - 1];
      ExceptionProblems(exceptions[..|exceptions| - 1]) +
      (if IsDateShaped(e.date) then [] else [ExceptionDateMalformed(e.date)]) +
      (if e.kind == Extended then PeriodProblems(e.Hours(), ExceptionLabel(e.date), -1) else [])
  }

  predicate HasOpenTime(cal: Calendar) {
    || (exists day | day in cal.hours :: |cal.hours[day]| > 0)
    || (exists e | e in cal.exceptions :: e.kind == Extended && |e.Hours()| > 0)
  }

  function Problems(cal: Calendar): seq<Problem> {
    (if cal.zone == None then [ZoneUnknown] else []) +
    WeekProblems(cal, 7) +
    ExceptionProblems(cal.exceptions) +
    (if HasOpenTime(cal) then [] else [NoOpeningHours])
  }

  method CheckWeek(cal: Calendar, problems: seq<Problem>) returns (all: seq<Problem>)
    ensures all == problems + WeekProblems(cal, 7)
  {
    hide PeriodProblems, NthWeekday;
    all := problems;
    for n := 0 to 7
      invariant all == problems + WeekProblems(cal, n)
    {
      var day := NthWeekday(n);
      ghost var before := WeekProblems(cal, n);
      ghost var found := if day in cal.hours then PeriodProblems(cal.hours[day], DayLabel(day), -1) else [];
      assert WeekProblems(cal, n + 1) == before + found;
      assert problems + before + found == problems + (before + found);
      if day in cal.hours {
        all := CheckPeriods(cal.hours[day], DayLabel(day), all);
      }
    }
  }

  method CheckExceptions(exceptions: seq<CalendarException>, problems: seq<Problem>) returns (all: seq<Problem>)
    ensures all == problems + ExceptionProblems(exceptions)
  {
    hide PeriodProblems, IsDateShaped;
    all := problems;
    for i := 0 to |exceptions|
      invariant all == problems + ExceptionProblems(exceptions[..i])
    {
      var e := exceptions[i];
      assert exceptions[..i + 1][..i] == exceptions[..i];
      if !IsDateShaped(e.date) {
        all := all + [ExceptionDateMalformed(e.date)];
      }
      if e.kind == Extended {
        all := CheckPeriods(e.Hours(), ExceptionLabel(e.date), all);
      }
    }
    assert exceptions[..|exceptions|] == exceptions;
  }

  /** `validateCalendar`: nothing is reported exactly when the calendar is valid. */
  method ValidateCalendar(cal: Calendar) returns (problems: seq<Problem>)
    ensures problems == Problems(cal)
    ensures problems == [] <==> ValidCalendar(cal)
  {
    problems := if cal.zone == None then [ZoneUnknown] else [];
    problems := CheckWeek(cal, problems);
    problems := CheckExceptions(cal.exceptions, problems);
    if !HasOpenTime(cal) {
      problems := problems + [NoOpeningHours];
    }
    NoProblemsIffValid(cal);
  }

  /* What validation is for, stated without the loop that checks it. */

  // Every period ends after it starts, and no two periods overlap.
  ghost predicate Sound(periods: seq<OpenPeriod>) {
    && (forall i | 0 <= i < |periods| :: Span(periods[i]).Success? && Span(periods[i]).value.0 < Span(periods[i]).value.1)
    && (forall i, j | 0 <= i < j < |periods| :: Span(periods[i]).value.1 <= Span(periods[j]).value.0)
  }

  ghost predicate ValidCalendar(cal: Calendar) {
    && cal.zone.Some?
    && (forall day | day in cal.hours :: Sound(cal.hours[day]))
    && (forall e | e in cal.exceptions :: IsDateShaped(e.date) && (e.kind == Extended ==> Sound(e.Hours())))
    && HasOpenTime(cal)
  }

  // Soundness one period at a time: in a sound list only the next start matters.
  lemma SoundFromFirst(periods: seq<OpenPeriod>)
    requires periods != []
    ensures Sound(periods) <==>
            && Span(periods[0]).Success? && Span(periods[0]).value.0 < Span(periods[0]).value.1
            && Sound(periods[1..])
            && (|periods| > 1 ==> Span(periods[0]).value.1 <= Span(periods[1]).value.0)
  {
    var rest := periods[1..];
    assert forall i | 0 <= i < |rest| :: rest[i] == periods[i + 1];
    if Sound(periods) {
      forall i, j | 0 <= i < j < |rest|
        ensures Span(rest[i]).value.1 <= Span(rest[j]).value.0
      {
        assert Span(periods[i + 1]).value.1 <= Span(periods[j + 1]).value.0;
      }
    } else if Span(periods[0]).Success? && Sound(rest) && rest != [] {
      if j :| 1 <= j < |periods| && Span(periods[0]).value.1 > Span(periods[j]).value.0 {
        assert Span(rest[0]).value.0 <= Span(rest[j - 1]).value.0;
      }
    }
  }

  lemma {:induction false} NoPeriodProblemsIffSound(periods: seq<OpenPeriod>, where: Label, previousEnd: int)
    ensures PeriodProblems(periods, where, previousEnd) == [] <==>
            Sound(periods) && (periods == [] || previousEnd <= Span(periods[0]).value.0)
  {
    if periods != [] {
      SoundFromFirst(periods);
      var (found, end) := PeriodCheck(periods[0], where, previousEnd);
      NoPeriodProblemsIffSound(periods[1..], where, end);
    }
  }

  lemma NoProblemsIffValid(cal: Calendar)
    ensures Problems(cal) == [] <==> ValidCalendar(cal)
  {
    NoWeekProblems(cal, 7);
    NoExceptionProblems(cal.exceptions);
    forall day: Weekday {:trigger cal.hours[day]}
      ensures exists k: nat :: k < 7 && NthWeekday(k) == day
    {
      var k := match day case Sun => 0 case Mon => 1 case Tue => 2 case Wed => 3 case Thu => 4 case Fri => 5 case Sat => 6;
      assert NthWeekday(k) == day;
    }
  }

  lemma {:induction false} NoWeekProblems(cal: Calendar, n: nat)
    ensures WeekProblems(cal, n) == [] <==> forall k: nat | k < n && NthWeekday(k) in cal.hours :: Sound(cal.hours[NthWeekday(k)])
  {
    hide PeriodProblems, Span;
    if n > 0 {
      var day := NthWeekday(n - 1);
      NoWeekProblems(cal, n - 1);
      if day in cal.hours {
        NoPeriodProblemsIffSound(cal.hours[day], DayLabel(day), -1);
      }
    }
  }

  lemma {:induction false} NoExceptionProblems(exceptions: seq<CalendarException>)
    ensures ExceptionProblems(exceptions) == [] <==>
            forall e | e in exceptions :: IsDateShaped(e.date) && (e.kind == Extended ==> Sound(e.Hours()))
  {
    if exceptions != [] {
      var n := |exceptions| - 1;
      var last := exceptions[n];
      NoExceptionProblems(exceptions[..n]);
      assert forall e :: e in exceptions <==> e in exceptions[..n] || e == last by {
        assert exceptions == exceptions[..n] + [last];
      }
      NoPeriodProblemsIffSound(last.Hours(), ExceptionLabel(last.date), -1);
    }
  }

  /* ------------------------------------------------------------ the intervals of one local date */

  // The first exception for a date, if any: `find`.
  function ExceptionFor(exceptions: seq<CalendarException>, key: string): (r: Option<CalendarException>)
    ensures r.Some? ==> r.value in exceptions && r.value.date == key
    ensures r == None ==> forall e | e in exceptions :: e.date != key
  {
    if exceptions == [] then None
    else if exceptions[0].date == key then Some(exceptions[0])
    else ExceptionFor(exceptions[1..], key)
  }

  /** `periodsFor`: an exception replaces the weekday's hours, and a holiday has none. */
  function PeriodsFor(cal: Calendar, day: int): seq<OpenPeriod> {
    match ExceptionFor(cal.exceptions, cal.dateKey(day))
    case Some(e) => if e.kind == Holiday then [] else e.Hours()
    case None =>
      var weekday := WeekdayOf(day);
      if weekday in cal.hours then cal.hours[weekday] else []
  }

  lemma PeriodsAreSound(cal: Calendar, day: int)
    requires ValidCalendar(cal)
    ensures Sound(PeriodsFor(cal, day))
  {
  }

  // The naive instant of a time on a date.
  function WallOf(day: int, time: HourMinute): Wall {
    day * DAY + time.hour * HOUR + time.minute * MINUTE
  }

  // One period of a date, converted; 24:00 is midnight of the next date.
  function PeriodInterval(z: Zone, day: int, p: OpenPeriod): Result<Interval, Error> {
    match ParseHm(p.start, "start")
    case Failure(e) => Failure(e)
    case Success(from) =>
      match ParseHm(p.end, "end")
      case Failure(e) => Failure(e)
      case Success(to) =>
        var start := WallToUtc(z, WallOf(day, from));
        var end := if to.hour == 24 then WallToUtc(z, WallOf(day + 1, HourMinute(0, 0))) else WallToUtc(z, WallOf(day, to));
        Success(Interval(start, end))
  }

  // Every period in order, dropping those that are empty once converted; the first malformed one fails.
  function Converted(z: Zone, day: int, periods: seq<OpenPeriod>): Result<seq<Interval>, Error> {
    if periods == [] then Success([])
    else
      match Converted(z, day, periods[..|periods| - 1])
      case Failure(e) => Failure(e)
      case Success(before) =>
        match PeriodInterval(z, day, periods[|periods| - 1])
        case Failure(e) => Failure(e)
        case Success(interval) => Success(if interval.end > interval.start then before + [interval] else before)
  }

  /* `Array.prototype.sort` by start: stable, so equal starts keep their order. */

  function InsertByStart(sorted: seq<Interval>, x: Interval): seq<Interval> {
    var n := |sorted| - 1;
    if n < 0 || sorted[n].start <= x.start then sorted + [x]
    else InsertByStart(sorted[..n], x) + [sorted[n]]
  }

  function SortByStart(s: seq<Interval>): seq<Interval> {
    if s == [] then [] else InsertByStart(SortByStart(s[..|s| - 1]), s[|s| - 1])
  }

  ghost predicate StartsAscend(s: seq<Interval>) {
    forall i, j | 0 <= i < j < |s| :: s[i].start <= s[j].start
  }

  lemma {:induction false} InsertKeepsOrder(sorted: seq<Interval>, x: Interval, bound: Instant)
    requires StartsAscend(sorted)
    requires x.start <= bound && forall i | 0 <= i < |sorted| :: sorted[i].start <= bound
    ensures StartsAscend(InsertByStart(sorted, x))
    ensures forall i | 0 <= i < |InsertByStart(sorted, x)| :: InsertByStart(sorted, x)[i].start <= bound
  {
    var n := |sorted| - 1;
    if n >= 0 && sorted[n].start > x.start {
      InsertKeepsOrder(sorted[..n], x, sorted[n].start);
    }
  }

  lemma {:induction false} InsertKeepsElements(sorted: seq<Interval>, x: Interval)
    ensures multiset(InsertByStart(sorted, x)) == multiset(sorted) + multiset{x}
  {
    var n := |sorted| - 1;
    if n >= 0 && sorted[n].start > x.start {
      InsertKeepsElements(sorted[..n], x);
      assert sorted == sorted[..n] + [sorted[n]];
    }
  }

  lemma {:induction false} SortKeepsElements(s: seq<Interval>)
    ensures multiset(SortByStart(s)) == multiset(s)
  {
    hide InsertByStart;
    if s != [] {
      var front, last := s[..|s| - 1], s[|s| - 1];
      SortKeepsElements(front);
      InsertKeepsElements(SortByStart(front), last);
      assert s == front + [last];
    }
  }

  /** Sorting gives the same intervals, in order of their starts. */
  lemma {:induction false} SortOrders(s: seq<Interval>, bound: Instant)
    requires forall i | 0 <= i < |s| :: s[i].start <= bound
    ensures StartsAscend(SortByStart(s))
    ensures multiset(SortByStart(s)) == multiset(s)
    ensures forall i | 0 <= i < |SortByStart(s)| :: SortByStart(s)[i].start <= bound
  {
    SortKeepsElements(s);
    if s != [] {
      var n := |s| - 1;
      SortOrders(s[..n], bound);
      InsertKeepsOrder(SortByStart(s[..n]), s[n], bound);
    }
  }

  /** Sorting leaves an ordered list exactly as it was. */
  lemma {:induction false} SortKeepsOrdered(s: seq<Interval>)
    requires StartsAscend(s)
    ensures SortByStart(s) == s
  {
    if s != [] {
      SortKeepsOrdered(s[..|s| - 1]);
    }
  }

  // What `dayIntervals` answers.
  function OpenIntervals(cal: Calendar, z: Zone, day: int): Result<seq<Interval>, Error> {
    match Converted(z, day, PeriodsFor(cal, day))
    case Failure(e) => Failure(e)
    case Success(intervals) => Success(SortByStart(intervals))
  }

  method DayIntervals(cal: Calendar, z: Zone, day: int) returns (r: Result<seq<Interval>, Error>)
    ensures r == OpenIntervals(cal, z, day)
  {
    var periods := PeriodsFor(cal, day);
    var out: seq<Interval> := [];
    for i := 0 to |periods|
      invariant Converted(z, day, periods[..i]) == Success(out)
    {
      ghost var seen := periods[..i + 1];
      assert seen[..|seen| - 1] == periods[..i];
      ConvertedFailsEarly(z, day, periods, i + 1);
      var from := ParseHm(periods[i].start, "start");
      if from.Failure? {
        return Failure(from.error);
      }
      var to := ParseHm(periods[i].end, "end");
      if to.Failure? {
        return Failure(to.error);
      }
      var start := WallToUtc(z, WallOf(day, from.value));
      var end;
      if to.value.hour == 24 {
        end := WallToUtc(z, WallOf(day + 1, HourMinute(0, 0)));
      } else {
        end := WallToUtc(z, WallOf(day, to.value));
      }
      if end > start {
        out := out + [Interval(start, end)];
      }
    }
    assert periods[..|periods|] == periods;
    return Success(SortByStart(out));
  }

  // A malformed period fails the whole date, whatever follows it.
  lemma {:induction false} ConvertedFailsEarly(z: Zone, day: int, periods: seq<OpenPeriod>, n: nat)
    requires n <= |periods|
    ensures Converted(z, day, periods[..n]).Failure? ==> Converted(z, day, periods) == Converted(z, day, periods[..n])
    decreases |periods|
  {
    if n == |periods| {
      assert periods[..n] == periods;
    } else {
      ConvertedFailsEarly(z, day, periods[..|periods| - 1], n);
      assert periods[..|periods| - 1][..n] == periods[..n];
    }
  }
}
