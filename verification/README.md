# Verification of the platform's core logic

Dafny models of five parts of the platform, with proofs of what each promises:
working time over a calendar and time zone; the expression language, its
authoring-time checker and the rule editor that compiles to it; the audit hash
chain; signing in and its cookies; and three small pieces (the unsafe-link
walker, scoped permissions, UUIDv7 identifiers).

`dafny verify dfyconfig.toml` checks everything.

## How the source is modelled

Loops, and objects that update their fields, are methods and classes, each tied
by its contract to a specification function; the laws are lemmas about those
functions. What such a function says is in turn stated without it, by value:
`OperatorMeaning`, `CalendarMeaning`, `HashMaterial`, `SignInAnswers` and
`PageMeaning` hold those readings of the source's tables and conditions. Protocols
are state machines whose runs are sequences of steps.

| Area | Modules |
|---|---|
| Time zones and working time | `Zones`, `BusinessCalendar`, `OpenTime`, `Horizon`, `Timetable`, `BusinessTime`, `CalendarLaws`, `BusinessLaws`, `ScanBound`, `ClockChanges`, `HiddenHours`, `MissedDates`, `MeasuredTime`, `OrderOfDates`, `OrderedTime`, `CalendarMeaning`, and the concrete `EveryDay`, `TwoPeriods`, `LondonSpring`, `SantiagoSpring`, `TwentyFourSeven` |
| The demo's reset clock | `ResetClock` |
| Expressions | `Values`, `Expr`, `OperatorMeaning`, `ExprLaws`, `DepthLimit`, `ExprCheck`, `ExprAgreement`, `ExprFootprint`, `UnlistedNow`, `RuleRows`, `RuleMeaning`, `WholeNumbers` |
| Audit chain | `Canonical`, `CanonicalUnique`, `JsonReading`, `AuditChain`, `HashMaterial`, `AuditProtocol`, `AuditForks` |
| Signing in | `SessionStore`, `SignIn`, `SignInAnswers`, `SignInRuns`, `Cookies`, `PageMeaning`, `Percent` |
| Small pieces | `Links`, `Authz`, `Ids`, and the shared `Text` and `Wrappers` |

A time zone is a function from instants to offsets, in milliseconds; a local
date is a day number. What the platform takes from elsewhere is a parameter:
`Date.parse`, `toISOString`, `toLowerCase`, `String(number)`, `Number(text)`,
regular expressions, SHA-256 and the key order of `localeCompare`. Where a law
needs one of them to behave, the law says so (for the audit chain: hashes and
ISO texts are injective, keys are totally ordered; for the rule editor: a number
that some text denotes is written as a text of its own, which reads back). Both
laws can be met (`AuditChain.SomePrimitivesAreIdeal`, `WholeNumbers.SomeEditorReadsBack`).

`CalendarLaws.Dependable` is the premise of the working-time laws: the calendar
validates, the zone's offset changes by under twelve hours and at most once in
any four days, local dates never go back, and each date's periods, once
converted, are still in order and within the date. A period boundary that a clock
change skips may break the last of these, and nothing else can
(`CalendarLaws.ExistingIsDependable`); every valid calendar in a zone with a fixed
offset meets them all (`CalendarLaws.FixedOffsetIsDependable`). `ClockChanges`,
`MeasuredTime`, `OrderOfDates`, `HiddenHours` and `MissedDates` say exactly what
happens without them, and `OrderedTime` what adding still means.

## What the proofs found

- The comment at `wallToUtc` holds only where the reading, taken as UTC, is not
  before the clock change: in zones west of UTC a skipped time resolves
  backwards, and a repeated one to its first occurrence
  (`Zones.DocumentedChoice`, `Zones.NewYorkGapShiftsBackwards`).
- `elapsedBusinessMs` measures what a calendar's hours cover, over every range it
  can measure, exactly where the intervals of all dates are in order once
  converted (`MeasuredTime.MeasuresExactlyIff`). Otherwise it counts milliseconds
  twice where two overlap, or misses an interval that comes before one of an
  earlier date. Said of the hours as they are written: around every clock change,
  no two periods of a date may clash (`ClockChanges.PeriodsOverlapIffClash`,
  `ClockChanges.DateMeasuresIffNoClash`) and none may cross one of the next date
  (`OrderOfDates.InOrderIff`, `OrderOfDates.WeeklyHoursMeasureExactlyIff`). Both
  fail in practice: in London it measures two and three quarter hours in two
  (`LondonSpring.NightHoursCountTwice`), and in Santiago nothing of an open half
  hour (`SantiagoSpring.SkippedHalfHourIsMissed`).
- `isOpen` can answer closed inside an interval of the calendar. Around the clock
  it does so exactly where the next midnight is repeated, or is skipped and
  resolves backwards, west of UTC, or where the last one is skipped and resolves
  forwards (`HiddenHours.NeverClosedLooksClosedIff`); Newfoundland and Santiago
  are instances. Over all calendars it is to be trusted exactly where no minute
  of a date it does not look at converts to the wrong side of the instant
  (`MissedDates.IsOpenIsTrustedIff`).
- The comment at `recordAudit` says its lock is held only for the insert. The
  code takes a transaction lock, which lasts to the commit, and it has to: a lock
  released after the insert lets the chain fork (`AuditForks.ReleasedEarlyChainsFork`).
  Nor does that lock keep apart two calls of one transaction: every run verifies
  exactly where locks are held to the end and no transaction has two calls for one
  tenant under way (`AuditForks.AllRunsVerifyIff`).
- Server and browser disagree on a date under equality and membership exactly
  where one side finds it equal and the other does not
  (`ExprAgreement.DateEqualityAgreesIff` and the two lemmas on lists), on ordering
  it against text as `ExprAgreement.DateAgainstText` says, and under an operator on
  text wherever the ISO text has the prefix, suffix, part or pattern sought, or the
  pattern is refused (`ExprAgreement.TextOperatorAgreesIff`).
- `withinLast` reads `now`, which `referencedVars` does not list. The outcome
  depends on it, the listed paths being equal, exactly where the duration is one,
  and the operand is a time that can fall within it or a path that does not lead
  through `now` (`UnlistedNow.NowMattersIff`).
- The order of strings is transitive on a set of them exactly where times follow
  texts across whatever lies between (`Expr.TextOrderTransitiveIff`), and not in
  general (`Expr.SomeTextsCycle`).
- Saving a drawn clause changes its meaning exactly where it names no path or its
  literal is not kept, which depends on the operator: `"5"` is kept under `eq`
  and lost under `gt`, `"true"` and null are lost under both
  (`RuleMeaning.ClauseKeepsMeaningIff`).
- `lastPathCookie` writes a cookie for the empty page that `resumeTarget` never
  reads back (`Cookies.LastPathRoundTrip`).

## Model

| member | source | states |
|---|---|---|
| Zones.OffsetIsExact | packages/business-time/src/index.ts:115-119 | cutting the instant to its second makes the measured offset the zone's own, for offsets of whole seconds |
| Zones.WallToUtcReadsClocks | packages/business-time/src/index.ts:128-142 | the two-pass conversion, as the formatter's clocks show it, is the one modelled on offsets |
| Zones.WallToUtcSolved | packages/business-time/src/index.ts:128-142 | what the conversion answers for every reading at most one change away: before it, after it, in the gap, in the overlap |
| Zones.ReadsBackIffExists | packages/business-time/src/index.ts:121-142 | a reading converts to an instant that reads it back if and only if some instant does, that is, unless a change skips it |
| Zones.DocumentedChoice | packages/business-time/src/index.ts:121-142 | a gap shifts forward and an overlap takes the later instant if and only if the reading, taken as UTC, is not before the change |
| Zones.NewYorkGapShiftsBackwards | packages/business-time/src/index.ts:121-142 | New York's skipped 02:30 converts to 01:30, against the comment |
| Zones.ExistingWallsAscend | packages/business-time/src/index.ts:128-142 | readings that exist convert in order |
| Zones.ConvertedLandsNear | packages/business-time/src/index.ts:128-142 | every reading, existing or not, converts to within twelve hours of itself |
| Zones.ConvertedConvertsBack | packages/business-time/src/index.ts:128-142 | what a reading converts to is what its own reading converts to |
| BusinessCalendar.ParseHmReadsClockFaces | packages/business-time/src/index.ts:144-153 | every minute of the day, and 24:00, is read back from how it is written, with one hour digit or two |
| BusinessCalendar.ValidateCalendar | packages/business-time/src/index.ts:252-290 | the loop reports exactly the problems listed, and none if and only if the calendar is valid |
| BusinessCalendar.NoProblemsIffValid | packages/business-time/src/index.ts:252-290 | no problem is found exactly when the zone is known, dates are well formed, every day's periods end after they start and no two overlap, and there is some open time |
| BusinessCalendar.PeriodsAreSound | packages/business-time/src/index.ts:160-169 | whatever exceptions apply, each date of a valid calendar has sound periods |
| BusinessCalendar.SortOrders | packages/business-time/src/index.ts:171-185 | sorting a date's intervals gives the same intervals in order of start |
| BusinessCalendar.DayIntervals | packages/business-time/src/index.ts:171-185 | the loop converts, drops and sorts a date's periods as specified, or fails at the first malformed one |
| CalendarMeaning.WeekdaysFollow | packages/business-time/src/index.ts:44-112 | 1 January 1970 was a Thursday, and each date's weekday follows the last one's |
| CalendarMeaning.ExceptionsDecide | packages/business-time/src/index.ts:159-169 | the first exception with a date's key decides its periods, none for a holiday and its own for extended hours; without one the weekday's apply |
| CalendarMeaning.HolidaysAreClosed | packages/business-time/src/index.ts:159-169 | a date whose first exception is a holiday has no open interval, whatever its weekday's hours |
| CalendarMeaning.IsOpenMeans | packages/business-time/src/index.ts:159-245 | for every valid calendar, zone and instant, `isOpen` holds if and only if a period written, under those rules, for the local date or that of 24 hours earlier holds the instant once converted |
| CalendarMeaning.IsOpenReadsTheClock | packages/business-time/src/index.ts:159-245 | where clocks never change, `isOpen` holds if and only if the local clock reads a time within a period written for its date |
| CalendarMeaning.ParseHmReadsOnlyClockFaces | packages/business-time/src/index.ts:144-153 | a time of day is read from nothing but a clock face, with one hour digit or two |
| CalendarMeaning.EachProblemIsFound | packages/business-time/src/index.ts:252-290 | each problem is reported if and only if the calendar has it: an unknown zone, a period of some list that cannot be read, ends too soon or starts before the last readable one ended, a date not written `dddd-dd-dd`, no hours at all |
| CalendarMeaning.AddingRefuses | packages/business-time/src/index.ts:203-221 | adding refuses a duration if and only if it is not finite or negative, then an unknown zone, and otherwise fails only for want of open time |
| BusinessTime.AddBusinessMs | packages/business-time/src/index.ts:203-221 | the adding loop answers what the specification does, errors included |
| BusinessTime.AddOverScan | packages/business-time/src/index.ts:203-221 | for any scan of dates, the loop is the specification of adding within 3650 of them |
| BusinessTime.ElapsedBusinessMs | packages/business-time/src/index.ts:223-235 | the measuring loop answers what the specification does |
| BusinessTime.TallyOverScan | packages/business-time/src/index.ts:223-235 | for any scan of dates, the loop tallies clipped lengths until an interval starts at or after the end |
| OpenTime.TotalCounts | packages/business-time/src/index.ts:223-235 | for disjoint intervals, the sum of clipped lengths is the number of milliseconds covered |
| OpenTime.SummingIsCountingIffDisjoint | packages/business-time/src/index.ts:223-235 | summing measures covered time on every range if and only if no two intervals share an instant |
| OpenTime.TallyIsTotal | packages/business-time/src/index.ts:226-233 | for any ascending stream, stopping at the first interval at or after the end loses nothing, and it stops exactly if there is one |
| OpenTime.AddPlaces | packages/business-time/src/index.ts:207-219 | for any ascending stream, a positive duration ends where exactly that much covered time has passed, just after a covered millisecond |
| OpenTime.AddNothing | packages/business-time/src/index.ts:207-219 | for any ascending stream, adding nothing finds the first covered instant |
| Horizon.MeasuringCounts | packages/business-time/src/index.ts:223-235 | through any horizon that shows what is open, measuring needs an interval at or after the end and then counts open milliseconds |
| Horizon.AddingNeedsRoom | packages/business-time/src/index.ts:203-221 | adding d succeeds exactly when the horizon holds d open milliseconds |
| Horizon.AddingIsLeast | packages/business-time/src/index.ts:203-221 | through any such horizon, adding finds the least instant by which d milliseconds have been open |
| Horizon.AddingComposes | packages/business-time/src/index.ts:203-221 | adding m and then n through a horizon that keeps the first one's intervals is adding m + n |
| Timetable.DatesThatFitAreInOrder | packages/business-time/src/index.ts:187-201 | in a zone with small changes, dates that keep to themselves are in order, one after another |
| Timetable.StreamAscends | packages/business-time/src/index.ts:187-201 | in a zone with small changes, dates that keep to themselves make an ascending, disjoint stream |
| Timetable.TwoDatesDecide | packages/business-time/src/index.ts:237-245 | whether an instant is open on any date is decided by its local date and that of 24 hours earlier |
| Timetable.ScanSees | packages/business-time/src/index.ts:187-201 | a scan begun a day early sees, from its start on, everything open until it stops |
| Timetable.LaterScanKeeps | packages/business-time/src/index.ts:187-201 | a later scan still sees every interval that has not ended |
| CalendarLaws.AddScanIsAddOver | packages/business-time/src/index.ts:203-221 | adding date by date is adding over the concatenated stream |
| CalendarLaws.VisitsEachDateInOrder | packages/business-time/src/index.ts:187-201 | the cursor visits every local date from its start exactly once, in order |
| CalendarLaws.ScanYieldsDates | packages/business-time/src/index.ts:187-201 | what the scan yields is the intervals of consecutive dates |
| CalendarLaws.ExistingBoundariesKeepOrder | packages/business-time/src/index.ts:171-185 | periods whose boundaries exist in local time stay in order and within their date once converted |
| CalendarLaws.ExistingIsDependable | packages/business-time/src/index.ts:252-290 | a valid calendar none of whose boundaries is skipped meets the premise of the laws |
| CalendarLaws.FixedOffsetIsDependable | packages/business-time/src/index.ts:252-290 | so does every valid calendar in a zone with a fixed offset |
| CalendarLaws.DateConverts | packages/business-time/src/index.ts:171-185 | each period of a date becomes its own converted interval, inside the date, in order and disjoint |
| BusinessLaws.IsOpenIsOpenOnSomeDate | packages/business-time/src/index.ts:237-245 | `isOpen` always answers, and its answer from two dates holds for every date |
| BusinessLaws.ScanSeesIsOpen | packages/business-time/src/index.ts:187-201 | from its start on, a scan shows exactly what `isOpen` says, until it stops |
| BusinessLaws.ElapsedCountsOpenMs | packages/business-time/src/index.ts:223-244 | measured time is the number of milliseconds at which `isOpen` holds, and measuring fails exactly if nothing opens at or after the end within the scan |
| BusinessLaws.ElapsedIsAdditive | packages/business-time/src/index.ts:223-235 | a range that can be measured can be measured in parts, and the parts add up |
| BusinessLaws.AddedIsLeast | packages/business-time/src/index.ts:203-221 | adding d > 0 gives the least instant by which `isOpen` has held for d milliseconds |
| BusinessLaws.ElapsedUndoesAdded | packages/business-time/src/index.ts:203-235 | measuring up to where d was added gives d |
| BusinessLaws.AddedComposes | packages/business-time/src/index.ts:203-221 | adding m and then n > 0 is adding m + n |
| BusinessLaws.NextOpeningIsLeast | packages/business-time/src/index.ts:237-250 | the next opening is the least open instant from x on, x itself exactly if x is open; it fails only if nothing opens before the scan ends |
| ScanBound.ScanHolds521Weeks | packages/business-time/src/index.ts:46-47 | without exceptions and with a fixed offset, 3650 days hold 521 weeks of opening time |
| ScanBound.AddingReaches521Weeks | packages/business-time/src/index.ts:203-221 | so adding succeeds for every duration up to 521 weeks' opening time |
| ClockChanges.ConversionSwapsIff | packages/business-time/src/index.ts:128-142 | two readings in order convert out of order if and only if one is skipped and the change pulls it past the other; and onto it likewise |
| ClockChanges.PeriodsOverlapIffClash | packages/business-time/src/index.ts:171-185 | two periods, of one date or two, share an instant once converted if and only if neither comes out empty or beyond the other and their facing boundaries swap |
| ClockChanges.DateMeasuresIffNoClash | packages/business-time/src/index.ts:171-235 | for every valid calendar and date, the intervals measure exactly the time they cover, over every range, if and only if no two periods of the date clash |
| MeasuredTime.MeasuresExactlyIff | packages/business-time/src/index.ts:187-235 | for every valid calendar that keeps opening, in a zone with small changes, every range that can be measured is measured as the milliseconds its dates' intervals cover, if and only if the intervals of all dates are in order |
| OrderOfDates.InOrderIff | packages/business-time/src/index.ts:171-201 | for every valid calendar in a zone with small changes, the intervals of all dates are in order if and only if, around every change, no two written periods of a date clash and none, neither coming out empty, ends past the beginning of one of the next date |
| OrderOfDates.MeasuresExactlyIffHoursKeepOrder | packages/business-time/src/index.ts:171-235 | so, where the calendar keeps opening, that condition on the written hours is when every range that can be measured is measured exactly |
| OrderOfDates.WeeklyHoursKeepOpening | packages/business-time/src/index.ts:160-201 | every valid calendar of weekly hours without exceptions keeps opening, in every zone that has a week without a change in each 2990 dates |
| OrderOfDates.WeeklyHoursMeasureExactlyIff | packages/business-time/src/index.ts:160-235 | so of weekly hours the condition on the written hours alone decides |
| OrderedTime.AddedIsLeast | packages/business-time/src/index.ts:203-221 | wherever dates are in order, adding d > 0 gives the least instant by which d milliseconds of the calendar's intervals have passed, whatever `isOpen` says |
| OrderedTime.NextOpening | packages/business-time/src/index.ts:247-250 | there the next opening is the first instant from t on in some date's interval, and none only if all of them lie past the scan |
| OrderedTime.AddedComposes | packages/business-time/src/index.ts:203-221 | there adding m and then n is adding m + n, or fails, and that only where the local date of the day before has gone back in between |
| OrderedTime.AroundTheClockIsOrderly | packages/business-time/src/index.ts:49-60 | round-the-clock hours never close and are in order in every zone with small changes |
| OrderedTime.AroundTheClockAddsPlainly | packages/business-time/src/index.ts:49-221 | over them adding d gives x + d wherever it succeeds, in every such zone, though `isOpen` may answer closed |
| OrderedTime.ScanIsOf3650Dates | packages/business-time/src/index.ts:46-235 | a scan is of 3650 dates exactly: with nothing open on them adding and measuring fail, and something open on the last of them is found |
| LondonSpring.LondonIsDependableIff | packages/business-time/src/index.ts:171-235 | a valid calendar in London can be relied on if and only if the periods of the change's date keep their order |
| LondonSpring.OfficeHoursAreDependable | packages/business-time/src/index.ts:171-235 | 09:00 to 17:00 can be relied on through the change |
| LondonSpring.OpeningWhileSkippedIsDependable | packages/business-time/src/index.ts:171-235 | so can 01:15 to 03:00, which opens while local clocks skip |
| LondonSpring.NightHoursCountTwice | packages/business-time/src/index.ts:223-235 | on a valid calendar open 00:00 to 01:45 and 02:00 to 03:00, `elapsedBusinessMs` measures 165 minutes in 120, more than any count of open milliseconds |
| LondonSpring.NightHoursAreOutOfOrder | packages/business-time/src/index.ts:171-235 | that calendar keeps opening, and its dates are out of order |
| SantiagoSpring.SkippedHalfHourIsReversed | packages/business-time/src/index.ts:171-201 | on a valid calendar open 00:10 to 00:40 and 23:45 to 23:59, the half hour that Santiago skips comes before the last minutes of the date before |
| SantiagoSpring.SkippedHalfHourIsMissed | packages/business-time/src/index.ts:223-235 | over that half hour, open in full, `elapsedBusinessMs` answers 0 |
| HiddenHours.AroundTheClockNeverCloses | packages/business-time/src/index.ts:49-60 | round-the-clock hours give every date one interval from its midnight to the next, where midnights follow one another |
| HiddenHours.NeverClosedLooksClosedIff | packages/business-time/src/index.ts:237-245 | around the clock, near at most one change, `isOpen` answers closed if and only if the next midnight is repeated or skipped west of UTC and has come, or the last is skipped east of UTC and has not, though a neighbouring date's interval holds the instant |
| MissedDates.IsOpenIsTrustedIff | packages/business-time/src/index.ts:237-245 | for any zone with small changes and any instant, `isOpen` answers for all dates on every valid calendar if and only if no minute of the next date has come already and none of the last is still to come unless that date is looked at |
| HiddenHours.NewfoundlandLooksClosed | packages/business-time/src/index.ts:237-245 | on a calendar that never closes, 23:30 the second time looked closed when Newfoundland went back at 00:01 |
| HiddenHours.SantiagoLooksClosed | packages/business-time/src/index.ts:237-245 | and 23:30 the evening before Santiago skips midnight looks closed |
| TwentyFourSeven.AlwaysOpenIsOpen | packages/business-time/src/index.ts:49-60 | the round-the-clock calendar is open at every instant |
| TwentyFourSeven.AddingIsPlainAddition | packages/business-time/src/index.ts:49-60 | over it, adding d to x gives x + d, for every d up to 521 weeks |
| ResetClock.MidnightIsUnique | packages/contracts/src/demo.ts:200-217 | London midnights are never skipped or repeated, and the two passes find the one instant that reads midnight |
| ResetClock.DateBetweenMidnights | packages/contracts/src/demo.ts:214-256 | between one midnight and the next lies exactly one local date |
| ResetClock.ResetClockLaws | packages/contracts/src/demo.ts:225-256 | the resets enclose the instant, both read midnight with none between, are 23, 24 or 25 hours apart, and enclose exactly its date |
| ResetClock.MaxAgeIsLongest | packages/bff/src/cookies.ts:208-211 | the Max-Age is a day, or as many whole seconds as are left to the reset |
| ResetClock.OffersDemoIff | packages/bff/src/cookies.ts:234-252 | of all texts an area honours exactly its own persona's name, a dot and the London date |
| ResetClock.HonouredOnItsDayOnly | packages/bff/src/cookies.ts:203-251 | a demo cookie is honoured by the area that minted it, from one reset to the next, and nowhere else |
| ResetClock.HonouredThroughoutItsMaxAge | packages/bff/src/cookies.ts:203-216 | it is honoured at every instant of its Max-Age, which ends by the reset |
| Percent.DecodeEncode | packages/bff/src/cookies.ts:53-86 | percent-decoding undoes percent-encoding, on every string |
| Percent.EncodedIsPlain | packages/bff/src/cookies.ts:53-60 | encoded text holds nothing a cookie header could trip over |
| PageMeaning.EncodesLikeABrowser | packages/bff/src/cookies.ts:53-60 | `encodeURIComponent` on what it leaves alone and on characters of one to four bytes, written out |
| PageMeaning.DecodeRefuses | packages/bff/src/cookies.ts:71-86 | what is no UTF-8 or no escape is refused: overlong forms, surrogates, points too high, sequences cut short |
| PageMeaning.HeaderSays | packages/bff/src/cookies.ts:53-60 | the whole header: pair, path, Max-Age in decimal, HttpOnly, Secure, SameSite=Lax |
| PageMeaning.RedirectsStayHere | packages/bff/src/redirects.ts:19-26 | a redirect leads to the value if and only if it is a path of this origin without backslash or control character, otherwise to the fallback |
| PageMeaning.NoPages | packages/bff/src/cookies.ts:285-291 | a path is no page if and only if its first segment is one of the six |
| PageMeaning.WithoutRscKeeps | packages/bff/src/cookies.ts:303-311 | of a query every pair is kept in order but `_rsc` parameters and empty ones; an emptied query goes with its question mark |
| PageMeaning.RememberedIff | packages/bff/src/cookies.ts:313-330 | which pages are remembered, and the whole header that remembers them |
| PageMeaning.ResumesIff | packages/bff/src/cookies.ts:379-397 | for every cookie and session, the visitor is taken to a page if and only if the cookie is version 1, bears the session's hash and decodes to it, and it is a page; otherwise to the fallback |
| Cookies.ReadCookie | packages/bff/src/cookies.ts:71-86 | the loop returns the first pair of that name, decoded, or nothing |
| Cookies.SerialiseCookie | packages/bff/src/cookies.ts:53-60 | the header written gives the browser that name with the encoded value, for every proper name |
| Cookies.KeepsWhatIsSet | packages/bff/src/cookies.ts:53-60 | a browser keeps a serialised cookie under its name with its encoded value |
| Cookies.HeaderReadsJar | packages/bff/src/cookies.ts:62-86 | from the header of any jar, reading finds the first cookie of that name |
| Cookies.WithoutRscTwice | packages/bff/src/cookies.ts:303-311 | dropping `_rsc` parameters twice is dropping them once |
| Cookies.LastPathRoundTrip | packages/bff/src/cookies.ts:303-397 | whatever other cookies are sent, the page comes back without its `_rsc` parameters if and only if the session's hash is the same and the page is not empty; otherwise the fallback |
| OperatorMeaning.OrderingsMean | packages/expr/src/index.ts:159-261 | for all values: `gt`, `gte`, `lt` and `lte` fail on absent ones, raise naming the kinds where the two have no order, and otherwise say which comes first, by number, instant, truth or text |
| OperatorMeaning.FiveIsGreaterThanThree | packages/expr/src/index.ts:247-261 | five is greater than three and not less |
| OperatorMeaning.EqualitiesMean | packages/expr/src/index.ts:238-331 | for all values, what `eq`, `ne`, `in` and `nin` find equal, and in what they look |
| OperatorMeaning.TextOperatorsMean | packages/expr/src/index.ts:271-286 | `contains`, `startsWith` and `endsWith` hold if and only if the lowered text is a text, the part sought and a text, the part first, the part last; `contains` looks through arrays by equality |
| OperatorMeaning.MatchesMean | packages/expr/src/index.ts:287-350 | what `matches` answers for every value and pattern |
| OperatorMeaning.PresenceMeans | packages/expr/src/index.ts:218-235 | `exists` and `empty`, by value |
| OperatorMeaning.BeforeAndAfterMean | packages/expr/src/index.ts:293-304 | `before` and `after` say which of two times is the earlier, and fail where one is no time |
| OperatorMeaning.WithinLastMeans | packages/expr/src/index.ts:305-311 | `withinLast` holds of a time not after now and not before now less the duration |
| OperatorMeaning.LooksIsoIff | packages/expr/src/index.ts:92 | which texts look like a date |
| Text.OrderedByUnits | packages/expr/src/index.ts:175-186 | texts are in the order of their UTF-16 code units |
| Expr.CompareIsAntisymmetric | packages/expr/src/index.ts:159-197 | swapping the operands negates the result, keeps absence, and swaps the kinds an error names |
| Expr.FlippedOperandsAgree | packages/expr/src/index.ts:244-259 | `a > b` and `b < a`, and so on, hold together and raise together |
| Expr.TextOrderTransitiveIff | packages/expr/src/index.ts:175-186 | on any set of strings the order is transitive if and only if, wherever a text that is no instant falls between the texts of two, the first of those is the earlier |
| Expr.SomeTextsCycle | packages/expr/src/index.ts:175-186 | so the order is not transitive, by three concrete strings |
| Values.ReadPath | packages/expr/src/index.ts:62-72 | the loop reads what following own properties segment by segment reaches, or undefined |
| Values.PathsLead | packages/expr/src/index.ts:62-72 | a path without a dot reads an own property, and a longer one goes on from it |
| Values.OwnPropertiesAre | packages/expr/src/index.ts:62-72 | the own properties: an object's members, an array's length and its items under their decimal numbers, nothing else |
| ExprLaws.JoinsStopEarly | packages/expr/src/index.ts:219-221 | `and` and `or` are decided by the first clause that does not hold, or that holds, or that raises |
| ExprLaws.DeMorgan | packages/expr/src/index.ts:215-222 | De Morgan's laws hold, errors included, except exactly of an empty join at the depth limit |
| ExprLaws.OrderingsBelongTogether | packages/expr/src/index.ts:244-259 | the four orderings raise together, all fail on absent values and on differences that are no number, and otherwise are each other's opposites |
| ExprLaws.AbsentIsNotCompared | packages/expr/src/index.ts:159-165 | a comparison is left undecided exactly where a value is absent |
| ExprLaws.LooseEqualityLaws | packages/expr/src/index.ts:316-331 | loose equality is symmetric, reflexive on exactly the scalars that are numbers, strings, booleans, dates or null, and never equates a boolean or null with anything else |
| DepthLimit.TooDeepIff | packages/expr/src/index.ts:215-222 | evaluation gives up for depth if and only if, without a limit, it would come to a subexpression more than 20 levels down; otherwise the limit changes nothing |
| DepthLimit.ShallowIsNeverTooDeep | packages/expr/src/index.ts:215-222 | an expression at most 20 levels high means the same with and without the limit, in every context |
| DepthLimit.TwentyNotsAreNotTooDeep | packages/expr/src/index.ts:215-222 | and the bound is met: under k times `not`, `always` is too deep exactly for k above 20 |
| ExprCheck.CheckExpr | packages/expr/src/index.ts:398-433 | the checker reports exactly the comparisons in conflict, in document order, down to the evaluator's depth limit |
| ExprCheck.ReportSays | packages/expr/src/index.ts:398-428 | a report's path, types, operator and message, with the names written out |
| ExprCheck.LiteralTypesAre | packages/expr/src/index.ts:366-372 | the declared type of every literal |
| ExprCheck.OrderableRaisesOnlyOnUnparsed | packages/expr/src/index.ts:159-197 | an orderable comparison of declared operands raises if and only if a date meets a string that does not parse |
| ExprCheck.TypeErrorsComeFromComparisons | packages/expr/src/index.ts:215-314 | a type error of an expression is that of one of the comparisons the checker looks at |
| ExprCheck.CheckedExpressionsDoNotRaise | packages/expr/src/index.ts:383-433 | an expression the checker passes, with every compared path declared, raises a type error in a conforming context only where a date meets a string that does not parse |
| ExprCheck.ConflictRaises | packages/expr/src/index.ts:375-381 | a comparison in conflict raises if and only if both its values are present |
| ExprCheck.ComparisonsAreWithinReach | packages/expr/src/index.ts:408-428 | the checker looks at a comparison if and only if it stands no deeper than evaluation goes |
| ExprCheck.ReportedConflictsRaise | packages/expr/src/index.ts:383-433 | behind each conflict reported of an expression is a comparison within reach that raises, in conforming contexts, exactly where both values are present |
| ExprAgreement.ServerAndBrowserAgree | packages/expr/src/index.ts:152-197 | replacing every date by its ISO text changes no outcome, errors included, where dates meet only the listed operators and are ordered only against ISO texts that parse |
| ExprAgreement.DateAgainstText | packages/expr/src/index.ts:175-197 | a date ordered against text: the sides agree if and only if the text parses and either looks like an ISO date or happens to sort the same |
| ExprAgreement.DateEqualityAgreesIff | packages/expr/src/index.ts:316-331 | of a date and any value, in either order, what the server finds equal and what the browser does: so the sides agree if and only if both do or neither |
| ExprAgreement.DateInListAgreesIff | packages/expr/src/index.ts:263-270 | of a date sought in any list, the sides agree if and only if both lists of equals meet it or neither does |
| ExprAgreement.ListOfDatesAgreesIff | packages/expr/src/index.ts:263-278 | of any other value sought in a list with dates, they agree if and only if another element equals it, or dates do on both sides or neither |
| ExprAgreement.TextOperatorAgreesIff | packages/expr/src/index.ts:271-292 | a text operator never holds of a date on the server, so the sides agree if and only if the lowered ISO text lacks the prefix, suffix or part sought, or for a pattern, if it is short enough, compiles and does not match |
| ExprFootprint.ReferencedVars | packages/expr/src/index.ts:441-458 | the walk gathers exactly the paths the expression names |
| ExprFootprint.EvaluationReadsOnlyItsVars | packages/expr/src/index.ts:215-314 | contexts that agree on those paths, and for `withinLast` on a present `now`, give the same outcome, whatever the clock |
| UnlistedNow.NowMattersIff | packages/expr/src/index.ts:305-311 | a `withinLast` clause depends on `now` beyond its listed path, for every operand and duration, if and only if the duration is one, and the operand is a literal time that some present can have within it, or a path that does not begin with `now` |
| UnlistedNow.WithoutNowVarsAreAll | packages/expr/src/index.ts:215-458 | an expression with no such clause has the same outcome on every two contexts that agree on the listed paths |
| RuleMeaning.SavingKeepsMeaning | apps/admin/src/rules.ts:60-136 | an expression the editor can draw, with literals its operators keep, evaluates the same on every context once saved from its rows |
| RuleRows.SavedRowsAreRedrawn | apps/admin/src/rules.ts:60-136 | saved rows are drawn again as the rows with a fact, in order, each value as its coerced text |
| RuleRows.SavingIsStable | apps/admin/src/rules.ts:60-136 | for all rows, drawing and saving again gives the same expression |
| RuleMeaning.ClauseKeepsMeaningIff | apps/admin/src/rules.ts:60-136 | for every operator the editor offers: a drawn clause means the same on every context once saved, if and only if it names a path and its literal reads back or, for equality and containment, is the text of the number it becomes |
| WholeNumbers.SomeEditorReadsBack | apps/admin/src/rules.ts:60-66 | the law of the editor's numbers can be met, by an editor that reads every whole number |
| RuleMeaning.EmptyOrChangesMeaning | apps/admin/src/rules.ts:69-136 | an empty `or`, which never holds, would be saved as `always` |
| Canonical.CanonicalPrintsOrder | packages/platform/src/audit.ts:38-46 | printing members and sorting the texts is sorting the members and printing |
| Canonical.OrderIsUnique | packages/platform/src/audit.ts:38-46 | two values that mean the same have the same ordered form |
| CanonicalUnique.PrintUnique | packages/platform/src/audit.ts:38-46 | canonical text can be read in one way only |
| CanonicalUnique.CanonicalTextIsMeaning | packages/platform/src/audit.ts:38-46 | two values have the same canonical text if and only if they are equal up to key order and dropped undefined members |
| CanonicalUnique.TiedKeysShowInsertionOrder | packages/platform/src/audit.ts:42-45 | an order that ties two keys lets insertion order into the text |
| JsonReading.CanonicalTextIsJson | packages/platform/src/audit.ts:38-46 | a JSON reader reads the canonical text back as the value it was made of, and to its end |
| HashMaterial.EscapesAre | packages/platform/src/audit.ts:38-46 | the escapes of strings, written out |
| HashMaterial.MaterialMeans | packages/platform/src/audit.ts:48-75 | the hashed object has exactly these eleven members, each name with the row's own value, absent ones null |
| HashMaterial.HashIsOfThisObject | packages/platform/src/audit.ts:38-75 | a row's hash is the hash of a JSON text of that object |
| AuditChain.SomePrimitivesAreIdeal | packages/platform/src/audit.ts:38-75 | the law of hashes, ISO texts and key order can be met |
| AuditChain.HashPinsContent | packages/platform/src/audit.ts:48-75 | two rows' hashes are equal if and only if every hashed field and the link to the row before are |
| AuditChain.ChainExtends | packages/platform/src/audit.ts:84-136 | a row that points at the last hash and hashes to its own extends a chain |
| AuditChain.VerifyAuditChain | packages/platform/src/audit.ts:149-203 | the verifier accepts exactly the chains, and otherwise reports the first break and its reason |
| AuditChain.TruncationVerifies | packages/platform/src/audit.ts:149-203 | cutting rows off the end leaves a chain |
| AuditChain.LastHashPinsChain | packages/platform/src/audit.ts:48-203 | two chains that verify and end in the same hash have the same rows, on every hashed field |
| AuditProtocol.SelectionSorts | packages/platform/src/audit.ts:149-172 | rows are selected in order of their numbers, all of them |
| AuditProtocol.StepKeeps | packages/platform/src/audit.ts:84-136 | every step of every call of every transaction keeps each tenant's rows ascending and chained, as each open transaction sees them |
| AuditProtocol.EveryRunVerifies | packages/platform/src/audit.ts:77-203 | over every interleaving of calls, within and between transactions, across tenants, with commits and aborts and shared lock keys, each tenant's committed rows verify, under any limit |
| AuditForks.ReleasedEarlyChainsFork | packages/platform/src/audit.ts:77-86 | with a lock released after the insert, two writers fork the chain |
| AuditForks.OverlappingCallsFork | packages/platform/src/audit.ts:84-136 | two calls for one tenant that overlap in one transaction share its lock and fork the chain |
| AuditForks.AllRunsVerifyIff | packages/platform/src/audit.ts:77-203 | every run leaves rows that verify, for every tenant and limit, if and only if locks are held to the end of a transaction and none has two calls for one tenant under way |
| SessionStore.StoredSessionReadsBack | packages/bff/src/session.ts:139-195 | a session survives storage if and only if it is complete for its kind |
| SessionStore.DecodedIsComplete | packages/bff/src/session.ts:125-191 | whatever is stored, what is read is a complete session that stores and reads back the same |
| SessionStore.RecordReads | packages/bff/src/session.ts:118-172 | a record that is no demo's reads if and only if its four required members are there, each member as it stands, with no kind as a provider's |
| SessionStore.OddFieldsRead | packages/bff/src/session.ts:118-166 | other kinds are refused, and a time is a safe whole number or its decimal digits |
| SessionStore.MemorySessionStore.Put | packages/bff/src/session.ts:208-210 | a complete session can be read until its time is up, and no other session changes |
| SessionStore.MemorySessionStore.TakePending | packages/bff/src/session.ts:217-221 | a pending login is returned only if live, and is gone either way; others stay |
| SignInAnswers.RenewalDelivers | packages/bff/src/bff.ts:247-291 | a session with more than a minute goes on untouched; one that is due goes on with every token the provider answered, and the store finds just that for a whole lifetime; any other is gone |
| SignInAnswers.ConfirmingDelivers | packages/bff/src/bff.ts:464-492 | the same of confirming a parked session |
| SignInAnswers.DemoCookieGetsItsVisit | packages/bff/src/bff.ts:293-354 | a demo cookie gets the session its visit goes on with, or the real one parked with it as that reads, or nothing |
| SignInAnswers.CallbackLeads | packages/bff/src/bff.ts:576-657 | each answer of the callback, with its cookies, and the one situation it is given in |
| SignInAnswers.SignInStores | packages/bff/src/bff.ts:629-646 | the session stored carries each of the provider's answers and is found for its lifetime |
| SignInAnswers.LoginLeads | packages/bff/src/bff.ts:510-574 | each answer of the login route and its situation |
| SignInAnswers.PendingLoginLasts | packages/bff/src/session.ts:211-221 | a pending login is good for half an hour |
| SignInAnswers.LogoutSays | packages/bff/src/bff.ts:659-720 | what signing out says and which cookies it sets, by whether the visit was a demo's and its parked session came back |
| SignIn.CookieLasts | packages/bff/src/cookies.ts:40-60 | a cookie is sent for exactly its Max-Age |
| SignIn.RealSessionKeepsOrEnds | packages/bff/src/bff.ts:252-291 | a real session is handed on as the same person's with at most its tokens renewed, or is gone from the store for good; other sessions stay |
| SignIn.CookieGetsItsOwnSession | packages/bff/src/bff.ts:347-354 | a cookie that names nothing gets nothing and changes nothing; one that names a real session gets that person's, as the store now has it, or nothing and then never again; other sessions stay |
| SignIn.ReadingAgainChangesNothing | packages/bff/src/bff.ts:252-291 | reading again a session just read, and good for a minute, gives the same and changes nothing, whatever the provider would answer |
| SignIn.Bff.Callback | packages/bff/src/bff.ts:576-657 | rows C1 to C9: which answers, what it sets, which state is spent, what is stored |
| SignIn.SignInWins | packages/bff/src/bff.ts:629-646 | after C9 the browser's cookie names the new session and finds it, the markers are cleared, and the demo visit it replaces is gone |
| SignIn.Bff.Login | packages/bff/src/bff.ts:510-574 | rows L0 to L6, and the one pending login L6 stores |
| SignIn.WhoReachesTheProvider | packages/bff/src/bff.ts:523-574 | a demo visitor reaches the provider only by asking for a real sign-in |
| SignIn.Bff.Logout | packages/bff/src/bff.ts:659-720 | rows O1 to O5: the answer, and the store afterwards |
| SignIn.LogoutEndsTheSession | packages/bff/src/bff.ts:659-720 | after signing out the old cookie's session is never found again and the browser keeps a session only where a parked one was confirmed; a cross-site request changes nothing |
| SignInRuns.OneExchangeForEachLogin | packages/bff/src/bff.ts:594-628 | however callbacks race, no pending login feeds two code exchanges, and each was taken within half an hour of its login |
| SignInRuns.SeparateDeleteReplays | packages/bff/src/redis-store.ts:66-78 | reading and deleting in two commands would let two callbacks exchange the same login |
| SignInRuns.LoginAndLogoutLeaveMarker | packages/bff/src/bff.ts:510-720 | neither the login route nor the logout sets or clears the retry marker |
| SignInRuns.RestartsAreApart | packages/bff/src/bff.ts:599-625 | between two silent restarts of one browser a minute passes, or C5, C7 or C9 clears the marker |
| SignInRuns.RedirectsDoNotLoop | packages/bff/src/cookies.ts:88-106 | within a minute, the second callback of a chain of redirects ends it |
| Links.FindUnsafeLinks | packages/contracts/src/links.ts:76-116 | on any finite graph, the stack finds what the recursive walk finds, in order, expanding exactly the objects it sees, each once |
| Links.TreeWalkIsPreorder | packages/contracts/src/links.ts:76-116 | on a JSON tree that is the refused `href` members with their exact paths, in document order |
| Links.PathNamesEachKey | packages/contracts/src/links.ts:60-99 | between its dots a link's path names each key on the way, items by their decimal number |
| Authz.BuildPermissionSet | packages/platform/src/authz.ts:43-56 | the loops gather every grant under its key, in order, and each key's widest scope |
| Authz.HasIsSomeGrant | packages/platform/src/authz.ts:57-64 | the set has a key, with at least a scope, if and only if some grant of it is that wide |
| Authz.KeysOf | packages/platform/src/authz.ts:64 | the granted keys, each once, in string order |
| Authz.CanIsSomeGrant | packages/platform/src/authz.ts:115-155 | a check on a record is allowed if and only if some one grant has the record within what it is narrowed to, and its scope admits it |
| Authz.NarrowedGrantCovers | packages/platform/src/authz.ts:115-155 | one wide grant: narrowed to a team, a service or an organisation it allows exactly that one's records, not narrowed all of them, and no other key |
| Authz.WithoutRecord | packages/platform/src/authz.ts:133-138 | without a record any grant of the key allows, and the system is allowed everything |
| Authz.GrantsOnlyWiden | packages/platform/src/authz.ts:115-155 | more grants never turn an allowed check into a refusal |
| Ids.NewId | packages/platform/src/ids.ts:8-24 | the bytes written over the random buffer are the layout of section 5.7 of RFC 9562 |
| Ids.NewIdIsUuid | packages/platform/src/ids.ts:8-34 | every identifier passes `isUuid` |
| Ids.RandomBitsTellApart | packages/platform/src/ids.ts:8-24 | at one instant two identifiers are equal if and only if their 74 random bits are |
| Ids.IsUuidIff | packages/platform/src/ids.ts:32-34 | `isUuid` accepts exactly five groups of hex digits with a version from 1 to 8 and the variant |
| Ids.TimestampReadsBack | packages/platform/src/ids.ts:27-30 | the time read back is the time written modulo 2^48, so the same if and only if it fits |
| Ids.LaterIdsSortLater | packages/platform/src/ids.ts:8-24 | a later instant gives a later string, whatever the random bits |

## Left out

- BusinessTime.AddBusinessMs: durations are whole milliseconds or not finite; `Date` dropping the fraction of a fractional one is not modelled.
- Instants outside the range of `Date`, and `Date.UTC` reading years 0 to 99 as 1900 to 1999.
- BusinessCalendar.ValidateCalendar: problems are values, not sentences, and weekdays come in one fixed order rather than in the order of the object's keys.
- `Intl`: the zone is its offset function, with whole-second offsets under a day.
- Values.ReadPath: arrays have no holes, and a number's two zeros are one.
- ExprFootprint.ReferencedVars: the set, not its sorted list.
- `parseDuration`, the regular expression engine and its cache: parameters of the evaluator; the cache only repeats what compiling answers.
- Expressions that are no expressions: unknown operators and malformed operands, which the schema refuses.
- `fromAction` and `toAction` of the rule editor: one row each way.
- Lone surrogates in strings: characters are whole code points. Strings are ordered by their UTF-16 code units; lengths, and the cut at 500 of a pattern, count characters.
- ExprCheck.CheckExpr: `types[path]` also finds members that every object inherits, so an undeclared path named `constructor` or `toString` is taken for declared and reported in conflict; here the types are a map.
- Redaction, and the columns of an audit row that are not hashed, which no verifier could vouch for. Rows cut off the end of a chain are likewise outside any claim (see `AuditChain.TruncationVerifies`).
- AuditProtocol.EveryRunVerifies: that no transaction has two calls for one tenant under way is taken of the callers, not shown; without it the chain forks (`AuditForks.AllRunsVerifyIff`).
- SignInRuns.RestartsAreApart: routes outside sign-in (the proxy, the demo) are taken not to touch the retry marker, whose name only the callback uses.
- RuleMeaning.ClauseKeepsMeaningIff: the exact condition is per clause; for a join of several, `RuleMeaning.SavingKeepsMeaning` gives what suffices, as one clause can mask another.
- Deadlock and waiting: a step that must wait for a lock is one that does not happen yet.
- SignIn.Bff.Callback: time stands still within one handler, except that a refresh is answered when it is answered; races between handlers are in `SignInRuns`.
- The demo's own re-minting, parking and touching of sessions: any outcome of the shapes the handlers expect.
- SessionStore.StoredSessionReadsBack: numbers in a stored record are whole.
- Recording a session with the API, `login_hint`, rate limits and the proxy.
- Ids.TimestampReadsBack: `idTimestamp` on text that is no identifier, and the source of random bytes.
- Registering scope resolvers: the registry is a parameter of the decision.
- Links.FindUnsafeLinks: which links are safe and how a refused value is described are parameters.
- The Redis store, apart from the one command `SignInRuns.SeparateDeleteReplays` is about.
