# Verified core of the assistants hub

A Dafny model of the parts of the hub whose correctness is arithmetic, parsing or
interleaving rather than plumbing, with proofs about them. Verify the whole project
with `dafny verify dfyconfig.toml`.

Code that loops or mutates is modelled as methods and classes, each proved against a
specification function or an abstract state; the laws are then proved about those.
Exceptions are `Result` or `Option` values. Time zones, code points, UTF-8, deflate,
`Date.parse`, `new URL`, the clock, the database and the language model are parameters,
with the laws they are assumed to obey written out as predicates; `Witnesses` has for each
of these predicates something that obeys it.

| files | subject |
|---|---|
| `Text`, `Numbers`, `Calendar` | JavaScript strings; the numbers a double can be; days and civil dates (section 21.4.1 of ECMA-262) |
| `Inherited` | the names every JavaScript object inherits |
| `Schedule`, `Boundaries`, `NextRun`, `Triggers` | wall clock to UTC, also around changes of offset; next runs, trigger normal form |
| `Period`, `PeriodLaws`, `CalendarGrid` | analytics periods, their keys and axes, summary days, the date picker |
| `Daily`, `DailyLaws`, `Idle` | the ticker, the daily job and the idle job as step systems |
| `Csv`, `HistoryRows`, `HistoryTransfer`, `GuessLaws`, `RowLaws` | history export and import |
| `Delimited`, `TwoReaders`, `Windows` | the document reader, where it agrees with the history parser, and its paging |
| `Bytes`, `Zip`, `Xml`, `Sheet` | the workbook reader and the zip writer |
| `Batching` | greedy transcript batches and the retry loop over them |
| `Chains`, `Delivery` | the ingest stage: ordering, receivers, one turn a message |
| `Columns`, `ColumnLaws`, `ValueLaws` | typed columns and row values |
| `Witnesses` | something that obeys each assumed law |

A step system (`State`, `Event`, `Enabled`, `Step`) is what its class does between two
awaits: every method of the class is proved to be one step, and the laws hold for every
sequence of enabled steps.

## Where code and documentation part

The model follows the code.

- `core/server/jobs/daily-due.ts:9-12` promises a run that is idempotent across restarts. The last run is kept in memory only, so a restart serves the day's target again (`DailyLaws.RestartServesTwice`), and only a restart does (`DailyLaws.ServedAgainExactly`).
- The guard of `core/server/jobs/idle-scheduler.ts:124` is meant to keep bodies apart, but activity moves a running scheduler to `scheduled`, so the guard never holds a firing back (`IdleLaws.EveryFiringStarts`, `IdleLaws.SlowBodyOverlaps`). Bodies that yield in time keep apart all the same (`IdleLaws.PromptBodiesNeverOverlap`).
- `core/server/ingest/consumer.ts:780-788` stores the caught promise and compares the uncaught one, so the clean-up deletes nothing and the map of chains only grows (`ChainLaws.ChainsNeverForget`). Ordering does not depend on it.
- Chats are independent once their updates are picked (`ChainLaws.StartsExactly`), but a waiting update holds one of the worker's eight slots, so that eight of one chat hold up all others (`ChainLaws.OneChatFillsSlots`, `ChainLaws.FloodFills`).
- `normalizeWeekdays` lets a fraction such as 2.5 through, and the accepted weekly trigger would never fire (`Triggers.HalfWeekdayNeverRuns`). The callers exclude it: `core/features/tasks/server/schema.ts:129` and `core/features/tasks/server/mcp-tools.ts:351,499` demand whole numbers, and with these every accepted repeating trigger runs (`Triggers.WholeWeekdaysRun`).
- `core/features/tasks/schedule.ts:103-104` means to land on the correct side of a transition. Where a zone west of Greenwich skips from midnight on, it lands before the transition, and a period or day that starts there starts early (`PeriodTheorems.SkippedMidnight`); `Boundaries.SplitsExactly` says for which times it lands right.
- A `once` date is only checked against day 31, so 31 February is accepted and fires in March (`Triggers.RollsOver`).
- `core/features/history/csv.ts:7-9` and `core/features/history/server/transfer.ts:24-25` promise that the stored mirror goes through export and import unchanged. The mirror takes any message id and content of any length (`packages/contracts/src/transport-events.ts:111-112`, `core/store/schema.ts:1034`); a record whose id is not made of digits, or whose content is over 8192 characters, is exported and then refused (`HistoryTransfer.ForeignIdRefused`, `HistoryTransfer.LongContentRefused`). `HistoryTransfer.ExportImports` has the exact condition.
- The role aliases of the import are looked up in a plain object, so the cells `constructor` and `__proto__` are accepted too (`HistoryTransfer.AcceptedRoles`).
- `decodeXml` is documented to decode entities and numeric references. A numeric reference to the ampersand is decoded twice when the text after it reads as the rest of a reference (`XmlLaws.DecodedTwice`); `XmlLaws.DecodesToMeaning` says exactly when the result is what the text means.
- A column may be called `constructor`; a row that leaves it out is then refused or given the inherited text, never left with a gap (`ColumnLaws.ConstructorColumn`, `ColumnLaws.GapsStayGaps`).
- The two CSV readers differ on quotes inside a field, lone carriage returns and blank records (`TwoReaders.QuotesInside`, `TwoReaders.ReturnsInside`); `TwoReaders.ReadersAgree` says on exactly which texts they agree.

## Model

| member | source | states |
|---|---|---|
| Calendar.CivilBijection | core/features/tasks/schedule.ts:137-145 | Day numbers and real calendar dates are in bijection: the date arithmetic of `Date.UTC` and the getters undo each other for every day |
| Calendar.DayNumberOrder | core/features/tasks/schedule.ts:137-145 | Day numbers order real dates as year, month and day do |
| NextRun.AddDays | core/features/tasks/schedule.ts:137-145 | `addCalendarDays` on the date of a day gives the date of the day `k` further, for every positive or negative `k` |
| Schedule.WallClockExact | core/features/tasks/schedule.ts:94-110 | For any zone whatever, exactly when `zonedWallClockToUtc` returns an instant that shows the requested wall clock: the offset at the first guess was right, or the refined one holds where it lands |
| Schedule.WallClockTwoOffsets | core/features/tasks/schedule.ts:94-110 | Where the zone takes at most two offsets within a day of the requested wall clock, however often it switches, the result shows the wall clock if and only if some instant does: one refinement suffices |
| Schedule.ThreeOffsetsMiss | core/features/tasks/schedule.ts:94-110 | A zone with three offsets where an existing wall-clock time is missed, so the bound of two is needed |
| Boundaries.SplitsExactly | core/features/tasks/schedule.ts:94-110 | Around one change of offset, for which wall-clock times the computed instant parts time as the clock does: all but those the clock skips or repeats, and of these the first, when skipped east of Greenwich or repeated west of it |
| Boundaries.PassesExactly | core/features/tasks/schedule.ts:94-110 | Around one change of offset the computed instant is the only one that shows the time, with less shown before and more after, exactly when the clock neither skips nor repeats it |
| Boundaries.WhereTheyLand | core/features/tasks/schedule.ts:94-110 | Which instant a skipped and a repeated time get |
| Schedule.ComputeNextScheduleRun | core/features/tasks/schedule.ts:156-213 | The loop over the coming week computes the specified next run for once, daily and weekly schedules |
| NextRun.NextRunIsLeast | core/features/tasks/schedule.ts:156-213 | In every zone whose clock shows the run times in question once, the run is the least instant after `from` at which the schedule fires, and none exactly when there is no such instant, if and only if the schedule is not a `once` date still ahead that is off the calendar |
| NextRun.ConstantNextRun | core/features/tasks/schedule.ts:156-213 | With a constant offset this holds with no hypothesis on run times |
| NextRun.WeeklyRuns | core/features/tasks/schedule.ts:184-213 | In every zone a weekly schedule has a next run if and only if one of its weekdays is a whole number from 0 to 6 |
| Triggers.TimeReads | core/features/tasks/schedule.ts:31-39 | A time of day is read exactly when it is written as one or two digits, a colon and two digits, from 0:00 to 23:59, white space around it aside |
| Triggers.DateReads | core/features/tasks/schedule.ts:48-58 | A run date is read exactly when it is written as four, two and two digits with hyphens, month 1 to 12 and day 1 to 31 |
| Triggers.TimerAccepted | core/features/tasks/schedule.ts:352-375 | A message or reply trigger is always accepted, an interval or timeout exactly with whole minutes from 1 to 525 600, and each keeps nothing but these |
| Triggers.CalendarAccepted | core/features/tasks/schedule.ts:377-394 | A calendar trigger is accepted exactly with a readable time and, when weekly, a weekday from 0 to 6, when for once, a readable date; which of these is missing is what it is refused for |
| Triggers.NormalizeTriggerIdempotent | core/features/tasks/schedule.ts:325-394 | A trigger `normalizeTrigger` accepts is accepted again unchanged |
| Triggers.KindRecovered | core/features/tasks/schedule.ts:271-278 | `scheduleKindOf` recovers from the accepted fields which kind was asked for |
| Triggers.NormalizeKeepsRuns | core/features/tasks/schedule.ts:325-394 | Normalizing moves no run: raw and accepted fields fire at the same instants |
| Triggers.RepeatingRuns | core/features/tasks/schedule.ts:234-258 | In every zone an accepted repeating trigger has a next run if and only if it is not a weekly one without a whole weekday |
| Triggers.IntervalAdvances | core/features/tasks/schedule.ts:234-258 | An interval trigger fires exactly its period after `from` |
| Triggers.SpentForGood | core/features/tasks/schedule.ts:234-258 | Message, reply and timeout triggers never have a next run: a spent timeout does not fire again |
| Triggers.IntervalRuns | core/features/tasks/schedule.ts:240-244 | An interval of whole minutes runs that much after any instant, and one under a minute or without minutes never |
| Triggers.WholeWeekdaysRun | core/features/tasks/schedule.ts:234-258 | In every zone, with weekdays that are whole numbers, as the callers check, every accepted repeating trigger has a next run |
| Triggers.HalfWeekdayNeverRuns | core/features/tasks/schedule.ts:59-62 | The filter itself lets 2.5 through: a concrete accepted weekly trigger that never fires |
| Triggers.RollsOver | core/features/tasks/schedule.ts:46-57 | 31 February is accepted and fires on 3 March |
| PeriodIndex.Tiling | core/features/analytics/period.ts:110-127 | For every unit an instant of the wall clock lies between two period starts exactly when it has that period's index |
| PeriodKeys.KeyOrder | core/features/analytics/period.ts:319-337 | String order of keys is the order of their periods in time |
| PeriodKeys.KeyInjective | core/features/analytics/period.ts:110-127 | Two periods of a unit never share a key |
| PeriodTheorems.KeyOfInstant | core/features/analytics/period.ts:130-136 | In every zone the key of an instant is the key of the period its wall clock is in |
| PeriodTheorems.RangeOfKey | core/features/analytics/period.ts:192-219 | In every zone the range of a key runs from where the start of its period lands to where the start of the next one does |
| PeriodTheorems.RangeStartsExactly | core/features/analytics/period.ts:192-219 | In every zone the start of a range has exactly the instants of earlier periods before it if and only if the conversion places that midnight where the clock reaches it, which `Boundaries.SplitsExactly` decides |
| PeriodTheorems.PeriodMembership | core/features/analytics/period.ts:110-136 | In every zone, transitions included, for every unit and well-formed anchor whose two ends land so: an instant has the anchor as its key if and only if the anchor's range contains it |
| PeriodTheorems.SkippedMidnight | core/features/analytics/period.ts:192-219 | Where a zone west of Greenwich skips from midnight on, the range starts early by what is skipped and holds instants of the period before |
| PeriodTheorems.ConstantMembership | core/features/analytics/period.ts:110-136 | With a constant offset range and key agree for every instant, unit and well-formed anchor |
| PeriodTheorems.PeriodsTile | core/features/analytics/period.ts:192-265 | In every zone, whatever its transitions, a period ends at the instant where the stepped anchor's period starts |
| PeriodTheorems.StepMovesIndex | core/features/analytics/period.ts:249-265 | Stepping an anchor by any integer moves to the period that many further on |
| PeriodTheorems.StepsEarly | core/features/analytics/period.ts:249-265 | Months and years are stepped by the calendar down to the start of year 0 |
| PeriodTheorems.StepAction | core/features/analytics/period.ts:249-265 | Steps compose and the zero step is the identity: an action of the integers on anchors |
| PeriodTheorems.AxisIncreases | core/features/analytics/period.ts:228-246 | The sub-bucket axis is strictly increasing as strings |
| PeriodTheorems.AxisComplete | core/features/analytics/period.ts:228-246 | In every zone whose clock reaches the period's ends cleanly: some instant of the period has a finer key if and only if the key is on the axis and any instant has it |
| PeriodTheorems.AxisKeyShown | core/features/analytics/period.ts:228-246 | A key on the axis is had by some instant if and only if the clock ever shows a time of its period |
| PeriodTheorems.AxisExactly | core/features/analytics/period.ts:228-246 | Where the zone switches at most once about the finer period, no instant of the period has its key if and only if the switch skips that whole finer period, such as the hour the clock is put past |
| PeriodTheorems.ConstantAxis | core/features/analytics/period.ts:228-246 | With a constant offset the axis of a period is exactly the set of finer keys its instants have |
| PeriodTheorems.ReanchorKeepsPosition | core/features/analytics/period.ts:287-317 | `reanchor` lands on the period of the new unit that holds the start of the old one |
| PeriodTheorems.ReanchorAll | core/features/analytics/period.ts:287-317 | From the period of everything `reanchor` gives the period that holds today, and every anchor goes to the period of everything |
| PeriodTheorems.AllIsOne | core/features/analytics/period.ts:192-265 | The period of everything has one key for every instant, runs from the epoch to the last day of 9999, has no axis, and no step leaves it |
| PeriodTheorems.AtOrAfterExactly | core/features/analytics/period.ts:319-337 | In every zone: `isAtOrAfterAnchor` against the current anchor holds, at all times, exactly while the period has not ended, if and only if the period's end lands where the clock reaches it |
| PeriodTheorems.SummarizableExactly | core/features/history/summary.ts:155-185 | In every zone: `isSummarizableDay` holds, at all times, exactly when the range of `summaryDayBounds` has ended, if and only if that midnight lands where the clock reaches it |
| PeriodTheorems.SummaryHolds | core/features/history/summary.ts:155-165 | In every zone whose clock reaches both midnights cleanly: an instant is within the bounds of a date if and only if the wall clock shows that date at it, so that `currentSummaryDate` gives it |
| PeriodTheorems.ConstantSummary | core/features/history/summary.ts:155-165 | With a constant offset this holds with no hypothesis |
| PeriodTheorems.SummaryDaysTile | core/features/history/summary.ts:155-165 | In every zone, whatever its transitions, a day starts at the instant where the day before ends |
| PeriodTheorems.SplitsKeyedMeans | core/features/analytics/period.ts:192-219 | Away from the first and last years of four digits, that landing is the one `Boundaries.SplitsExactly` decides |
| CalendarGrid.UtcDate.SetUTCDate | core/components/ui/Calendar.tsx:53-76 | Setting a day of the month, inside the month or not, moves the date by that many days in place |
| CalendarGrid.MonthGrid | core/components/ui/Calendar.tsx:53-68 | 42 consecutive days from a Monday, covering the month, `outside` exactly on days of other months |
| CalendarGrid.WeekKeyOf | core/components/ui/Calendar.tsx:71-76 | The week key of the picker is `weekBucketOf` of the same date and the key of the week in the period model |
| CalendarGrid.ViewRange | core/components/ui/Calendar.tsx:274-285 | Compared as strings, a period's key lies between the two ends if and only if the picker shows the period |
| Interval.Scheduler.Enter | core/server/jobs/interval-scheduler.ts:91-94 | The re-entry guard: a tick is entered exactly when none is in flight, and then is marked |
| Interval.Scheduler.Settle | core/server/jobs/interval-scheduler.ts:95-110 | How a tick that ended leaves the last-tick fields and clears the guard |
| DailyJobs.Scheduler.Tick | core/server/jobs/interval-scheduler.ts:91-110 | A firing of the ticker enters `runTick` and takes the force flag, or does nothing while a tick is in flight |
| DailyJobs.Scheduler.RunNow | core/server/jobs/daily-scheduler.ts:136-140 | Sets the force flag, then ticks |
| DailyJobs.Scheduler.Decide | core/server/jobs/daily-scheduler.ts:90-103 | The unforced tick runs the job and records the run exactly when it is due, and otherwise settles as waiting |
| DailyJobs.Scheduler.Settle | core/server/jobs/daily-scheduler.ts:105-107 | The settled job records its result and frees the ticker |
| DailyJobs.Scheduler.NextRunAt | core/server/jobs/daily-scheduler.ts:141-166 | The reported next run: now when due, else the next occurrence |
| DailyLaws.AtMostOneTick | core/server/jobs/interval-scheduler.ts:91-110 | On every run of steps at most one tick is in flight, and only a running job shows progress |
| DailyLaws.ArmedExactly | core/server/jobs/interval-scheduler.ts:113-130 | The ticker may fire exactly from a start to the next stop or restart |
| DailyLaws.LastTickShown | core/server/jobs/interval-scheduler.ts:95-110 | Until the next tick ends the status shows time, summary and error of the last tick whose job settled |
| DailyLaws.LastResultShown | core/server/jobs/daily-scheduler.ts:105-107 | The last job that did not fail stays the last result, through waiting ticks and failures |
| DailyLaws.LastProgressShown | core/server/jobs/interval-scheduler.ts:79-110 | What a job reports last is shown until it settles |
| DailyLaws.ServesExactly | core/server/jobs/daily-scheduler.ts:86-108 | When an unforced tick runs the job, over every run of steps, any zones and any change of settings: exactly when its target has come and no run since the last restart was at or after it |
| DailyLaws.NoTargetTwice | core/server/jobs/daily-scheduler.ts:86-108 | Between restarts and with a clock that does not go back, no target instant starts two unforced runs, even when run time and zone change between ticks: a later target lies after the time of the earlier run |
| DailyLaws.ServedAgainExactly | core/server/jobs/daily-due.ts:3-16 | A target once served is served again if and only if the process restarts after every run at or after it |
| DailyLaws.RestartServesTwice | core/server/jobs/daily-due.ts:3-16 | For every run time, zone and time past the target, a run with a restart in which the target is served twice |
| DailyLaws.TargetIsServed | core/server/jobs/daily-scheduler.ts:90-106 | After an unforced tick at or past its target, whatever the zones and settings, the target is served, by this tick or by a run since the last restart that was not before it |
| DailyLaws.DayIsServed | core/server/jobs/daily-scheduler.ts:90-106 | With fixed settings, in every zone whose clock passes the run time and the midnight after it cleanly, that run was for the same target: the day's job has run |
| DailyLaws.RunNowRuns | core/server/jobs/daily-scheduler.ts:86-140 | The next tick to start after a Run-now request is forced: the request is never lost |
| DailyLaws.ReportIsLeastDue | core/server/jobs/daily-scheduler.ts:141-166 | The reported instant is the least one from now on at which `isDailyRunDue` holds, and none is reported exactly when there is none, in every zone whose clock passes today's midnight and the next two run times cleanly |
| Idle.Scheduler.Schedule | core/server/jobs/idle-scheduler.ts:151-160 | Arming replaces any timer, sets `nextRunAt` and the phase, and does nothing once stopped |
| Idle.Scheduler.OnActivity | core/server/jobs/idle-scheduler.ts:163-168 | Activity aborts a body in flight and re-arms the wait |
| Idle.Scheduler.OnRunNow | core/server/jobs/idle-scheduler.ts:169-173 | Run-now arms at once unless stopped or running |
| Idle.Scheduler.OnStop | core/server/jobs/idle-scheduler.ts:177-182 | Stop disarms for good |
| Idle.Scheduler.OnTimer | core/server/jobs/idle-scheduler.ts:123-131 | What a firing does up to the await of its body |
| Idle.Scheduler.OnSettled | core/server/jobs/idle-scheduler.ts:132-149 | What a settling body does: record, then re-arm if aborted or go idle |
| IdleLaws.EveryFiringStarts | core/server/jobs/idle-scheduler.ts:123-126 | The phase guard never holds a firing back: each starts one more body |
| IdleLaws.NonOverlapExactly | core/server/jobs/idle-scheduler.ts:123-160 | At most one body runs throughout if and only if no timer fires while one is in flight |
| IdleLaws.PromptBodiesNeverOverlap | core/server/jobs/idle-scheduler.ts:123-173 | Bodies never overlap when each that activity aborts has settled before the debounce since the latest activity is over, with no Run-now in between |
| IdleLaws.AlwaysCoherent | core/server/jobs/idle-scheduler.ts:105-160 | Without overlap, at every point: scheduled exactly when a timer is armed exactly when `nextRunAt` is set, at its deadline |
| IdleLaws.ActivityReachesBody | core/server/jobs/idle-scheduler.ts:123-168 | Without overlap, activity during a body aborts it and a run stays armed until it settles |
| IdleLaws.ArmedUntilFired | core/server/jobs/idle-scheduler.ts:151-182 | Activity leaves a run armed until a timer fires or the scheduler stops |
| IdleLaws.ArmsWhen | core/server/jobs/idle-scheduler.ts:151-173 | On every run, overlapping or not: activity arms a run for the debounce from then and a Run-now for at once; the latter changes nothing while stopped or in phase running |
| IdleLaws.ArmedStarts | core/server/jobs/idle-scheduler.ts:123-160 | An armed run may fire exactly from its deadline on, and its firing starts a body |
| IdleLaws.SettlesWhen | core/server/jobs/idle-scheduler.ts:132-149 | When a body settles that activity aborted, a run is armed for the debounce from then; any other leaves the timer as it is and the scheduler idle |
| IdleLaws.RunNowKept | core/server/jobs/idle-scheduler.ts:169-173 | A Run-now that is heard is not lost: until a timer fires, activity re-arms or the scheduler stops, a run stays armed no earlier than the request, and at the request's own time so long as nobody asks again and no aborted body settles |
| IdleLaws.RunNowReported | core/server/jobs/idle-scheduler.ts:151-173 | And it is reported as the next run all that time, when no timer fires while a body is in flight |
| IdleLaws.LastOutcomeShown | core/server/jobs/idle-scheduler.ts:132-142 | Until another body settles the status shows time and outcome of the last one |
| IdleLaws.LastReportShown | core/server/jobs/idle-scheduler.ts:106-142 | What a body reports is shown until it reports again or a body settles |
| IdleLaws.QuietBeforeRun | core/server/jobs/idle-scheduler.ts:151-173 | On every run, overlapping or not: no body starts within the debounce time of an activity unless a Run-now came between |
| IdleLaws.NothingAfterStop | core/server/jobs/idle-scheduler.ts:177-182 | No body starts after `stop` |
| IdleLaws.SlowBodyOverlaps | core/server/jobs/idle-scheduler.ts:123-168 | A run with one slow body in which two bodies overlap and the shown phase is wrong |
| Csv.DetectDelimiter | core/features/history/csv.ts:31-43 | The first of the delimiters with the most occurrences in the first line, the comma when none occurs |
| Csv.SniffedExactly | core/features/history/csv.ts:25-43 | Of comma, semicolon, tab and bar the one the first line has most of, and the first of those it has as many of |
| Csv.ParseCsv | core/features/history/csv.ts:49-106 | The character loop computes the specified state machine, for every text and delimiter |
| CsvRoundTrip.ParseOfPrint | core/features/history/csv.ts:49-125 | For every delimiter and table, whatever the cells hold, parsing the printed table gives its rows less the blank ones, with or without a byte-order mark |
| CsvRoundTrip.RoundTripExactly | core/features/history/csv.ts:49-125 | The round trip is exact if and only if header and rows each hold a non-empty cell, or there is neither |
| CsvRoundTrip.SniffedRoundTrip | core/features/history/csv.ts:31-125 | With two or more plain headers the delimiter is sniffed back, so the file parses without being told it |
| HistoryRows.GuessMapping | core/features/history/csv.ts:277-294 | The loop over fields and aliases gives each field the first header that matches its first matching candidate |
| HistoryRows.InvalidConstants | core/features/history/csv.ts:430-446 | The constants refused are exactly those of the specification, in field order |
| HistoryRows.MapCsvRows | core/features/history/csv.ts:454-513 | The loop gives the specified rows, row errors, missing fields and bad constants |
| HistoryRows.ValidExactly | core/features/history/csv.ts:394-423 | A row is coerced exactly when no field's value is refused |
| RowLaws.RowHolds | core/features/history/csv.ts:394-513 | For any file and mapping: a row is imported exactly when the text of every field is one its field accepts, written out by field, and then it holds these texts, ids and dates read and the sender of a user's row only. The text of a field is its fixed value, or the cell under the first header of its column, trimmed, and nothing where the row is short, the header missing or the field unmapped |
| RowLaws.ConstantIsColumn | core/features/history/csv.ts:475-484 | A fixed value has the outcome, row by row, of one more column of a new header that holds it in each row |
| RowLaws.ConstantImports | core/features/history/csv.ts:454-513 | And the whole import is the same, for mappings whose fixed values are accepted |
| RowLaws.FaultsExactly | core/features/history/csv.ts:384-446 | The fixed values refused are those their field does not accept and that of the message id, whatever it is; the fields missing are the five required ones without a source |
| RowLaws.ImportExactly | core/features/history/csv.ts:454-513 | With a fault of the mapping nothing is imported; otherwise the rows accepted come as and in the order they stand in the file, and each other row is an error by line and field |
| HistoryTransfer.CanonicalGuess | core/features/history/csv.ts:277-294 | The exported header maps every field to its own column |
| HistoryTransfer.GuessSound | core/features/history/csv.ts:277-294 | For any headers: a field is put only on a header that names it, no header serves two fields, and a field is left out only when every header that would name it serves another |
| GuessLaws.GuessPrefers | core/features/history/csv.ts:277-294 | Each field guessed is on the first free header, among those not given to earlier fields, that has the first of the field's names any free header has |
| GuessLaws.CaseIgnored | core/features/history/csv.ts:267-270 | Headers are compared without regard to case |
| GuessLaws.MarkIgnored | core/features/history/csv.ts:267-270 | And without regard to any character but the letters and digits of ASCII and what lower-cases to them |
| GuessLaws.HeadersRead | core/features/history/csv.ts:176-253 | The header row of an export reads `chat_ref`, `source_message_id` and so on, nine names in their order |
| HistoryTransfer.RecordReadsBack | core/features/history/csv.ts:454-541 | The same for a single record, whatever the others are |
| HistoryTransfer.ExportImports | core/features/history/csv.ts:454-541 | For any records: export, then sniff, guess, parse and coerce, with the byte-order mark of the download or not, gives no errors and the same records in order, content trimmed and assistant rows without a sender, if and only if each record has a trimmed chat reference, ids made of digits, content within the cap, a trimmed sender if a user's, and dates that read back |
| HistoryTransfer.ForeignIdRefused | core/features/history/csv.ts:400-401 | Every record of a valid chat whose message id is not made of digits is exported and then refused; `HistoryTransfer.ForeignId` is one such id |
| HistoryTransfer.LongContentRefused | core/features/history/csv.ts:406-409 | Every record of a valid chat and id with content over the cap is exported and then refused |
| HistoryTransfer.NoRowLost | core/features/history/csv.ts:454-513 | For any file and mapping, every row becomes exactly one record or one reported line, both in order, and a line is reported exactly when its row is refused |
| HistoryTransfer.AcceptedRoles | core/features/history/csv.ts:348-355 | Looked up in lower case among the aliases and then among the twelve names objects inherit, the role cells accepted are the six aliases and `constructor` and `__proto__` |
| HistoryTransfer.ChatRefExactly | packages/contracts/src/scoped-ref.ts:79-89 | A cell is a chat reference if and only if it is a source id, the word chat and a non-empty id joined by colons |
| HistoryTransfer.UnixTimes | core/features/history/csv.ts:371-381 | An instant from the epoch on reads the same written in seconds and in milliseconds if and only if it is the epoch or lies from 1973 to 5138 |
| Delimited.ParseDelimited | core/features/documents/csv.ts:9-52 | The index loop computes the specified reader, for every text |
| DelimitedLaws.DelimitOfPrint | core/features/documents/csv.ts:9-52 | Reading a printed table gives every record in order, save an empty last line |
| DelimitedLaws.DelimitExactly | core/features/documents/csv.ts:9-52 | The round trip is exact if and only if every record has a cell and the last is not a single empty one |
| DelimitedLaws.LineEndings | core/features/documents/csv.ts:36-41 | Records end alike at a line feed, a carriage return or both, in every text without quotes |
| TwoReaders.ReadersAgree | core/features/documents/csv.ts:9-52 | For every text: the history parser returns what the document reader returns, less the blank records, if and only if quotes only open fields and, of the pieces that lone carriage returns cut a line into, all but one are empty or none holds any text |
| TwoReaders.PrintedAlike | core/features/history/csv.ts:108-125 | Every printed table is such a text |
| TwoReaders.QuotesInside | core/features/documents/csv.ts:31-32 | The family of texts with a pair of quotes inside a field, and what each reader makes of them |
| TwoReaders.ReturnsInside | core/features/documents/csv.ts:36-41 | The family of texts with a carriage return inside a line: two records to one reader, one field to the other |
| Paging.WindowAdvances | core/features/documents/read.ts:66-101 | A window is the rows from its offset on, `hasMore` means it is not empty, and its absence that it reaches the end |
| Paging.WindowSize | core/features/documents/read.ts:54-95 | No window is over 200 rows, 50 are given when no limit is, a limit from 1 to 200 is met while rows last, and any other counts as the nearest of these |
| Paging.TextWindowSize | core/features/documents/read.ts:104-122 | The same for texts, 6 000 characters by default and 20 000 at most, each window the slice from its offset |
| Paging.SheetPicked | core/features/documents/read.ts:66-80 | The sheet read is the first of the name or the one at the index asked for, else the first of all, else an empty one |
| Paging.NumberExactly | core/features/documents/read.ts:84 | A cell is a number exactly when it ends in a digit and holds digits but for a leading minus and one point with a digit before it |
| Paging.NoRowMislaid | core/features/documents/read.ts:80-86 | The first row is either the header or the first of the data |
| Paging.NumbersAreData | core/features/documents/read.ts:80-86 | A first row with a blank cell, or a decimal number in a cell, is data |
| Paging.RowPagesCover | core/features/documents/read.ts:66-101 | Paging with any limits ends within one call a row, and the windows put together are the data, each with header and total |
| Paging.TextPaged | core/features/documents/read.ts:104-146 | Paging a text document with any limits gives its text |
| Paging.PagesAreWindows | core/features/documents/read.ts:129-146 | Each page is one call of `readDocumentWindow` at the offset where the page before ended |
| Paging.ExportPages | core/features/documents/read.ts:66-146 | Paging a printed comma or tab table with a header that looks like one gives header and rows back, in order, whatever the limits, and whether or not a byte-order mark leads |
| Batching.BatchMessages | core/features/history/summary.ts:99-119 | The loop cuts the messages into consecutive batches that fit, none with room for the message after it |
| Batching.WithinBudget | core/features/history/summary.ts:99-119 | Contents and labels of a batch of two or more messages, and 48 characters for each, are within the budget; where a batch ends the next message would have gone beyond it; every message is in one batch, in order |
| Batching.FewestBatches | core/features/history/summary.ts:99-119 | No cut into consecutive batches that fit has fewer batches |
| Batching.ShrinkingNeverFewer | core/features/history/summary.ts:99-119 | A smaller budget never gives fewer batches |
| Batching.OnlyCrowded | core/features/history/summary.ts:99-119 | The result is the only batching that leaves no room before a cut |
| Completion.CompleteTranscriptBatches | core/features/history/server/batched-completion.ts:34-92 | The retry loop ends and returns or throws what the specification says, for every model |
| Completion.EveryMessageOnce | core/features/history/server/batched-completion.ts:34-92 | A run that returns has put each message in exactly one completed batch, in order, and returns for each batch what a call for that very batch answered; it made no fewer batches than the full budget needs and no more than the smallest, within four calls more than there are messages |
| Completion.WithoutOverflow | core/features/history/server/batched-completion.ts:56-91 | A model that never overflows is asked exactly the batches of `batchMessages`, once each |
| Completion.NothingLost | core/features/history/server/batched-completion.ts:56-91 | Completed batches and what is left make up the queue at every end of the loop, and the budget stays between its bounds |
| Completion.GivesUp | core/features/history/server/batched-completion.ts:70-85 | A throwing run was stopped by its last call: an overflow at the smallest budget, or another failure |
| Completion.FiveTries | core/features/history/server/batched-completion.ts:34-92 | A model that overflows at any size is asked exactly five times, and then the run throws |
| Completion.FailsAtOnce | core/features/history/server/batched-completion.ts:70-85 | A call that fails for another reason than size is the last, and the run throws its error |
| XmlLaws.PassOnUnits | core/features/documents/xlsx.ts:78-87 | One whole-text replacement, on any spelled units, is a pass over the units, matches at bare ampersands included |
| XmlLaws.DecodesToMeaning | core/features/documents/xlsx.ts:78-87 | On all well-formed character data the seven passes give its meaning if and only if no ampersand written by number is followed by what the pass after it reads as the rest of a reference; a bad code point throws |
| XmlLaws.DecodesWithoutNumericAmpersand | core/features/documents/xlsx.ts:78-87 | Which holds of all text without a numeric reference to the ampersand |
| XmlLaws.UnescapesEverything | core/features/documents/xlsx.ts:78-87 | Decoding undoes the escaping of the five predefined entities, for every string |
| XmlLaws.ReferencesMean | core/features/documents/xlsx.ts:78-87 | The references to a code point by hexadecimal digits of either case and by decimal ones mean that code point, and the five names their characters |
| XmlLaws.DecodedTwice | core/features/documents/xlsx.ts:84-86 | A family of texts, `&#38;amp;` among them, whose decoding is not what they mean |
| Bytes.Write16 | core/features/documents/test-workbook.ts:20-33 | A 16-bit field is written little-endian in place, the rest of the buffer untouched, and an oversized value refused |
| Bytes.Write32 | core/features/documents/test-workbook.ts:20-44 | The same for 32 bits |
| Zip.ScanForEnd | core/features/documents/xlsx.ts:36-42 | The backwards scan finds the last end signature within the longest comment's reach |
| Zip.ReadCentralDirectory | core/features/documents/xlsx.ts:33-60 | The loop computes the specified entries or failure for every byte string |
| Zip.LocalHeader | core/features/documents/test-workbook.ts:20-25 | The fields of a local header, written in place, or the field that does not fit |
| Zip.CentralHeader | core/features/documents/test-workbook.ts:27-33 | The fields of a central record |
| Zip.EndRecord | core/features/documents/test-workbook.ts:39-44 | The fields of the end record |
| Zip.BuildZip | core/features/documents/test-workbook.ts:11-46 | The writer returns an archive in the sense of the format predicate, and fails exactly when a 16 or 32-bit field cannot hold its number |
| Zip.DirectoryOfArchive | core/features/documents/xlsx.ts:33-60 | Of every archive, whatever extra fields, comments and gaps it has, the reader finds exactly the members, in directory order |
| Zip.EntriesExactly | core/features/documents/xlsx.ts:46-59 | On any bytes the reader goes from record to record as far as they go: it gives the fields of each as they stand, or fails at the first that is none, as out of range or as corrupt |
| Zip.EndExactly | core/features/documents/xlsx.ts:33-45 | Bytes without an end signature among the last 65 557 are no archive; otherwise the last one names the directory |
| Zip.EntryOfArchive | core/features/documents/xlsx.ts:63-73 | And reads each member's data as stored or inflated, or refuses its method |
| Zip.BuildReadsBack | core/features/documents/xlsx.ts:33-73 | Reading what the writer wrote gives each entry's name, method, size, offset and bytes, in order |
| Zip.CommentIgnored | core/features/documents/xlsx.ts:34-43 | A trailing comment without a later end signature changes neither directory nor entries |
| Sheet.ColumnIndex | core/features/documents/xlsx.ts:109-113 | The loop reads a column name as its base-26 number, less one |
| Sheet.ColumnBijection | core/features/documents/xlsx.ts:109-113 | A bijection from the non-empty A to Z names onto the naturals, increasing in shortlex order (section 18.3.1.4 of ECMA-376 part 1) |
| Sheet.SetCell | core/features/documents/xlsx.ts:140-142 | A row is padded to the column and the value set, in place |
| Sheet.SheetRows | core/features/documents/xlsx.ts:116-147 | Grows and overwrites the grid so that it is the dense form of the last value at each place; throws exactly when a row number is zero |
| Sheet.GridUnique | core/features/documents/xlsx.ts:116-147 | That dense form is unique |
| Sheet.PlaceExactly | core/features/documents/xlsx.ts:116-147 | A cell's place in the grid is its row number and column letters, both from zero |
| Sheet.GridMeans | core/features/documents/xlsx.ts:139-145 | In terms of the cells: the last write wins, gaps are empty, rows and sheet end with a written cell |
| Sheet.LastRowWritten | core/features/documents/xlsx.ts:144-145 | The loop that pops trailing empty rows never pops one |
| Chains.TransportIngest.Accept | core/server/ingest/consumer.ts:776-783 | A job links onto the promise its key holds and leaves its own caught run there |
| Chains.TransportIngest.CleanUp | core/server/ingest/consumer.ts:786-788 | The comparison that is meant to delete the key |
| ChainLaws.KeysTellChatsApart | core/server/ingest/consumer.ts:761-765 | Two updates share a chain if and only if they are of one chat of one source |
| ChainLaws.OneAtATime | core/server/ingest/consumer.ts:772-791 | On every run at most one update of a chat is processed at a time, and all before it have settled |
| ChainLaws.StartsExactly | core/server/ingest/consumer.ts:778-783 | An update the worker has picked may start if and only if every earlier one of its chat has settled, well or badly: failures block nothing, and picked updates of different chats do not wait for each other |
| ChainLaws.InArrivalOrder | core/server/ingest/consumer.ts:772-791 | The updates of a chat start in the order they arrived |
| ChainLaws.ChatMovesOn | core/server/ingest/consumer.ts:772-791 | A chat with an unsettled update always has one in progress or able to start |
| ChainLaws.SlotsSuffice | core/server/ingest/consumer.ts:790 | With the worker's limit, never more unsettled updates in hand than slots |
| ChainLaws.NeverStalls | core/server/ingest/consumer.ts:772-791 | The worker never stalls: a slot is free, or an update in hand is in progress or may start |
| ChainLaws.OneChatFillsSlots | core/server/ingest/consumer.ts:772-791 | While the slots are full of updates of one chat nothing can happen, for any chat, but that the earliest of them moves on |
| ChainLaws.FloodFills | core/server/ingest/consumer.ts:772-791 | As many updates of one chat as there are slots bring that about |
| ChainLaws.NothingCleaned | core/server/ingest/consumer.ts:786-788 | In a linked state the clean-up changes nothing |
| ChainLaws.ChainsNeverForget | core/server/ingest/consumer.ts:780-788 | On every run the map of chains only grows |
| Delivery.Ingest.Append | core/server/source-store/repository.ts:168-197 | The insert is new exactly when the key was not there |
| Delivery.Ingest.HandleTransportMessage | core/server/ingest/consumer.ts:286-371 | Mirror first; a known key changes nothing; otherwise turns are enqueued in order up to the first failure |
| Delivery.Ingest.HandleDelivered | core/server/ingest/consumer.ts:575-591 | The same for a delivered message, whose cross-feed skips the targets that fail |
| DeliveryLaws.ReceiversExactly | core/server/ingest/consumer.ts:235-251 | Who gets a turn: of the running and not silenced connections the present ones and the receiving one, in a direct chat the latter alone |
| DeliveryLaws.SelfFirst | core/server/ingest/consumer.ts:239-250 | In a group the receiving connection is put first when its presence is missing, and the order is otherwise that of the event |
| DeliveryLaws.ReceiversInOrder | core/server/ingest/consumer.ts:235-251 | The receivers of a group message are the connections listed that are present and not silenced, each as listed, as often and in that order, behind the receiving one when its presence is missing |
| DeliveryLaws.NoRepeatsExactly | core/server/ingest/consumer.ts:235-251 | No assistant is named twice if and only if the event is direct or lists no present, not silenced assistant twice |
| DeliveryLaws.CrossFeedExactly | core/server/ingest/consumer.ts:466-477 | Exactly whom the cross-feed targets, never the author |
| DeliveryLaws.TargetsInOrder | core/server/ingest/consumer.ts:466-477 | They are the running connections that are present, but for the author, as listed and in that order |
| DeliveryLaws.NoTargetRepeatsExactly | core/server/ingest/consumer.ts:466-477 | No target of the cross-feed is named twice if and only if it is off or the event lists no present assistant but the author twice |
| DeliveryLaws.AtMostOneTurn | core/server/ingest/consumer.ts:286-371 | On every interleaving of deliveries, redeliveries, failures and crashes of updates whose own lists name no possible receiver twice, no assistant gets two turns for one source and dedupe key |
| DeliveryLaws.RedeliveryChangesNothing | core/server/ingest/consumer.ts:301-305 | A second delivery under a mirrored key changes nothing, whenever it comes |
| DeliveryLaws.AbandonedEnds | core/server/ingest/consumer.ts:365-371 | A handler that died opens no turn any more |
| DeliveryLaws.MirroredFirst | core/server/ingest/consumer.ts:286-371 | Every enqueued turn is of a message that is mirrored |
| DeliveryLaws.EnqueuesAll | core/server/ingest/consumer.ts:365-371 | An undisturbed handler opens its receivers' turns, in order, and no others |
| DeliveryLaws.FeedsSurviving | core/server/ingest/consumer.ts:495-571 | A cross-feed opens the turns of exactly the targets that did not fail, in order |
| DeliveryLaws.OneTurnExactly | core/server/ingest/consumer.ts:365-371 | The condition is exact, for messages and deliveries alike: taken up afresh an update opens no turn twice if and only if its own list names no possible receiver twice |
| Columns.CheckColumns | core/features/collections/columns.ts:50-127 | The loop computes the specified schema or refusal, in the order of the checks |
| Columns.NormalizeValues | core/features/collections/columns.ts:212-238 | The loop computes the specified row or the first refusal |
| Columns.ReshapeValues | core/features/collections/columns.ts:287-294 | The loop gives each column's value or null, and nothing else |
| ColumnLaws.AcceptedIsNormal | core/features/collections/columns.ts:145-204 | Every accepted value is in the normal form of its column type, for all ten types |
| ColumnLaws.NormalIsKept | core/features/collections/columns.ts:145-204 | Every normal form is accepted unchanged |
| ColumnLaws.NormalizeTwice | core/features/collections/columns.ts:145-204 | So normalizing a value is a projection |
| ColumnLaws.StoredAlike | core/features/collections/columns.ts:145-204 | Two filled texts a column accepts are stored as one value if and only if they mean the same to its type: for lists, that as many of their pieces hold something and those of one rank read alike, trimmed |
| ValueLaws.OptionTaken | core/features/collections/columns.ts:182-187 | An enum column takes a value exactly when an option reads alike in lower case, trimmed if a text, the first such is not empty, and that option is what is stored |
| ValueLaws.NumberTaken | core/features/collections/columns.ts:152-157 | A number column takes exactly what reads as a finite number, and stores the number |
| ValueLaws.RatingTaken | core/features/collections/columns.ts:188-194 | A rating column takes exactly what reads as a number from 0 to its scale, 10 unless it has one |
| ValueLaws.DateTaken | core/features/collections/columns.ts:158-166 | A date column takes exactly the texts that parse, and stores a bare date as it is and any other as the instant it names |
| ValueLaws.UrlTaken | core/features/collections/columns.ts:129-143 | A url or image column takes exactly the texts that are URLs of the http or https scheme, and stores their normal form |
| ValueLaws.BooleanTaken | core/features/collections/columns.ts:195-204 | A boolean column takes exactly booleans and eight words, in any case |
| ValueLaws.TextTaken | core/features/collections/columns.ts:147-151 | A text column takes texts, numbers and booleans as text up to its length, untrimmed, and stores them trimmed |
| ValueLaws.ListTaken | core/features/collections/columns.ts:171-180 | A list column takes lists and texts of up to 200 items that hold something, and stores these |
| ValueLaws.ListOnly | core/features/collections/columns.ts:171-180 | A list column takes nothing else |
| ValueLaws.NothingTaken | core/features/collections/columns.ts:145-147 | What says nothing is stored as null, whatever the column |
| ValueLaws.RowExactly | core/features/collections/columns.ts:212-238 | A row holds for each column the value accepted, null for a gap of a full write or nothing for one of a partial write, and no more; or it is refused for the first column whose value is |
| ColumnLaws.SplitExactly | core/features/collections/columns.ts:171-176 | A list text splits into the only pieces without a separator that make it up with separators between them |
| ColumnLaws.ItemAt | core/features/collections/columns.ts:171-180 | The items are the pieces that hold something, trimmed, each at its rank among them |
| ColumnLaws.OptionFound | core/features/collections/columns.ts:181-187 | An option is found if and only if one reads alike in lower case, and it is the first |
| ColumnLaws.RenderReadsBack | core/features/collections/columns.ts:268-273 | A stored value, rendered, is accepted back as itself if and only if it is no list with a separator inside an item |
| ColumnLaws.AcceptedIsSchema | core/features/collections/columns.ts:50-127 | Accepted columns are a schema: 1 to 64, distinct keys, trimmed labels and options, sane scales, exactly one keyable key column |
| ColumnLaws.SchemaIsKept | core/features/collections/columns.ts:50-127 | Every schema is accepted unchanged |
| ColumnLaws.CheckTwice | core/features/collections/columns.ts:50-127 | So checking columns is a projection |
| ColumnLaws.CheckedColumnExactly | core/features/collections/columns.ts:60-115 | A proposed column is accepted if and only if the column it describes is valid and its key new |
| ValueLaws.SchemaExactly | core/features/collections/columns.ts:50-127 | Proposals are accepted exactly when there are 1 to 64 of them and they describe, one for one and in order, valid columns with keys of their own, one of which is the key column |
| ValueLaws.SchemaRefused | core/features/collections/columns.ts:50-127 | Otherwise the first proposal that does not stand names the reason, or else that there is no key column or a second one |
| ValueLaws.ScaleExactly | core/features/collections/columns.ts:102-107 | A scale is 10 when none is given, and otherwise exactly the whole number from 1 to 1000 that the value reads as |
| ValueLaws.KeysBounded | core/features/collections/columns.ts:65-71 | Keys are 1 to 64 characters, a letter first |
| ValueLaws.UniqueExactly | core/features/collections/columns.ts:92-101 | Options are listed once each, in the order of their first mention |
| ColumnLaws.OneKeyColumn | core/features/collections/columns.ts:246-250 | `keyColumnOf` never throws on an accepted schema and finds its only key column |
| ColumnLaws.FullWriteIsReshapedPartial | core/features/collections/columns.ts:212-294 | A full write is the partial write reshaped, and one is refused exactly when the other is, for the same reason |
| ColumnLaws.WriteTwice | core/features/collections/columns.ts:212-238 | A full write gives a complete row of normal values, and writing it again, in full or in part, changes nothing |
| ColumnLaws.CompleteMeansNoGaps | core/features/collections/columns.ts:241-265 | `isComplete` holds exactly when `gapsOf` is empty, and the gaps are exactly the required columns without a value |
| ColumnLaws.RowKeys | core/features/collections/columns.ts:253-258 | A stored row has a row key, and a non-empty one, exactly when its key column is filled; the key is the text the value of that column shows |
| ColumnLaws.ConstructorColumn | core/features/collections/columns.ts:228-236 | A full write leaves a column it is not given null if and only if the column is not called `constructor`, for all ten types |
| ColumnLaws.InheritedKeys | core/features/collections/columns.ts:228-236 | Of the twelve names objects inherit only `constructor` has the shape of a column key |
| ColumnLaws.GapsStayGaps | core/features/collections/columns.ts:212-238 | A full write of acceptable values leaves exactly its gaps null if and only if the schema has no column `constructor` or the write gives it |

## Left out

- PeriodTheorems.PeriodMembership: ends the clock skips or repeats are left to `RangeStartsExactly` and `SkippedMidnight`, which say what the range is then.
- Boundaries.SplitsExactly: one change of offset within a day either way; `Schedule.WallClockExact` covers any zone.
- NextRun.NextRunIsLeast: run times that the clock skips or repeats are left to `Boundaries.WhereTheyLand`; `from` is in a year of four digits.
- DailyLaws.ReportIsLeastDue: fixed settings, and, unless the job is due now, run times that the clock neither skips nor repeats.
- PeriodKeys.KeyOrder: years 1000 to 9999, where every key has the same width; the same range bounds the other theorems about printed keys.
- CalendarGrid.MonthGrid: months whose keys have a four-digit year.
- HistoryTransfer.ExportImports: the date text is any print and parse pair, and its round trip part of the condition; lower-casing is ASCII and the two other characters that lower-case into it.
- XmlLaws.DecodesToMeaning: character data in which each ampersand starts a reference; what the decoder makes of a stray ampersand in malformed text is not characterized.
- Sheet.SheetRows: starts from the column letters, row number and value of each cell; finding them in the XML is not modelled.
- Chains.TransportIngest.Accept: begins when the queue hands the job over, in whatever order it does; the worker's limit is a condition on runs in `ChainLaws`, not part of the method.
- Delivery.Ingest.HandleTransportMessage: begins at the mirror insert; presence stamps, media storage and the content of the turn event are not modelled, and feedback capture and self-link codes are one answer of the store.
- Delivery.Ingest.HandleDelivered: storing the images between insert and cross-feed is not modelled.
- DeliveryLaws.AtMostOneTurn: at most one, not exactly one: a crash between mirror and enqueue loses the remaining turns by design.
- The messages of errors and refusals: only their kinds are modelled.
- A character of the model is one UTF-16 code unit; surrogates, which characters of the language exclude, do not occur in its strings.
- Dates outside the range of `Date`, and the `Intl` zone data behind an offset function.
- The sign of zero, and how a number is rounded to a double; the doubles themselves are modelled.
- PeriodTheorems.StepsEarly: steps before year 0, whose keys have a sign, are not modelled.
- Period.ReadYmd: only digit parts of an anchor are read; `Number` reads a few others, such as `1e3`.
- A row offset that is not finite, in `read.ts`.
- The status snapshots and change notifications of the schedulers beyond the fields listed.
- Sheet lists, relationships and shared strings of a workbook, and how a cell's type picks its value.
- Import limits on rows and characters, enforced outside the parser.
- Repositories, queues and locks of Postgres and Redis, beyond the unique-key insert.
- Prompts, model and speech clients, user interface and label formatting: no property of this kind.
