# clocker work-time tracker: a Dafny model of its core

This project models the rules at the heart of the clocker work-time tracker.
It covers the following parts:

- **Time logs.** Per-log validity, the overlap test, and list validation,
  which sorts the logs and rejects overlaps and open-ended logs. Also the
  work-duration and pause totals of an entry.
- **Time-log editing.** Adding, updating and removing a log at an index,
  each followed by validating the list again, with typed errors.
- **Compliance and statistics.** Flextime, the maximum-hours rule, the
  tiered break rule and the rest period between two days, plus the single
  pass that counts entry types and sums hours and violations.
- **Calendar rules.** The work-day test, month ranges, inclusive date
  iteration, and creating and removing entries in the date-keyed store.
- **Display.** The signed "HH:MM" rendering of durations and times of day.
- **Calendar and statistics pages.** Month navigation and the twelve month
  grids of a year.
- **Entry endpoints.** How `create_entry`, `update_entry` and `copy_entry`
  merge request logs with stored logs, and which status each failure
  becomes. Also what the store holds afterwards.

**Representation.**

- A time of day is whole seconds since midnight. A duration is signed whole
  seconds.
- A date is its proleptic Gregorian ordinal, as Python's `date.toordinal`
  gives it (0001-01-01 is 1). `Dates` converts ordinals to and from
  (year, month, day) and proves the two conversions inverse.
- The repository is a `map<Date, CalendarEntry>`. Every operation that
  changes it returns the new map.
- Python exceptions become `Result`/`Option` values. The time-logger edits
  append to and sort `entry.logs` in place before they raise. They
  therefore return the list as the call leaves it together with the error,
  if any.

Modules, one per source file:

- `Timely`: `app/utils/timely.py`.
- `Model`: `app/model.py`.
- `TimeLogger`: `app/services/time_logger.py`.
- `Statistics`: `app/services/statistics.py`.
- `CalendarService`: `app/services/calendar.py`.
- `Display`: `app/services/display.py`.
- `CalendarView`: `app/routes/web/calendar.py`.
- `StatisticsView`: `app/routes/web/statistics.py`.
- `EntriesApi`: `app/routes/api/entries.py`.
- `Dates` and `Wrappers` are support modules.

**Where the code and its documentation differ, the model follows the code:**

- `calculate_flextime` has a FLEXTIME branch that can never run. A FLEXTIME
  entry has no duration, so the function returns None for it.
- The request models run `validate_log` while the body is parsed. The
  handlers therefore see only request logs that pass it; any other request
  is answered 422. Logs built by `add_time_log` and `update_time_log` are
  not checked on their own there; only the list is validated.
- Building the response (`CalendarEntryResponse.model_validate`) runs
  `validate_log` again on every saved log. An update that keeps an old
  pause which no longer fits passes the list validation, is saved, and then
  fails here. That `ValidationError` is not a `TimeLogError`: `update_entry`
  does not catch it, so the answer is 500 with the entry saved. In
  `copy_entry` it is a `ValueError`, so the answer is 400 with the target
  saved.
- In the `create_entry` endpoint, the `ValueError` that
  `Calendar.create_entry` raises for a WORK entry on a weekend is not
  caught. That request is answered 500.
- In `copy_entry`, a `TimeLogError` while adding the copied logs is answered
  500. The empty target entry stays stored.
- In `update_entry`, a request log whose id is 0 is added as new, because
  `log.id and ...` treats 0 as false.
- `update_time_log` keeps the old pause when the new pause is zero, because
  `pause or log.pause` treats a zero duration as false.

## Model

| member | source | states |
|---|---|---|
| Timely.Delta | app/utils/timely.py:6-17 | the same-day difference is non-negative iff start <= end, zero iff the times are equal, under one day in size, and adding it to start gives end |
| Timely.DeltaSelf | app/utils/timely.py:17 | delta(t, t) is zero |
| Timely.DeltaAntisymmetric | app/utils/timely.py:17 | delta(a, b) = -delta(b, a) |
| Timely.DeltaAdditive | app/utils/timely.py:17 | delta(a, b) + delta(b, c) = delta(a, c) |
| Model.ValidateLog | app/model.py:52-73 | each of the three errors is raised exactly when its condition holds (open-ended non-WORK; start after end; pause longer than the span); a valid log is returned unchanged |
| Model.LogDuration | app/model.py:89-93 | an open-ended log lasts zero; otherwise start + duration + pause = end |
| Model.ValidLogDuration | app/model.py:89-93 | a log that passed validate_log, with a non-negative pause, has a duration between zero and its span |
| Model.OverlapIsSharedTime | app/model.py:202-208 | for non-empty intervals the three-disjunct test holds exactly when the intervals share time, so it is symmetric |
| Model.TouchingDoesNotOverlap | app/model.py:202-208 | one interval ending exactly where the next starts is not an overlap, in either order |
| Model.PartialOverlapOverlaps | app/model.py:202-208 | a partial overlap counts, in either order |
| Model.ContainmentOverlaps | app/model.py:207 | an interval that contains another overlaps it |
| Model.InsertByStart | app/model.py:230 | inserting into a start-sorted list keeps it sorted and adds exactly the one log |
| Model.SortByStart | app/model.py:230 | the sort by start returns a permutation of its input, sorted by start |
| Model.SortSortedIsIdentity | app/model.py:230 | sorting a list that is already sorted by start changes nothing |
| Model.PairError | app/model.py:232-244 | one pair passes exactly when both logs are closed and do not overlap |
| Model.ScanPairs | app/model.py:231-244 | scanning the pairs in combinations order finds no error exactly when every remaining pair passes; an overlap error implies two closed logs that overlap, an open-ended error implies an open-ended log |
| Model.SortedInPlace | app/model.py:227-230 | the list left behind is a permutation of the input, sorted by start |
| Model.ValidateTimeLogs | app/model.py:227-246 | a one-log list is returned untouched; otherwise success happens exactly when no pair of the sorted list conflicts, and the result is that sorted permutation; each error kind has a witness |
| Model.ValidListPassesUnchanged | app/model.py:227-246 | a sorted list without conflicts passes validation and comes back unchanged |
| Model.OpenEndedAmongSeveralFails | app/model.py:231-236 | with two or more logs, a single open-ended log makes validation fail |
| Model.OpenEndedErrorWithoutOverlap | app/model.py:231-244 | when no two closed logs overlap, that failure is the open-ended error |
| Model.WorkLogs | app/model.py:278 | the filtered list holds only WORK logs of the input and is no longer than it |
| Model.WorkLogsContents | app/model.py:278 | every WORK log of the input is kept, as often as it occurs, and no other log is |
| Model.WorkLogsAppend | app/model.py:278 | the filter keeps list order: filtering a concatenation concatenates the filtered parts |
| Model.WorkTotal | app/model.py:256-260 | the loop total equals the sum of the durations of the WORK logs |
| Model.CalculateDuration | app/model.py:249-260 | None exactly for non-WORK entries; otherwise the sum of the durations of the WORK logs only |
| Model.WorkAndPauseFillSpan | app/model.py:278-290 | for closed logs, durations plus pauses plus the gaps between consecutive logs fill the time from the first start to the last end |
| Model.CalculatePauseTime | app/model.py:275-290 | None exactly for non-WORK entries; with closed WORK logs, work plus pause equals the time from the first WORK start to the last WORK end, so gaps and intervening TRAVEL time count as pause; a WORK entry without WORK logs has zero pause |
| TimeLogger.ValidateIndex | app/services/time_logger.py:31-39 | rejects an empty list and an index at or past the end, and nothing else; negative indices pass |
| TimeLogger.ResolveIndex | app/services/time_logger.py:99 | Python indexing: a negative index counts from the end, and an index below minus the length finds nothing |
| TimeLogger.Revalidate | app/services/time_logger.py:66-72 | the list is left sorted in place, and the error is raised exactly when validate_time_logs fails, carrying its cause |
| TimeLogger.AddTimeLog | app/services/time_logger.py:61-72 | a non-WORK entry raises and keeps its logs; otherwise the result is the old logs plus the new log, sorted, and it raises exactly when the grown list has a conflict, carrying the cause validate_time_logs gives; success adds exactly one log |
| TimeLogger.AddToEmptyWorkEntrySucceeds | app/services/time_logger.py:66-69 | the first log of a WORK entry is always accepted, even with start after end or an oversized pause |
| TimeLogger.AddOpenEndedRaises | app/services/time_logger.py:66-72 | adding next to an existing log raises when either the new log or the first stored log is open-ended |
| TimeLogger.SharedTimeFails | app/model.py:238-244 | two distinct closed logs that share time make validation fail wherever the sort puts them |
| TimeLogger.AddOverlappingRaises | app/services/time_logger.py:66-72 | adding a log that shares time with a stored log raises the overlap error |
| TimeLogger.UpdatedLog | app/services/time_logger.py:99-103 | the id is kept; None keeps a field; a zero pause keeps the old pause; the log ends up open-ended only if it was and no end is given |
| TimeLogger.UpdateTimeLog | app/services/time_logger.py:96-108 | index errors leave the list alone; Python's IndexError below minus the length is distinct; otherwise the list is a sorted permutation of the list with the one log changed, and it raises exactly when that changed list fails validate_time_logs, carrying its cause |
| TimeLogger.UpdateOnlyLogSucceeds | app/services/time_logger.py:96-108 | updating the only log of an entry never raises, whatever the new fields |
| TimeLogger.ClosedSharedTimeIsOverlap | app/model.py:238-244 | a list of closed logs in which two distinct logs share time fails with the overlap error |
| TimeLogger.UpdateIntoOverlapRaises | app/services/time_logger.py:96-108 | moving a log of a closed list onto the time of another log raises the overlap error |
| TimeLogger.UpdateKeepsLogsClosed | app/services/time_logger.py:102 | if every log had an end, every log still has one after any update |
| TimeLogger.NoChangeUpdateIsIdentity | app/services/time_logger.py:100-105 | an update with no arguments, or only a zero pause, leaves a valid list exactly as it was |
| TimeLogger.RemoveAt | app/services/time_logger.py:125 | deleting the log at a position (the one `list.remove` finds): the logs before it stay, and the ones after move down by one |
| TimeLogger.FirstIndexOf | app/services/time_logger.py:125 | the position of the first log equal to the given one: it holds that log and no earlier position does |
| TimeLogger.RemoveTimeLog | app/services/time_logger.py:121-129 | index errors leave the list alone; otherwise exactly one copy of the indexed log leaves the multiset, namely the first log equal to it, and it raises exactly when the list without that first equal log fails validate_time_logs, carrying its cause |
| TimeLogger.ValidListRemovesAtIndex | app/services/time_logger.py:124-125 | in a valid list no two logs are equal, so `list.remove` removes the log at the index itself |
| TimeLogger.RemoveDropsFirstEqualLog | app/services/time_logger.py:124-126 | from [x, y, x] with an empty 08:00 log x and y 08:00-09:00, removing index 2 removes position 0 and raises the overlap error |
| TimeLogger.RemoveAtKeepsValid | app/services/time_logger.py:124-126 | removing one log from a sorted conflict-free list keeps it sorted and conflict-free |
| TimeLogger.RemoveFromValidListSucceeds | app/services/time_logger.py:121-129 | removing from a valid list never raises, and the others keep their order |
| Statistics.CalculateFlextime | app/services/statistics.py:83-92 | a value exactly for WORK entries (FLEXTIME included in the None case); the value plus the standard day is the day's work |
| Statistics.DailyCompliance | app/services/statistics.py:183-217 | at most two violations, dated the entry's day; MAX_HOURS iff work is strictly above the maximum; BREAK_TIME iff the tier's required break is not taken; MAX_HOURS comes first |
| Statistics.TenHoursIsCompliant | app/services/statistics.py:188-215 | with the defaults, exactly 10 h with the 45 min break taken is compliant |
| Statistics.OverTenHoursViolates | app/services/statistics.py:188-195 | one second over 10 h is a MAX_HOURS violation |
| Statistics.CheckRestPeriod | app/services/statistics.py:232-263 | no violation without WORK logs on both days; an open-ended last WORK log is a violation dated the previous day; otherwise a violation dated the current day iff the rest is below the minimum |
| Statistics.RestIgnoresTravel | app/services/statistics.py:232-241 | dropping the TRAVEL logs of both entries does not change the rest check |
| Statistics.ExactMinimumRestIsEnough | app/services/statistics.py:256 | exactly 11 h of rest is not a violation |
| Statistics.ComplianceCheck | app/services/statistics.py:107-116 | nothing for non-WORK entries; otherwise the daily violations followed by the rest violation, present iff a previous entry is given and violates |
| Statistics.CalculateStatistics | app/services/statistics.py:128-170 | each count is the number of entries of its type and they sum to the number of entries; travel counts entries with a TRAVEL log; the total is the work of the WORK entries; the balance is total minus (#WORK + #FLEXTIME) standard days; violations are those of checked entries against the entry just before |
| Statistics.ViolationsComeFromCheckedEntries | app/services/statistics.py:152-159 | every reported violation is dated the day of a WORK entry with non-zero work, or the day before it |
| Statistics.EmptyStatistics | app/services/statistics.py:128-131 | no entries give zero counts, zero hours and no violations |
| Dates.DaysInMonth | app/services/calendar.py:39 | months have 28 to 31 days; February has 29 exactly in leap years |
| CalendarService.KnownMonday | app/services/calendar.py:26 | 2024-11-18 is a Monday, weekday 0 and a work day, and the Saturday after it is not a work day, as Python's `weekday` has it |
| CalendarService.MonthRange | app/services/calendar.py:29-40 | defined exactly for years 1..9999 and months 1..12; the first and last dates of the month, spanning its length |
| CalendarService.FebruaryLengths | app/services/calendar.py:39 | February has 29 days in 2000 and 2024 and 28 in 1900 and 2023 |
| CalendarService.DaysFrom | app/services/calendar.py:277-279 | the k-th date is start + k, end - start + 1 of them |
| CalendarService.Iterate | app/services/calendar.py:272-279 | refuses end < start; otherwise end - start + 1 consecutive ascending dates from start to end, containing exactly the dates in between |
| CalendarService.KeepWorkDays | app/services/calendar.py:291-293 | keeps exactly the work days, and an ascending input stays ascending |
| CalendarService.Workdays | app/services/calendar.py:281-293 | refuses end < start; otherwise exactly the work days of the range, ascending |
| CalendarService.CreateEntry | app/services/calendar.py:126-133 | a taken day is refused first, then a WORK entry on a weekend; success adds exactly one empty entry and changes nothing else |
| CalendarService.FreeDays | app/services/calendar.py:153-158 | keeps exactly the days without entry, none for WORK, and keeps the order |
| CalendarService.EmptyEntries | app/services/calendar.py:158 | one empty entry of the type per day, in order |
| CalendarService.CreateEntries | app/services/calendar.py:150-160 | refuses end < start; otherwise creates, ascending, exactly the empty entries for the free work days of the range, none for WORK, and the store gains exactly those |
| CalendarService.RemoveEntry | app/services/calendar.py:196-205 | refuses a day without entry; otherwise returns its entry and the store loses exactly that day |
| CalendarService.RemoveUndoesCreate | app/services/calendar.py:196-205 | removing the entry just created restores the store and hands back the created entry |
| CalendarService.StoredDays | app/services/calendar.py:217 | exactly the stored days of the range, ascending |
| CalendarService.EntriesOf | app/services/calendar.py:217-221 | one entry per given day, in order, and every given day's entry is among them |
| CalendarService.OutsideRange | app/services/calendar.py:222 | keeps exactly the stored days outside the range, with their entries; nothing changes when no stored day is inside |
| CalendarService.RemoveEntries | app/services/calendar.py:217-229 | returns one stored entry per stored day of the range, each stored day's entry among them; the store loses exactly those days; an empty range changes nothing |
| Display.Pad2 | app/services/display.py:8 | at least two digits that read back as the number; exactly two below 100; a longer text has no leading zero |
| Display.HourDigitsUnique | app/services/display.py:8 | a number has exactly one text of at least two digits without a leading zero beyond the padding |
| Display.CanonicalClockUnique | app/services/display.py:4-8 | two clock texts in that form that read back the same are the same text |
| Display.ClockText | app/services/display.py:4-8 | reads back as (seconds div 3600, minutes of the hour) and is in canonical form; five characters exactly below 100 hours |
| Display.ClockTextTruncates | app/services/display.py:5-7 | the hours and minutes shown are the duration rounded down to a whole minute |
| Display.FormatTimedelta | app/services/display.py:80-85 | "" exactly for None; otherwise a canonical signed text reading back as the sign, hours and minutes of the duration |
| Display.FormatTimedeltaIsTheOnlyReading | app/services/display.py:80-85 | the shown text is the only canonical signed text with that reading, so the text is fixed by the duration |
| Display.FormatTime | app/services/display.py:64-66 | "" exactly for None; otherwise five characters reading back as the hour (below 24) and minute |
| Display.MidnightIsShown | app/services/display.py:64-66 | midnight is shown as "00:00", not as "" |
| Display.SmallPads | app/services/display.py:8 | 0 and 1 are padded to "00" and "01" |
| Display.SubMinuteSecondsDropped | app/services/display.py:5-8 | ninety seconds show as "00:01" |
| Display.IsWeekend | app/services/display.py:28 | a weekend day is exactly a day that is not a work day |
| CalendarView.FirstOfMonth | app/routes/web/calendar.py:102-110 | the date is the first day of the given month |
| CalendarView.MonthsAround | app/routes/web/calendar.py:102-112 | refused only before January of year 1 and after December of 9999; January steps back to December of the year before, December forward to January of the next year, other months stay in the year |
| CalendarView.AdjacentMonths | app/routes/web/calendar.py:91-112 | the same, read from the input's month and year |
| CalendarView.MonthNeighbours | app/routes/web/calendar.py:102-110 | the previous month ends the day before this month starts, and the next month starts a month's length after it |
| CalendarView.AdjacentMonthsAreNeighbours | app/routes/web/calendar.py:102-112 | the previous result plus its month's length is this month's first day, and the input lies before the next result |
| CalendarView.AdjacentMonthsIgnoreDay | app/routes/web/calendar.py:102-110 | inputs in the same month give the same results |
| StatisticsView.Offset | app/routes/web/statistics.py:107 | the offset is a weekday, 0..6 |
| StatisticsView.MonthCells | app/routes/web/statistics.py:103-120 | offset blanks, then one cell per day 1..n in order, offset + n cells in all |
| StatisticsView.CellsSitInWeekdayColumns | app/routes/web/statistics.py:107-118 | each day cell's weekday equals its position mod 7 |
| StatisticsView.AllMonths | app/routes/web/statistics.py:101-123 | defined exactly for years 1..9999; twelve months numbered 1..12 in order, each with its grid |
| StatisticsView.DayShownInItsMonth | app/routes/web/statistics.py:110-120 | every date of the year appears in its month, right after the blanks, showing its stored entry |
| EntriesApi.IndexOfId | app/routes/api/entries.py:206 | finds a position holding the id, and finds none exactly when no log carries it |
| EntriesApi.DropUnrequested | app/routes/api/entries.py:198-200 | keeps exactly the logs without id or with an id the request mentions |
| EntriesApi.DroppedIds | app/routes/api/entries.py:194-200 | the ids left are the stored ids that the request mentions |
| EntriesApi.AddOne | app/routes/api/entries.py:212 | a non-WORK entry raises; success is the old logs plus the new one, valid |
| EntriesApi.UpdateOne | app/routes/api/entries.py:206-209 | success is the logs with the one log changed, valid |
| EntriesApi.ApplyOne | app/routes/api/entries.py:203-212 | ids are kept; an update keeps the count and a new log adds one; some log then shows the request log, with its id for an update and without one for a new log |
| EntriesApi.ApplyRequestLogs | app/routes/api/entries.py:203-212 | only TimeLogErrors or a missing stored log stop the loop; with no known ids only TimeLogErrors do; on a non-WORK entry the first added log fails |
| EntriesApi.ApplyFindsStoredLogs | app/routes/api/entries.py:204-206 | when every known id the request updates is carried by a log, no lookup fails |
| EntriesApi.ApplyKeepsIds | app/routes/api/entries.py:203-212 | a loop that runs through keeps the ids, grows by the number of new logs and ends valid |
| EntriesApi.ApplyReflectsLast | app/routes/api/entries.py:203-212 | some log then shows the last request log |
| EntriesApi.ApplyOnlyAdds | app/routes/api/entries.py:152-153 | adding only, a loop that runs through yields the stored logs plus one new log per request log |
| EntriesApi.AddRequestLogs | app/routes/api/entries.py:152-153 | only TimeLogErrors arise; a non-WORK entry with logs fails; success is the entry's logs plus one new log per request log, valid |
| EntriesApi.NewLogsPassResponse | app/routes/api/entries.py:17-35 | logs added from request logs that passed validate_log pass it again when the response is built |
| EntriesApi.CreateEntryApi | app/routes/api/entries.py:143-160 | 422 iff a request log is invalid; 409 iff the day is taken; 500 iff a WORK entry on a weekend; 400 for logs on a non-WORK entry; every failure leaves the store as it was; success stores one new entry of the type holding exactly the request's logs, valid, and passing the response check |
| EntriesApi.ReconcileUpdate | app/routes/api/entries.py:193-212 | only a TimeLogError stops the loop; with no request logs only the id-less stored logs stay; the ids left are the stored ids the request mentions, and the logs are valid |
| EntriesApi.LoopOnlyRaises | app/routes/api/entries.py:203-212 | when every update finds its log, only a TimeLogError stops the loop |
| EntriesApi.UpdateEntryApi | app/routes/api/entries.py:179-220 | 422 iff a request log is invalid; 404 iff no entry; 400 leaves the store; 500 saves the entry with the new type and a log that fails the response check, nothing else changing; success passes the response check; a change to a non-WORK type empties the logs; otherwise the ids left are the stored ids the request mentions, and the logs are valid |
| EntriesApi.UpdateWithoutLogsSucceeds | app/routes/api/entries.py:186-215 | with no request logs an update of stored logs succeeds on every stored day, weekend or not, and leaves no logs, so no weekend rule applies |
| EntriesApi.ShortenedLogKeepsOldPause | app/routes/api/entries.py:203-215 | a stored 08:00-12:00 log with a 1 h pause, updated to 08:00-08:30 with pause 0, keeps the 1 h pause, is saved, and the answer is 500 |
| EntriesApi.CopyInto | app/routes/api/entries.py:248-263 | 400 with the store unchanged exactly when the target is taken or a WORK copy falls on a weekend; otherwise success passing the response check, or 500 with the empty target left stored, or 400 with the target saved holding a log that fails the response check |
| EntriesApi.CopyOfValidLogsPassesResponse | app/routes/api/entries.py:248-259 | when every source log passes validate_log, the copy answers 400 exactly when the target is taken or a WORK copy falls on a weekend |
| EntriesApi.CopyIntoCopiesLogs | app/routes/api/entries.py:248-252 | a successful copy holds one new log per source log, with its type, start, end and pause, valid |
| EntriesApi.CopyEntryAsWritten | app/routes/api/entries.py:239-263 | a missing source is answered 500 with the store unchanged; an existing source is copied into the target |
| EntriesApi.CopyEntry | app/routes/api/entries.py:239-245 | 404 exactly for a missing source, with the store unchanged; an existing source is copied into the target |
| EntriesApi.CopyNeverAnswersNotFound | app/routes/api/entries.py:239-263 | the as-written handler never answers 404, and a missing source gives 500 |
| EntriesApi.CopyVersionsAgreeOnExistingSource | app/routes/api/entries.py:239-263 | the two versions agree exactly when the source exists |
| EntriesApi.VacationRangeCheck | app/routes/api/entries.py:310-314 | refuses exactly when the end lies before the start, and the refusal is 400 |
| EntriesApi.VacationRangeCheckMatchesIterate | app/routes/api/entries.py:339-343 | the range check accepts exactly the ranges that Calendar.iterate accepts |

## Left out

- Microseconds and the float from `total_seconds()`: times and durations are whole seconds. The day `delta` combines with has no effect on the result.
- Error and violation message texts, logging, HTTP response shaping, async sessions and database wiring.
- Public holidays (`add_public_holidays`, the holiday backfill): they depend on the `holidays` library, which is not visible.
- `get_available_vacation_dates` and `create_vacation_entries`: the source of both is not available. Only the range checks of the two vacation endpoints are modelled.
- Locale names from `strftime`: weekday names, month names and grid labels.
- Database id assignment: a log added by `add_time_log` keeps id None in the model.
- EntriesApi.IndexOfId: finds the first log that carries the id. The source's id map keeps the last one, and `entry.logs.index` then finds the first equal log. The two agree when stored ids are distinct, which the database's primary key ensures.
- The order of the list `remove_entries` returns comes from the repository; the model returns it ascending by day.
- `reset_entry` and the rollback are modelled as "the store is as before the request"; what the session does with the Python objects is left out.
- Model.SortByStart: the stability of `list.sort` is not proved; the contract states a sorted permutation.
- Model.ValidateTimeLogs: the contract gives a witness for each error kind. Which pair decides the error is stated by Model.ScanPairs.
- Model.CalculatePauseTime: the contract states the work-plus-pause identity for closed WORK logs. With an open-ended WORK log the total is not stated.
- TimeLogger.UpdateTimeLog and TimeLogger.RemoveTimeLog: the result is stated as a multiset, not as a sequence.
- Log equality for `list.remove` is taken as equality of all fields (id, type, start, end, pause); the ORM instance state plays no part.
- EntriesApi.ApplyReflectsLast: only the last request log is shown reflected, because a later request log may update the log of an earlier one.
- EntriesApi.UpdateEntryApi: the contract states the ids and validity of the logs left, not their full contents.
- EntriesApi.CreateEntryApi: 400 is stated for logs on a non-WORK entry. For a WORK entry the 400 cases are the list-validation failures, which the contract does not enumerate.
- Display.FormatTimedelta: the examples "-08:30" and "100:30" are not proved as concrete strings; the readback contract and Display.FormatTimedeltaIsTheOnlyReading fix the text.
- EntriesApi.UpdateWithoutLogsSucceeds: stated for stored logs that carry their database ids; a stored log without an id would survive and could fail the response check.
- EntriesApi.CopyEntry: a 400 no longer promises an unchanged store, because a copied log that fails the response check is answered 400 after the target was saved.

## Findings

| source | as written | input that shows it | evidently intended | confidence | as-written member | corrected member |
|---|---|---|---|---|---|---|
| app/routes/api/entries.py:239-263 | the 404 raised for a missing source is an `HTTPException`, so it is caught by the handler's own `except Exception` and re-raised as 500 | a copy request whose source date has no entry | a missing source is answered 404 | high, not executed | EntriesApi.CopyEntryAsWritten | EntriesApi.CopyEntry |
