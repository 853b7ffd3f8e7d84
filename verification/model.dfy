/** Time logs and calendar entries (app/model.py): per-log validity, the
    interval-overlap test, list validation, and the work and pause totals of
    an entry. */
module Model {
  import opened Wrappers
  import opened Timely
  import opened Dates

  datatype EntryType = Work | Flextime | Vacation | Holiday | Sick

  datatype LogType = Work | Travel

  /** One time log. `id` is the database key (None until the log is saved);
      `end` is None for an open-ended log. */
  datatype TimeLog = TimeLog(
    id: Option<int>,
    kind: LogType,
    start: TimeOfDay,
    end: Option<TimeOfDay>,
    pause: Duration)

  /** A calendar entry: one per day, with the day's logs. */
  datatype CalendarEntry = CalendarEntry(day: Date, kind: EntryType, logs: seq<TimeLog>)

  // ---------------------------------------------------------------------
  // Per-log validation (runs when a request or response model is built; the
  // time-log edits never run it on the log they write)

  datatype LogError = OpenEndedNonWork | StartAfterEnd | PauseExceedsSpan

  /** `TimeLogBase.validate_log`. */
  function ValidateLog(log: TimeLog): (r: Result<TimeLog, LogError>)
    ensures r.Success? ==> r.value == log
    ensures r == Failure(OpenEndedNonWork) <==> log.end.None? && log.kind != LogType.Work
    ensures r == Failure(StartAfterEnd) <==> log.end.Some? && log.start > log.end.value
    ensures r == Failure(PauseExceedsSpan)
        <==> log.end.Some? && log.start <= log.end.value && log.pause > log.end.value - log.start
  {
    if log.end.None? then
      if log.kind != LogType.Work then Failure(OpenEndedNonWork) else Success(log)
    else if log.start > log.end.value then Failure(StartAfterEnd)
    else if log.pause > Delta(log.start, log.end.value) then Failure(PauseExceedsSpan)
    else Success(log)
  }

  predicate ValidLog(log: TimeLog) {
    ValidateLog(log).Success?
  }

  /** `TimeLogBase.duration`: zero while open-ended, otherwise span minus pause. */
  function LogDuration(log: TimeLog): (d: Duration)
    ensures log.end.None? ==> d == 0
    ensures log.end.Some? ==> log.start + d + log.pause == log.end.value
  {
    if log.end.None? then 0 else Delta(log.start, log.end.value) - log.pause
  }

  /** A log that passed `validate_log` has a duration between zero and its span. */
  lemma ValidLogDuration(log: TimeLog)
    requires ValidLog(log) && log.end.Some? && log.pause >= 0
    ensures 0 <= LogDuration(log) <= log.end.value - log.start
  {
  }

  // ---------------------------------------------------------------------
  // Overlap

  datatype TimePair = TimePair(start: TimeOfDay, end: TimeOfDay)

  /** `is_overlapping(left, right)`, exactly as the three disjuncts read. */
  predicate Overlapping(left: TimePair, right: TimePair) {
    || (left.end > right.start && left.end < right.end)
    || (left.start > right.start && left.start < right.end)
    || (left.start <= right.start && left.end >= right.end)
  }

  /** For non-empty intervals, overlap means the two share some time, in either order. */
  lemma OverlapIsSharedTime(a: TimePair, b: TimePair)
    requires a.start < a.end && b.start < b.end
    ensures Overlapping(a, b) <==> Max(a.start, b.start) < Min(a.end, b.end)
    ensures Overlapping(a, b) <==> Overlapping(b, a)
  {
  }

  /** One log ending exactly when the next starts is not an overlap. */
  lemma TouchingDoesNotOverlap(a: TimePair, b: TimePair)
    requires a.start < a.end == b.start < b.end
    ensures !Overlapping(a, b) && !Overlapping(b, a)
  {
  }

  lemma PartialOverlapOverlaps(a: TimePair, b: TimePair)
    requires a.start < b.start < a.end < b.end
    ensures Overlapping(a, b) && Overlapping(b, a)
  {
  }

  lemma ContainmentOverlaps(outer: TimePair, inner: TimePair)
    requires outer.start <= inner.start && inner.end <= outer.end
    ensures Overlapping(outer, inner)
  {
  }

  function Max(a: int, b: int): int { if a < b then b else a }
  function Min(a: int, b: int): int { if a < b then a else b }

  // ---------------------------------------------------------------------
  // Sorting by start (a stable insertion sort stands for `list.sort`)

  predicate SortedByStart(s: seq<TimeLog>) {
    forall i, j :: 0 <= i < j < |s| ==> s[i].start <= s[j].start
  }

  /** Inserts `x` before the first log that does not start earlier. */
  function InsertByStart(x: TimeLog, s: seq<TimeLog>): (r: seq<TimeLog>)
    requires SortedByStart(s)
    ensures SortedByStart(r)
    ensures multiset(r) == multiset(s) + multiset{x}
    ensures |r| == |s| + 1
  {
    if |s| == 0 || x.start <= s[0].start then [x] + s
    else
      var rest := InsertByStart(x, s[1..]);
      assert s == [s[0]] + s[1..];
      assert forall k :: 0 <= k < |rest| ==> s[0].start <= rest[k].start by {
        forall k | 0 <= k < |rest|
          ensures s[0].start <= rest[k].start
        {
          assert rest[k] in multiset(rest);
          if rest[k] != x {
            assert rest[k] in multiset(s[1..]);
          }
        }
      }
      [s[0]] + rest
  }

  function SortByStart(s: seq<TimeLog>): (r: seq<TimeLog>)
    ensures SortedByStart(r)
    ensures multiset(r) == multiset(s)
    ensures |r| == |s|
  {
    if |s| == 0 then []
    else
      assert s == [s[0]] + s[1..];
      InsertByStart(s[0], SortByStart(s[1..]))
  }

  /** Sorting an already sorted list leaves it as it is. */
  lemma {:induction false} SortSortedIsIdentity(s: seq<TimeLog>)
    requires SortedByStart(s)
    ensures SortByStart(s) == s
  {
    if |s| > 0 {
      SortSortedIsIdentity(s[1..]);
    }
  }

  // ---------------------------------------------------------------------
  // List validation

  datatype ValidationError = MultipleOpenEnded | Overlap

  predicate Closed(log: TimeLog) {
    log.end.Some?
  }

  function Span(log: TimeLog): TimePair
    requires Closed(log)
  {
    TimePair(log.start, log.end.value)
  }

  /** A pair that `validate_time_logs` lets through. */
  predicate Compatible(left: TimeLog, right: TimeLog) {
    Closed(left) && Closed(right) && !Overlapping(Span(left), Span(right))
  }

  /** What the loop body of `validate_time_logs` raises for one pair. */
  function PairError(left: TimeLog, right: TimeLog): (r: Option<ValidationError>)
    ensures r.None? <==> Compatible(left, right)
    ensures r == Some(Overlap) ==> Closed(left) && Closed(right)
  {
    if left.end.None? || right.end.None? then Some(MultipleOpenEnded)
    else if Overlapping(Span(left), Span(right)) then Some(Overlap)
    else None
  }

  /** Every pair i < j of `s` passes the checks. */
  predicate NoConflicts(s: seq<TimeLog>) {
    forall i, j :: 0 <= i < j < |s| ==> Compatible(s[i], s[j])
  }

  /** Some pair of closed logs overlaps. */
  predicate HasClosedOverlap(s: seq<TimeLog>) {
    exists i, j :: 0 <= i < j < |s| && Closed(s[i]) && Closed(s[j]) && Overlapping(Span(s[i]), Span(s[j]))
  }

  /** The pairs of `itertools.combinations(s, 2)` from (i, j) onwards, in that
      order; the first pair that fails decides the error. */
  function ScanPairs(s: seq<TimeLog>, i: nat, j: nat): (r: Option<ValidationError>)
    requires i < j <= |s|
    ensures r.None?
        <==> (forall k :: j <= k < |s| ==> Compatible(s[i], s[k]))
             && (forall a, b :: i < a < b < |s| ==> Compatible(s[a], s[b]))
    ensures r == Some(Overlap) ==> HasClosedOverlap(s)
    ensures r == Some(MultipleOpenEnded) ==> !AllClosed(s)
    decreases |s| - i, |s| - j
  {
    if j < |s| then
      match PairError(s[i], s[j])
      case Some(e) => Some(e)
      case None => ScanPairs(s, i, j + 1)
    else if i + 1 < |s| then
      ScanPairs(s, i + 1, i + 2)
    else
      None
  }

  /** The list that `validate_time_logs` leaves behind in place: sorted unless
      it has exactly one log. The sort happens even when validation then fails. */
  function SortedInPlace(logs: seq<TimeLog>): (r: seq<TimeLog>)
    ensures multiset(r) == multiset(logs)
    ensures SortedByStart(r)
  {
    if |logs| == 1 then logs else SortByStart(logs)
  }

  /** `validate_time_logs`. */
  function ValidateTimeLogs(logs: seq<TimeLog>): (r: Result<seq<TimeLog>, ValidationError>)
    ensures |logs| == 1 ==> r == Success(logs)
    ensures r.Success? ==> r.value == SortedInPlace(logs)
    ensures r.Success? ==> multiset(r.value) == multiset(logs) && SortedByStart(r.value)
    ensures r.Success? <==> NoConflicts(SortedInPlace(logs))
    ensures r == Failure(Overlap) ==> HasClosedOverlap(SortedInPlace(logs))
    ensures r == Failure(MultipleOpenEnded) ==> !AllClosed(logs)
  {
    if |logs| == 1 then Success(logs)
    else
      var s := SortByStart(logs);
      if |s| < 2 then Success(s)
      else
        match ScanPairs(s, 0, 1)
        case Some(e) =>
          assert e == MultipleOpenEnded ==> !AllClosed(logs) by {
            if e == MultipleOpenEnded {
              var k :| 0 <= k < |s| && !Closed(s[k]);
              assert s[k] in multiset(logs);
            }
          }
          Failure(e)
        case None => Success(s)
  }

  /** The shape of a list that passed validation. */
  predicate ListValid(s: seq<TimeLog>) {
    SortedByStart(s) && NoConflicts(s)
  }

  /** Validation succeeds on exactly the permutations of valid lists, and a
      list that is already valid comes back unchanged. */
  lemma ValidListPassesUnchanged(logs: seq<TimeLog>)
    requires ListValid(logs)
    ensures ValidateTimeLogs(logs) == Success(logs)
  {
    SortSortedIsIdentity(logs);
  }

  /** With two or more logs, a single open-ended log already fails validation. */
  lemma OpenEndedAmongSeveralFails(logs: seq<TimeLog>, k: nat)
    requires |logs| >= 2 && k < |logs| && logs[k].end.None?
    ensures ValidateTimeLogs(logs).Failure?
  {
    var s := SortByStart(logs);
    assert logs[k] in multiset(logs);
    assert logs[k] in multiset(s);
    var p :| 0 <= p < |s| && s[p] == logs[k];
    if p == 0 {
      assert !Compatible(s[0], s[1]);
    } else {
      assert !Compatible(s[0], s[p]);
    }
  }

  /** The open-ended error is the one reported whenever no two closed logs overlap. */
  lemma OpenEndedErrorWithoutOverlap(logs: seq<TimeLog>, k: nat)
    requires |logs| >= 2 && k < |logs| && logs[k].end.None?
    requires !HasClosedOverlap(SortByStart(logs))
    ensures ValidateTimeLogs(logs) == Failure(MultipleOpenEnded)
  {
    OpenEndedAmongSeveralFails(logs, k);
    var r := ValidateTimeLogs(logs);
    assert SortedInPlace(logs) == SortByStart(logs);
    assert r.error != Overlap;
  }

  // ---------------------------------------------------------------------
  // Durations and pauses

  /** The logs of type WORK, in list order. */
  function WorkLogs(logs: seq<TimeLog>): (w: seq<TimeLog>)
    ensures |w| <= |logs|
    ensures forall i :: 0 <= i < |w| ==> w[i].kind == LogType.Work && w[i] in logs
  {
    if |logs| == 0 then []
    else if logs[0].kind == LogType.Work then [logs[0]] + WorkLogs(logs[1..])
    else WorkLogs(logs[1..])
  }

  /** Every WORK log is kept as often as it occurs, and nothing else is. */
  lemma {:induction false} WorkLogsContents(logs: seq<TimeLog>)
    ensures forall x :: multiset(WorkLogs(logs))[x] == (if x.kind == LogType.Work then multiset(logs)[x] else 0)
  {
    if |logs| > 0 {
      assert logs == [logs[0]] + logs[1..];
      WorkLogsContents(logs[1..]);
    }
  }

  /** The filter keeps list order: filtering a concatenation concatenates the filtered parts. */
  lemma {:induction false} WorkLogsAppend(a: seq<TimeLog>, b: seq<TimeLog>)
    ensures WorkLogs(a + b) == WorkLogs(a) + WorkLogs(b)
  {
    if |a| > 0 {
      assert (a + b)[1..] == a[1..] + b;
      WorkLogsAppend(a[1..], b);
    } else {
      assert a + b == b;
    }
  }

  function SumDurations(logs: seq<TimeLog>): Duration {
    if |logs| == 0 then 0 else LogDuration(logs[0]) + SumDurations(logs[1..])
  }

  function SumPauses(logs: seq<TimeLog>): Duration {
    if |logs| == 0 then 0 else logs[0].pause + SumPauses(logs[1..])
  }

  /** The loop of `calculate_duration`: only WORK logs contribute. */
  function WorkTotal(logs: seq<TimeLog>): (d: Duration)
    ensures d == SumDurations(WorkLogs(logs))
  {
    if |logs| == 0 then 0
    else (if logs[0].kind == LogType.Work then LogDuration(logs[0]) else 0) + WorkTotal(logs[1..])
  }

  /** `calculate_duration`: None unless the entry is a WORK entry. */
  function CalculateDuration(logs: seq<TimeLog>, kind: EntryType): (r: Option<Duration>)
    ensures r.Some? <==> kind == EntryType.Work
    ensures r.Some? ==> r.value == SumDurations(WorkLogs(logs))
  {
    if kind != EntryType.Work then None else Some(WorkTotal(logs))
  }

  /** The gap `calculate_pause_time` adds between two consecutive work logs. */
  function Gap(previous: TimeLog, current: TimeLog): Duration {
    if previous.end.Some? && previous.end.value != current.start
    then Delta(previous.end.value, current.start)
    else 0
  }

  function Gaps(w: seq<TimeLog>): Duration {
    if |w| < 2 then 0 else Gap(w[0], w[1]) + Gaps(w[1..])
  }

  predicate AllClosed(s: seq<TimeLog>) {
    forall i :: 0 <= i < |s| ==> Closed(s[i])
  }

  /** Work plus pause of closed logs fills the time from the first start to the last end. */
  lemma {:induction false} WorkAndPauseFillSpan(w: seq<TimeLog>)
    requires |w| >= 1 && AllClosed(w)
    ensures SumDurations(w) + SumPauses(w) + Gaps(w) == w[|w| - 1].end.value - w[0].start
  {
    if |w| >= 2 {
      WorkAndPauseFillSpan(w[1..]);
    }
  }

  /** `calculate_pause_time`: explicit pauses of the WORK logs plus the gaps
      between consecutive WORK logs (so time on a TRAVEL log in between counts). */
  function CalculatePauseTime(logs: seq<TimeLog>, kind: EntryType): (r: Option<Duration>)
    ensures r.Some? <==> kind == EntryType.Work
    ensures r.Some? && |WorkLogs(logs)| >= 1 && AllClosed(WorkLogs(logs))
        ==> CalculateDuration(logs, kind).value + r.value
            == WorkLogs(logs)[|WorkLogs(logs)| - 1].end.value - WorkLogs(logs)[0].start
    ensures r.Some? && |WorkLogs(logs)| == 0 ==> r.value == 0
  {
    if kind != EntryType.Work then None
    else
      var w := WorkLogs(logs);
      assert |w| >= 1 && AllClosed(w) ==> SumDurations(w) + SumPauses(w) + Gaps(w) == w[|w| - 1].end.value - w[0].start by {
        if |w| >= 1 && AllClosed(w) {
          WorkAndPauseFillSpan(w);
        }
      }
      Some(SumPauses(w) + Gaps(w))
  }

  /** `CalendarEntry.duration`. */
  function EntryDuration(e: CalendarEntry): Option<Duration> {
    CalculateDuration(e.logs, e.kind)
  }

  /** `CalendarEntry.pause_time`. */
  function EntryPause(e: CalendarEntry): Option<Duration> {
    CalculatePauseTime(e.logs, e.kind)
  }
}
