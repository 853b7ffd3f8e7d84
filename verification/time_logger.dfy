/** Editing the logs of one calendar entry (app/services/time_logger.py).

    The source mutates `entry.logs` in place: the new or changed log is
    written into the list and the list is then sorted by `validate_time_logs`
    before that function may raise. Each operation therefore returns the list
    as the call leaves it together with the error it raised, if any. */
module TimeLogger {
  import opened Wrappers
  import opened Timely
  import opened Model

  /** What an edit raises. Every constructor except `LogIndexMissing` is a
      `TimeLogError`; `LogIndexMissing` is the `IndexError` Python raises for a
      negative index below minus the number of logs, which nothing catches. */
  datatype TimeLogError =
    | NotWorkEntry
    | NoLogs
    | IndexTooLarge
    | InvalidLogs(cause: ValidationError)
    | LogIndexMissing

  /** The logs of the entry after the call, and what the call raised. */
  datatype Edit = Edit(logs: seq<TimeLog>, error: Option<TimeLogError>)

  /** `_validate_index`: only an empty list and a too large index are rejected;
      negative indices pass. */
  function ValidateIndex(logs: seq<TimeLog>, index: int): (r: Option<TimeLogError>)
    ensures r == Some(NoLogs) <==> |logs| == 0
    ensures r == Some(IndexTooLarge) <==> |logs| > 0 && index >= |logs|
    ensures r.None? <==> 0 < |logs| && index < |logs|
  {
    if |logs| == 0 then Some(NoLogs)
    else if index >= |logs| then Some(IndexTooLarge)
    else None
  }

  /** Python list indexing: a negative index counts from the end. */
  function ResolveIndex(n: nat, index: int): (r: Option<nat>)
    ensures r.Some? <==> 0 <= index + n && index < n
    ensures r.Some? ==> r.value < n
    ensures r.Some? && index >= 0 ==> r.value == index
    ensures r.Some? && index < 0 ==> r.value == n + index
  {
    if 0 <= index < n then Some(index)
    else if 0 <= index + n && index < 0 then Some(n + index)
    else None
  }

  /** Runs `validate_time_logs` on the edited list, turning its error into a `TimeLogError`. */
  function Revalidate(logs: seq<TimeLog>): (r: Edit)
    ensures r.logs == SortedInPlace(logs)
    ensures r.error.None? <==> ValidateTimeLogs(logs).Success?
    ensures r.error.Some? ==> r.error == Some(InvalidLogs(ValidateTimeLogs(logs).error))
  {
    match ValidateTimeLogs(logs)
    case Success(_) => Edit(SortedInPlace(logs), None)
    case Failure(e) => Edit(SortedInPlace(logs), Some(InvalidLogs(e)))
  }

  /** The table-model log that `add_time_log` builds: it has no id yet and
      `validate_log` does not run on it. */
  function NewLog(kind: LogType, start: TimeOfDay, end: Option<TimeOfDay>, pause: Duration): TimeLog {
    TimeLog(None, kind, start, end, pause)
  }

  /** `add_time_log`. On a validation error the appended log stays in the
      (sorted) list; rolling it back is left to the caller. */
  function AddTimeLog(entry: CalendarEntry, kind: LogType, start: TimeOfDay,
                      end: Option<TimeOfDay>, pause: Duration): (r: Edit)
    ensures entry.kind != EntryType.Work ==> r == Edit(entry.logs, Some(NotWorkEntry))
    ensures entry.kind == EntryType.Work
        ==> multiset(r.logs) == multiset(entry.logs) + multiset{NewLog(kind, start, end, pause)}
            && SortedByStart(r.logs)
    ensures entry.kind == EntryType.Work
        ==> (r.error.None? <==> NoConflicts(SortedInPlace(entry.logs + [NewLog(kind, start, end, pause)])))
    ensures entry.kind == EntryType.Work && r.error.Some?
        ==> r.error == Some(InvalidLogs(ValidateTimeLogs(entry.logs + [NewLog(kind, start, end, pause)]).error))
    ensures r.error.None? ==> |r.logs| == |entry.logs| + 1 && NewLog(kind, start, end, pause) in r.logs
  {
    if entry.kind != EntryType.Work then Edit(entry.logs, Some(NotWorkEntry))
    else
      var appended := entry.logs + [NewLog(kind, start, end, pause)];
      assert NewLog(kind, start, end, pause) in multiset(appended);
      Revalidate(appended)
  }

  /** Adding the first log of a WORK entry always succeeds, whatever its times:
      `start > end` and a pause longer than the span are accepted. */
  lemma AddToEmptyWorkEntrySucceeds(entry: CalendarEntry, kind: LogType, start: TimeOfDay,
                                    end: Option<TimeOfDay>, pause: Duration)
    requires entry.kind == EntryType.Work && |entry.logs| == 0
    ensures AddTimeLog(entry, kind, start, end, pause) == Edit([NewLog(kind, start, end, pause)], None)
  {
  }

  /** An open-ended log added next to an existing one is rejected, and so is
      any log added next to an open-ended one. */
  lemma AddOpenEndedRaises(entry: CalendarEntry, kind: LogType, start: TimeOfDay,
                           end: Option<TimeOfDay>, pause: Duration)
    requires entry.kind == EntryType.Work && |entry.logs| >= 1
    requires end.None? || entry.logs[0].end.None?
    ensures AddTimeLog(entry, kind, start, end, pause).error.Some?
  {
    var appended := entry.logs + [NewLog(kind, start, end, pause)];
    if end.None? {
      OpenEndedAmongSeveralFails(appended, |appended| - 1);
    } else {
      OpenEndedAmongSeveralFails(appended, 0);
    }
  }

  /** Two distinct logs of a list that share time make validation fail,
      wherever the sort puts them. */
  lemma SharedTimeFails(logs: seq<TimeLog>, x: TimeLog, y: TimeLog)
    requires x in logs && y in logs && x != y
    requires Closed(x) && Closed(y) && x.start < x.end.value && y.start < y.end.value
    requires Max(x.start, y.start) < Min(x.end.value, y.end.value)
    ensures ValidateTimeLogs(logs).Failure?
  {
    var px :| 0 <= px < |logs| && logs[px] == x;
    var py :| 0 <= py < |logs| && logs[py] == y;
    assert px != py;
    var s := SortByStart(logs);
    assert x in multiset(logs) && y in multiset(logs);
    assert x in multiset(s) && y in multiset(s);
    var p :| 0 <= p < |s| && s[p] == x;
    var q :| 0 <= q < |s| && s[q] == y;
    OverlapIsSharedTime(Span(x), Span(y));
    if p < q {
      assert !Compatible(s[p], s[q]);
    } else {
      assert !Compatible(s[q], s[p]);
    }
  }

  /** Adding a log that shares time with a stored log raises. */
  lemma AddOverlappingRaises(entry: CalendarEntry, i: nat, kind: LogType, start: TimeOfDay,
                             end: TimeOfDay, pause: Duration)
    requires entry.kind == EntryType.Work && i < |entry.logs| && AllClosed(entry.logs)
    requires entry.logs[i].id.Some?
    requires entry.logs[i].start < entry.logs[i].end.value && start < end
    requires Max(entry.logs[i].start, start) < Min(entry.logs[i].end.value, end)
    ensures AddTimeLog(entry, kind, start, Some(end), pause).error == Some(InvalidLogs(Overlap))
  {
    var appended := entry.logs + [NewLog(kind, start, Some(end), pause)];
    assert entry.logs[i] == appended[i];
    SharedTimeFails(appended, entry.logs[i], NewLog(kind, start, Some(end), pause));
    assert AllClosed(appended) by {
      forall k | 0 <= k < |appended| ensures Closed(appended[k]) {
        if k < |entry.logs| {
          assert appended[k] == entry.logs[k];
        }
      }
    }
    var v := ValidateTimeLogs(appended);
    assert v.Failure? && v.error != MultipleOpenEnded;
    assert Revalidate(appended).error == Some(InvalidLogs(v.error));
  }

  /** The log `update_time_log` writes back. Each argument replaces the field
      only when it is truthy (`arg or log.field`): None keeps the old value,
      and so does a zero pause. Times of day and log types are always truthy. */
  function UpdatedLog(prior: TimeLog, kind: Option<LogType>, start: Option<TimeOfDay>,
                      end: Option<TimeOfDay>, pause: Option<Duration>): (r: TimeLog)
    ensures r.id == prior.id
    ensures r.kind == (if kind.Some? then kind.value else prior.kind)
    ensures r.start == (if start.Some? then start.value else prior.start)
    ensures end.Some? ==> r.end == end
    ensures r.end.None? <==> prior.end.None? && end.None?
    ensures (pause.None? || pause == Some(0)) ==> r.pause == prior.pause
    ensures pause.Some? && pause.value != 0 ==> r.pause == pause.value
    ensures kind.None? && start.None? && end.None? && (pause.None? || pause == Some(0)) ==> r == prior
  {
    TimeLog(
      prior.id,
      kind.GetOr(prior.kind),
      start.GetOr(prior.start),
      if end.Some? then end else prior.end,
      if pause.Some? && pause.value != 0 then pause.value else prior.pause)
  }

  /** `update_time_log`. The entry type is not checked, and neither is the
      changed log on its own: only the list is validated again. */
  function UpdateTimeLog(entry: CalendarEntry, index: int, kind: Option<LogType>,
                         start: Option<TimeOfDay>, end: Option<TimeOfDay>,
                         pause: Option<Duration>): (r: Edit)
    ensures ValidateIndex(entry.logs, index).Some?
        ==> r == Edit(entry.logs, ValidateIndex(entry.logs, index))
    ensures 0 < |entry.logs| && index + |entry.logs| < 0 ==> r == Edit(entry.logs, Some(LogIndexMissing))
    ensures ValidateIndex(entry.logs, index).None? && index + |entry.logs| >= 0
        ==> |r.logs| == |entry.logs|
            && SortedByStart(r.logs)
            && (r.error.None? || r.error.value.InvalidLogs?)
            && var i := ResolveIndex(|entry.logs|, index).value;
               multiset(r.logs) == multiset(entry.logs[i := UpdatedLog(entry.logs[i], kind, start, end, pause)])
    ensures ValidateIndex(entry.logs, index).None? && index + |entry.logs| >= 0
        ==> var i := ResolveIndex(|entry.logs|, index).value;
            var changed := entry.logs[i := UpdatedLog(entry.logs[i], kind, start, end, pause)];
            && (r.error.None? <==> ValidateTimeLogs(changed).Success?)
            && (r.error.Some? ==> r.error == Some(InvalidLogs(ValidateTimeLogs(changed).error)))
  {
    match ValidateIndex(entry.logs, index)
    case Some(e) => Edit(entry.logs, Some(e))
    case None =>
      match ResolveIndex(|entry.logs|, index)
      case None => Edit(entry.logs, Some(LogIndexMissing))
      case Some(i) =>
        Revalidate(entry.logs[i := UpdatedLog(entry.logs[i], kind, start, end, pause)])
  }

  /** The list of a single log is never rejected: updating the only log
      succeeds whatever the new values, even a start after the end. */
  lemma UpdateOnlyLogSucceeds(entry: CalendarEntry, kind: Option<LogType>, start: Option<TimeOfDay>,
                              end: Option<TimeOfDay>, pause: Option<Duration>)
    requires |entry.logs| == 1
    ensures UpdateTimeLog(entry, 0, kind, start, end, pause)
         == Edit([UpdatedLog(entry.logs[0], kind, start, end, pause)], None)
  {
    assert entry.logs[0 := UpdatedLog(entry.logs[0], kind, start, end, pause)]
        == [UpdatedLog(entry.logs[0], kind, start, end, pause)];
  }

  /** Among closed logs, two that share time make validation fail with the
      overlap error. */
  lemma ClosedSharedTimeIsOverlap(logs: seq<TimeLog>, x: TimeLog, y: TimeLog)
    requires x in logs && y in logs && x != y && AllClosed(logs)
    requires x.start < x.end.value && y.start < y.end.value
    requires Max(x.start, y.start) < Min(x.end.value, y.end.value)
    ensures ValidateTimeLogs(logs) == Failure(Overlap)
  {
    SharedTimeFails(logs, x, y);
    var v := ValidateTimeLogs(logs);
    assert v.Failure? && v.error != MultipleOpenEnded;
  }

  /** Moving a log onto the time of another log (with another id) raises
      the overlap error. */
  lemma UpdateIntoOverlapRaises(entry: CalendarEntry, i: nat, j: nat, start: TimeOfDay, end: TimeOfDay)
    requires i < |entry.logs| && j < |entry.logs| && entry.logs[i].id != entry.logs[j].id && AllClosed(entry.logs)
    requires entry.logs[j].start < entry.logs[j].end.value && start < end
    requires Max(entry.logs[j].start, start) < Min(entry.logs[j].end.value, end)
    ensures UpdateTimeLog(entry, i, None, Some(start), Some(end), None).error == Some(InvalidLogs(Overlap))
  {
    var x := UpdatedLog(entry.logs[i], None, Some(start), Some(end), None);
    var changed := entry.logs[i := x];
    var y := entry.logs[j];
    assert changed[i] == x && changed[j] == y;
    assert AllClosed(changed);
    ClosedSharedTimeIsOverlap(changed, x, y);
    assert ValidateIndex(entry.logs, i).None? && ResolveIndex(|entry.logs|, i) == Some(i);
    assert Revalidate(changed).error == Some(InvalidLogs(Overlap));
  }

  /** An update cannot make a log open-ended: if every log was closed, every
      log still is, whatever the call raised. */
  lemma UpdateKeepsLogsClosed(entry: CalendarEntry, index: int, kind: Option<LogType>,
                              start: Option<TimeOfDay>, end: Option<TimeOfDay>,
                              pause: Option<Duration>)
    requires AllClosed(entry.logs)
    ensures AllClosed(UpdateTimeLog(entry, index, kind, start, end, pause).logs)
  {
    var r := UpdateTimeLog(entry, index, kind, start, end, pause);
    if ValidateIndex(entry.logs, index).None? && index + |entry.logs| >= 0 {
      var i := ResolveIndex(|entry.logs|, index).value;
      var changed := entry.logs[i := UpdatedLog(entry.logs[i], kind, start, end, pause)];
      assert AllClosed(changed);
      forall k | 0 <= k < |r.logs| ensures Closed(r.logs[k]) {
        assert r.logs[k] in multiset(changed);
      }
    }
  }

  /** An update that changes nothing (all arguments None, or only a zero pause)
      leaves a valid list exactly as it was. */
  lemma NoChangeUpdateIsIdentity(entry: CalendarEntry, index: int, pause: Option<Duration>)
    requires ListValid(entry.logs) && 0 <= index < |entry.logs|
    requires pause.None? || pause == Some(0)
    ensures UpdateTimeLog(entry, index, None, None, None, pause) == Edit(entry.logs, None)
  {
    assert entry.logs[index := entry.logs[index]] == entry.logs;
    ValidListPassesUnchanged(entry.logs);
  }

  function RemoveAt(s: seq<TimeLog>, i: nat): (r: seq<TimeLog>)
    requires i < |s|
    ensures |r| == |s| - 1
    ensures forall k :: 0 <= k < i ==> r[k] == s[k]
    ensures forall k :: i <= k < |r| ==> r[k] == s[k + 1]
  {
    s[..i] + s[i + 1..]
  }

  /** `list.remove` deletes the first log equal to the given one, which need
      not be the one at the index it was read from. */
  function FirstIndexOf(s: seq<TimeLog>, x: TimeLog): (j: nat)
    requires x in s
    ensures j < |s| && s[j] == x
    ensures forall k :: 0 <= k < j ==> s[k] != x
  {
    if s[0] == x then 0 else 1 + FirstIndexOf(s[1..], x)
  }

  /** `remove_time_log`: the log read at the index is removed with
      `list.remove`, so the first log equal to it leaves the list, which is
      then validated again. */
  function RemoveTimeLog(entry: CalendarEntry, index: int): (r: Edit)
    ensures ValidateIndex(entry.logs, index).Some?
        ==> r == Edit(entry.logs, ValidateIndex(entry.logs, index))
    ensures 0 < |entry.logs| && index + |entry.logs| < 0 ==> r == Edit(entry.logs, Some(LogIndexMissing))
    ensures ValidateIndex(entry.logs, index).None? && index + |entry.logs| >= 0
        ==> |r.logs| == |entry.logs| - 1
            && var i := ResolveIndex(|entry.logs|, index).value;
               multiset(r.logs) == multiset(entry.logs) - multiset{entry.logs[i]}
    ensures ValidateIndex(entry.logs, index).None? && index + |entry.logs| >= 0
        ==> var i := ResolveIndex(|entry.logs|, index).value;
            var j := FirstIndexOf(entry.logs, entry.logs[i]);
            && (r.error.None? <==> ValidateTimeLogs(RemoveAt(entry.logs, j)).Success?)
            && (r.error.Some? ==> r.error == Some(InvalidLogs(ValidateTimeLogs(RemoveAt(entry.logs, j)).error)))
  {
    match ValidateIndex(entry.logs, index)
    case Some(e) => Edit(entry.logs, Some(e))
    case None =>
      match ResolveIndex(|entry.logs|, index)
      case None => Edit(entry.logs, Some(LogIndexMissing))
      case Some(i) =>
        var j := FirstIndexOf(entry.logs, entry.logs[i]);
        assert entry.logs == entry.logs[..j] + [entry.logs[j]] + entry.logs[j + 1..];
        Revalidate(RemoveAt(entry.logs, j))
  }

  lemma RemoveAtKeepsValid(s: seq<TimeLog>, i: nat)
    requires ListValid(s) && i < |s|
    ensures ListValid(RemoveAt(s, i))
  {
    var r := RemoveAt(s, i);
    forall a, b | 0 <= a < b < |r|
      ensures r[a].start <= r[b].start && Compatible(r[a], r[b])
    {
      var a' := if a < i then a else a + 1;
      var b' := if b < i then b else b + 1;
      assert r[a] == s[a'] && r[b] == s[b'] && a' < b';
    }
  }

  /** Every log overlaps itself, so a valid list holds no two equal logs and
      `list.remove` finds the log at the index itself. */
  lemma ValidListRemovesAtIndex(s: seq<TimeLog>, i: nat)
    requires ListValid(s) && i < |s|
    ensures FirstIndexOf(s, s[i]) == i
  {
    var j := FirstIndexOf(s, s[i]);
    assert j <= i;
    assert Closed(s[i]) ==> Overlapping(Span(s[i]), Span(s[i]));
  }

  /** Removing a log from a valid list never fails, and the remaining logs
      keep their relative order. */
  lemma RemoveFromValidListSucceeds(entry: CalendarEntry, index: nat)
    requires ListValid(entry.logs) && index < |entry.logs|
    ensures RemoveTimeLog(entry, index) == Edit(RemoveAt(entry.logs, index), None)
  {
    ValidListRemovesAtIndex(entry.logs, index);
    RemoveAtKeepsValid(entry.logs, index);
    ValidListPassesUnchanged(RemoveAt(entry.logs, index));
  }

  /** With two equal logs, removing the later one removes the earlier: from
      [x, y, x] (x an empty 08:00 log, y 08:00-09:00) index 2 leaves [y, x],
      which fails with the overlap error. */
  lemma RemoveDropsFirstEqualLog()
    ensures var x := TimeLog(None, LogType.Work, Hours(8), Some(Hours(8)), 0);
      var y := TimeLog(None, LogType.Work, Hours(8), Some(Hours(9)), 0);
      var r := RemoveTimeLog(CalendarEntry(739208, EntryType.Work, [x, y, x]), 2);
      r.error == Some(InvalidLogs(Overlap))
  {
    var x := TimeLog(None, LogType.Work, Hours(8), Some(Hours(8)), 0);
    var y := TimeLog(None, LogType.Work, Hours(8), Some(Hours(9)), 0);
    var logs := [x, y, x];
    assert FirstIndexOf(logs, logs[2]) == 0;
    assert RemoveAt(logs, 0) == [y, x];
    var v := ValidateTimeLogs([y, x]);
    assert Overlapping(Span(y), Span(x));
    assert v.Failure? && v.error != MultipleOpenEnded;
  }
}
