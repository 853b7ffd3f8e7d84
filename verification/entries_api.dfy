/** The entry endpoints (app/routes/api/entries.py) without HTTP: how
    `create_entry`, `update_entry` and `copy_entry` combine the calendar
    rules with the time-log editing, which status each failure becomes, and
    what the store holds afterwards. The repository is the date-keyed map of
    the calendar model; `reset_entry` and the rollback in `create_entry`
    leave the map as it was before the request. */
module EntriesApi {
  import opened Wrappers
  import opened Timely
  import opened Dates
  import opened Model
  import opened TimeLogger
  import opened CalendarService

  /** The statuses the handlers fail with: 400, 404, 409, 422 and 500. */
  datatype ApiError = BadRequest | NotFound | Conflict | Unprocessable | ServerError

  /** A log of a request body. `TimeLogCreate` carries no id, so a create
      request has `id == None` throughout; `TimeLogUpdate` may carry one. */
  datatype RequestLog = RequestLog(id: Option<int>, kind: LogType, start: TimeOfDay, end: Option<TimeOfDay>, pause: Duration)

  /** The store after the request and the handler's outcome. */
  datatype Response<T> = Response(store: Store, result: Result<T, ApiError>)

  function AsLog(l: RequestLog): TimeLog {
    TimeLog(l.id, l.kind, l.start, l.end, l.pause)
  }

  /** Request models run `validate_log` while the body is parsed, so a
      handler only sees request logs that pass it; otherwise the answer is 422. */
  predicate RequestValid(logs: seq<RequestLog>) {
    forall k :: 0 <= k < |logs| ==> ValidLog(AsLog(logs[k]))
  }

  /** `CalendarEntryResponse.model_validate`: building the response runs
      `validate_log` again on every log of the saved entry. Its
      `ValidationError` is a `ValueError`, not a `TimeLogError`. */
  predicate ResponseValid(e: CalendarEntry) {
    forall k :: 0 <= k < |e.logs| ==> ValidLog(e.logs[k])
  }

  /** A new log carries a request log's fields, and validity does not look
      at the id: logs made from valid request logs pass the response check. */
  lemma NewLogsPassResponse(logs: seq<RequestLog>, saved: CalendarEntry)
    requires RequestValid(logs) && multiset(saved.logs) == multiset(NewLogs(logs))
    ensures ResponseValid(saved)
  {
    forall k | 0 <= k < |saved.logs|
      ensures ValidLog(saved.logs[k])
    {
      assert saved.logs[k] in multiset(NewLogs(logs));
      var j :| 0 <= j < |logs| && NewLogs(logs)[j] == saved.logs[k];
      assert ValidLog(AsLog(logs[j]));
    }
  }

  // ---------------------------------------------------------------------
  // Ids

  /** The ids that stored logs carry. */
  function StoredIds(logs: seq<TimeLog>): set<int> {
    set x | x in logs && x.id.Some? :: x.id.value
  }

  /** `log_ids_in_request`. */
  function RequestIds(logs: seq<RequestLog>): set<int> {
    set l | l in logs && l.id.Some? :: l.id.value
  }

  lemma SameMembersSameIds(a: seq<TimeLog>, b: seq<TimeLog>)
    requires multiset(a) == multiset(b)
    ensures StoredIds(a) == StoredIds(b)
  {
    forall x ensures x in a <==> x in b {
      assert x in a <==> x in multiset(a);
      assert x in b <==> x in multiset(b);
    }
  }

  lemma ReplaceKeepsIds(logs: seq<TimeLog>, i: nat, x: TimeLog)
    requires i < |logs| && x.id == logs[i].id
    ensures StoredIds(logs[i := x]) == StoredIds(logs)
  {
    var changed := logs[i := x];
    forall id | id in StoredIds(logs) ensures id in StoredIds(changed) {
      var y :| y in logs && y.id == Some(id);
      var k :| 0 <= k < |logs| && logs[k] == y;
      assert changed[k].id == Some(id);
    }
    forall id | id in StoredIds(changed) ensures id in StoredIds(logs) {
      var y :| y in changed && y.id == Some(id);
      var k :| 0 <= k < |changed| && changed[k] == y;
      assert logs[k].id == Some(id);
    }
  }

  lemma AppendNewKeepsIds(logs: seq<TimeLog>, x: TimeLog)
    requires x.id.None?
    ensures StoredIds(logs + [x]) == StoredIds(logs)
  {
    assert forall y :: y in logs + [x] <==> y in logs || y == x;
  }

  /** The position of the log carrying `id`. With the distinct ids of stored
      logs this is the log `entry.logs.index(existing_logs[id])` finds. */
  function IndexOfId(logs: seq<TimeLog>, id: int): (r: Option<nat>)
    ensures r.Some? ==> r.value < |logs| && logs[r.value].id == Some(id)
    ensures r.None? <==> id !in StoredIds(logs)
  {
    if |logs| == 0 then None
    else
      assert forall x :: x in logs <==> x == logs[0] || x in logs[1..];
      if logs[0].id == Some(id) then Some(0)
      else
        match IndexOfId(logs[1..], id)
        case Some(i) => Some(i + 1)
        case None => None
  }

  /** The first loop of `update_entry`: every stored log with an id that
      the request does not mention is removed; the rest keep their order. */
  function DropUnrequested(logs: seq<TimeLog>, requested: set<int>): (r: seq<TimeLog>)
    ensures forall x :: x in r <==> x in logs && (x.id.None? || x.id.value in requested)
    ensures |r| <= |logs|
    ensures (forall k :: 0 <= k < |logs| ==> logs[k].id.Some? && logs[k].id.value !in requested) ==> r == []
  {
    if |logs| == 0 then []
    else
      assert forall x :: x in logs <==> x == logs[0] || x in logs[1..];
      var rest := DropUnrequested(logs[1..], requested);
      if logs[0].id.None? || logs[0].id.value in requested then [logs[0]] + rest else rest
  }

  lemma DroppedIds(logs: seq<TimeLog>, requested: set<int>)
    ensures StoredIds(DropUnrequested(logs, requested)) == StoredIds(logs) * requested
  {
    var r := DropUnrequested(logs, requested);
    forall id | id in StoredIds(logs) * requested ensures id in StoredIds(r) {
      var y :| y in logs && y.id == Some(id);
      assert y in r;
    }
  }

  // ---------------------------------------------------------------------
  // The loop over the request logs

  /** `log.id and log.id in existing_logs`: an id of 0 is falsy, so such a
      log is added as new. */
  predicate IsUpdate(l: RequestLog, known: set<int>) {
    l.id.Some? && l.id.value != 0 && l.id.value in known
  }

  /** What stops the loop: a `TimeLogError` (which the handlers catch), or
      the stored log of a known id not being found (which nothing catches). */
  datatype LoopError = Raised(cause: TimeLogError) | StoredLogMissing

  /** The logs after the loop, and what stopped it. */
  datatype Reconciled = Reconciled(logs: seq<TimeLog>, error: Option<LoopError>)

  /** A log shows the request log's data as `update_time_log` writes it:
      type and start always, the end unless the request has none, the pause
      unless the request's is zero. */
  predicate Reflects(x: TimeLog, l: RequestLog) {
    && x.kind == l.kind
    && x.start == l.start
    && (l.end.Some? ==> x.end == l.end)
    && (l.pause != 0 ==> x.pause == l.pause)
  }

  function NewCount(logs: seq<RequestLog>, known: set<int>): (n: nat)
    ensures n <= |logs|
  {
    if |logs| == 0 then 0
    else (if IsUpdate(logs[0], known) then 0 else 1) + NewCount(logs[1..], known)
  }

  /** The table logs that adding each request log creates, in order. */
  function NewLogs(logs: seq<RequestLog>): (r: seq<TimeLog>)
    ensures |r| == |logs|
    ensures forall k :: 0 <= k < |logs| ==> r[k] == NewLog(logs[k].kind, logs[k].start, logs[k].end, logs[k].pause)
  {
    seq(|logs|, k requires 0 <= k < |logs| => NewLog(logs[k].kind, logs[k].start, logs[k].end, logs[k].pause))
  }

  lemma NewLogsCons(logs: seq<RequestLog>)
    requires |logs| > 0
    ensures NewLogs(logs) == [NewLog(logs[0].kind, logs[0].start, logs[0].end, logs[0].pause)] + NewLogs(logs[1..])
  {
    var n := NewLog(logs[0].kind, logs[0].start, logs[0].end, logs[0].pause);
    forall k | 0 <= k < |logs|
      ensures NewLogs(logs)[k] == ([n] + NewLogs(logs[1..]))[k]
    {
      if k > 0 {
        assert logs[1..][k - 1] == logs[k];
      }
    }
  }

  /** Every known id that a request log updates is carried by some log. */
  predicate UpdatesFindTheirLog(logs: seq<TimeLog>, known: set<int>, request: seq<RequestLog>) {
    forall k :: 0 <= k < |request| && IsUpdate(request[k], known) ==> request[k].id.value in StoredIds(logs)
  }

  /** `add_time_log` for one request log, as the loop sees it. */
  function AddOne(entry: CalendarEntry, l: RequestLog): (r: Reconciled)
    ensures entry.kind != EntryType.Work ==> r.error == Some(Raised(NotWorkEntry))
    ensures r.error.Some? ==> r.error.value.Raised? && (r.error.value.cause.NotWorkEntry? || r.error.value.cause.InvalidLogs?)
    ensures r.error.None? ==>
      && multiset(r.logs) == multiset(entry.logs) + multiset{NewLog(l.kind, l.start, l.end, l.pause)}
      && ListValid(r.logs)
  {
    var e := AddTimeLog(entry, l.kind, l.start, l.end, l.pause);
    if e.error.Some? then Reconciled(e.logs, Some(Raised(e.error.value)))
    else Reconciled(e.logs, None)
  }

  /** `update_time_log` at the position of the log with the request log's id. */
  function UpdateOne(entry: CalendarEntry, i: nat, l: RequestLog): (r: Reconciled)
    requires i < |entry.logs|
    ensures r.error.Some? ==> r.error.value.Raised? && r.error.value.cause.InvalidLogs?
    ensures r.error.None? ==>
      && multiset(r.logs) == multiset(entry.logs[i := UpdatedLog(entry.logs[i], Some(l.kind), Some(l.start), l.end, Some(l.pause))])
      && ListValid(r.logs)
  {
    var e := UpdateTimeLog(entry, i, Some(l.kind), Some(l.start), l.end, Some(l.pause));
    if e.error.Some? then Reconciled(e.logs, Some(Raised(e.error.value)))
    else Reconciled(e.logs, None)
  }

  lemma AddOneFacts(entry: CalendarEntry, l: RequestLog)
    ensures var r := AddOne(entry, l);
      r.error.None? ==> (
        && StoredIds(r.logs) == StoredIds(entry.logs)
        && |r.logs| == |entry.logs| + 1
        && NewLog(l.kind, l.start, l.end, l.pause) in r.logs
        && Reflects(NewLog(l.kind, l.start, l.end, l.pause), l))
  {
    var r := AddOne(entry, l);
    var n := NewLog(l.kind, l.start, l.end, l.pause);
    assert Reflects(n, l);
    if r.error.Some? {
      return;
    }
    AppendNewKeepsIds(entry.logs, n);
    assert multiset(r.logs) == multiset(entry.logs + [n]);
    SameMembersSameIds(r.logs, entry.logs + [n]);
    assert |multiset(r.logs)| == |r.logs|;
    assert n in multiset(r.logs);
  }

  lemma UpdateOneFacts(entry: CalendarEntry, i: nat, l: RequestLog)
    requires i < |entry.logs|
    ensures var r := UpdateOne(entry, i, l);
      var x := UpdatedLog(entry.logs[i], Some(l.kind), Some(l.start), l.end, Some(l.pause));
      r.error.None? ==> (
        && StoredIds(r.logs) == StoredIds(entry.logs)
        && |r.logs| == |entry.logs|
        && x in r.logs && Reflects(x, l) && x.id == entry.logs[i].id)
  {
    var r := UpdateOne(entry, i, l);
    var x := UpdatedLog(entry.logs[i], Some(l.kind), Some(l.start), l.end, Some(l.pause));
    var changed := entry.logs[i := x];
    if r.error.Some? {
      return;
    }
    ReplaceKeepsIds(entry.logs, i, x);
    SameMembersSameIds(r.logs, changed);
    assert |multiset(r.logs)| == |r.logs|;
    assert x in multiset(changed);
  }

  /** One request log: update the log with its id, or add it as new. */
  function ApplyOne(entry: CalendarEntry, known: set<int>, l: RequestLog): (r: Reconciled)
    ensures IsUpdate(l, known) && l.id.value in StoredIds(entry.logs) ==> r.error != Some(StoredLogMissing)
    ensures r.error.Some? ==> r.error == Some(StoredLogMissing) || r.error.value.cause.NotWorkEntry? || r.error.value.cause.InvalidLogs?
    ensures r.error.None? ==> StoredIds(r.logs) == StoredIds(entry.logs)
    ensures r.error.None? ==> |r.logs| == |entry.logs| + (if IsUpdate(l, known) then 0 else 1)
    ensures r.error.None? ==> ListValid(r.logs)
    ensures r.error.None? ==>
      exists x :: (x in r.logs && Reflects(x, l) && (if IsUpdate(l, known) then x.id == l.id else x.id.None?))
    ensures !IsUpdate(l, known) ==> r == AddOne(entry, l)
  {
    if IsUpdate(l, known) then
      match IndexOfId(entry.logs, l.id.value)
      case None => Reconciled(entry.logs, Some(StoredLogMissing))
      case Some(i) =>
        UpdateOneFacts(entry, i, l);
        UpdateOne(entry, i, l)
    else
      AddOneFacts(entry, l);
      AddOne(entry, l)
  }

  /** The second loop of `update_entry` (and the loop of `create_entry`):
      request logs in order, each updating or adding; the first error ends it. */
  function ApplyRequestLogs(entry: CalendarEntry, known: set<int>, logs: seq<RequestLog>): (r: Reconciled)
    ensures r.error.Some? ==> r.error == Some(StoredLogMissing) || r.error.value.cause.NotWorkEntry? || r.error.value.cause.InvalidLogs?
    ensures |logs| == 0 ==> r == Reconciled(entry.logs, None)
    ensures known == {} && r.error.Some? ==> r.error.value.Raised?
    ensures |logs| > 0 && !IsUpdate(logs[0], known) && entry.kind != EntryType.Work ==> r.error == Some(Raised(NotWorkEntry))
    decreases |logs|
  {
    if |logs| == 0 then Reconciled(entry.logs, None)
    else
      var step := ApplyOne(entry, known, logs[0]);
      if step.error.Some? then step
      else ApplyRequestLogs(entry.(logs := step.logs), known, logs[1..])
  }

  /** When every known id a request log updates is carried by a log, the
      loop never looks for a stored log in vain. */
  lemma {:induction false} ApplyFindsStoredLogs(entry: CalendarEntry, known: set<int>, logs: seq<RequestLog>)
    requires UpdatesFindTheirLog(entry.logs, known, logs)
    ensures ApplyRequestLogs(entry, known, logs).error != Some(StoredLogMissing)
    decreases |logs|
  {
    if |logs| > 0 {
      var step := ApplyOne(entry, known, logs[0]);
      if step.error.None? {
        var next := entry.(logs := step.logs);
        forall k | 0 <= k < |logs[1..]| && IsUpdate(logs[1..][k], known)
          ensures logs[1..][k].id.value in StoredIds(next.logs)
        {
          assert logs[1..][k] == logs[k + 1];
        }
        ApplyFindsStoredLogs(next, known, logs[1..]);
      }
    }
  }

  /** A loop that runs through keeps the ids, grows by the number of new
      logs, and ends on a sorted list without overlaps. */
  lemma {:induction false} ApplyKeepsIds(entry: CalendarEntry, known: set<int>, logs: seq<RequestLog>)
    ensures var r := ApplyRequestLogs(entry, known, logs);
      r.error.None? ==> (
        && StoredIds(r.logs) == StoredIds(entry.logs)
        && |r.logs| == |entry.logs| + NewCount(logs, known)
        && (|logs| > 0 ==> ListValid(r.logs)))
    decreases |logs|
  {
    if |logs| > 0 {
      var step := ApplyOne(entry, known, logs[0]);
      if step.error.None? {
        var next := entry.(logs := step.logs);
        ApplyKeepsIds(next, known, logs[1..]);
      }
    }
  }

  /** After a loop that runs through, some log shows the last request log:
      the stored log with its id, or a new log without one. */
  lemma {:induction false} ApplyReflectsLast(entry: CalendarEntry, known: set<int>, logs: seq<RequestLog>)
    requires |logs| > 0
    ensures var r := ApplyRequestLogs(entry, known, logs);
      var last := logs[|logs| - 1];
      r.error.None? ==>
        exists x :: (x in r.logs && Reflects(x, last) && (if IsUpdate(last, known) then x.id == last.id else x.id.None?))
    decreases |logs|
  {
    var step := ApplyOne(entry, known, logs[0]);
    if step.error.None? && |logs| > 1 {
      var next := entry.(logs := step.logs);
      assert logs[1..][|logs[1..]| - 1] == logs[|logs| - 1];
      ApplyReflectsLast(next, known, logs[1..]);
    }
  }

  /** A loop that only adds and runs through holds the stored logs and one
      new log per request log. */
  lemma {:induction false} ApplyOnlyAdds(entry: CalendarEntry, known: set<int>, logs: seq<RequestLog>)
    requires forall k :: 0 <= k < |logs| ==> !IsUpdate(logs[k], known)
    ensures var r := ApplyRequestLogs(entry, known, logs);
      r.error.None? ==> multiset(r.logs) == multiset(entry.logs) + multiset(NewLogs(logs))
    decreases |logs|
  {
    if |logs| > 0 {
      var step := ApplyOne(entry, known, logs[0]);
      if step.error.None? {
        var n := NewLog(logs[0].kind, logs[0].start, logs[0].end, logs[0].pause);
        var next := entry.(logs := step.logs);
        var rest := logs[1..];
        forall k | 0 <= k < |rest| ensures !IsUpdate(rest[k], known) {
          assert rest[k] == logs[k + 1];
        }
        ApplyOnlyAdds(next, known, rest);
        NewLogsCons(logs);
        assert multiset(step.logs) == multiset(entry.logs) + multiset{n};
        assert multiset(NewLogs(logs)) == multiset{n} + multiset(NewLogs(rest));
      }
    }
  }

  /** The loop of `create_entry` and `copy_entry`: request logs without
      ids, each added to the entry. */
  function AddRequestLogs(entry: CalendarEntry, logs: seq<RequestLog>): (r: Reconciled)
    requires forall k :: 0 <= k < |logs| ==> logs[k].id.None?
    ensures r.error.Some? ==> r.error.value.Raised?
    ensures entry.kind != EntryType.Work && |logs| > 0 ==> r.error.Some?
    ensures r.error.None? ==>
      && multiset(r.logs) == multiset(entry.logs) + multiset(NewLogs(logs))
      && (|logs| > 0 ==> ListValid(r.logs))
  {
    ApplyKeepsIds(entry, {}, logs);
    ApplyOnlyAdds(entry, {}, logs);
    ApplyRequestLogs(entry, {}, logs)
  }

  // ---------------------------------------------------------------------
  // The handlers

  /** `create_entry` (POST). A taken day answers 409 and changes nothing. A
      WORK entry on a weekend makes `Calendar.create_entry` raise a
      `ValueError` the handler does not catch: 500. Otherwise the empty entry
      is stored and the request logs are added one by one; when one fails,
      the entry is removed again and the answer is 400. */
  function CreateEntryApi(store: Store, day: Date, kind: EntryType, logs: seq<RequestLog>): (r: Response<CalendarEntry>)
    requires forall k :: 0 <= k < |logs| ==> logs[k].id.None?
    ensures r.result.Failure? ==> r.store == store
    ensures r.result == Failure(Unprocessable) <==> !RequestValid(logs)
    ensures r.result == Failure(Conflict) <==> RequestValid(logs) && day in store
    ensures r.result == Failure(ServerError)
        <==> RequestValid(logs) && day !in store && kind == EntryType.Work && !IsWorkDay(day)
    ensures RequestValid(logs) && day !in store && kind != EntryType.Work && |logs| > 0
        ==> r.result == Failure(BadRequest)
    ensures r.result.Failure? ==> r.result.error != NotFound
    ensures r.result.Success? ==>
      && r.store == store[day := r.result.value]
      && r.result.value.day == day && r.result.value.kind == kind
      && multiset(r.result.value.logs) == multiset(NewLogs(logs))
      && (|logs| > 0 ==> ListValid(r.result.value.logs))
      && ResponseValid(r.result.value)
  {
    if !RequestValid(logs) then Response(store, Failure(Unprocessable))
    else if day in store then Response(store, Failure(Conflict))
    else
      match CreateEntry(store, day, kind)
      case Failure(_) => Response(store, Failure(ServerError))
      case Success(created) =>
        var entry := created.value;
        assert created.store == store[day := entry];
        var added := AddRequestLogs(entry, logs);
        if added.error.Some? then
          RemoveUndoesCreate(store, day, kind);
          Response(RemoveEntry(created.store, day).value.store, Failure(BadRequest))
        else
          var saved := entry.(logs := added.logs);
          NewLogsPassResponse(logs, saved);
          if ResponseValid(saved) then Response(store[day := saved], Success(saved))
          else Response(store[day := saved], Failure(ServerError))
  }

  /** The body of the `try` in `update_entry` up to saving: the stored logs
      whose id the request does not mention are removed, then the request
      logs are applied. Every id the loop looks up survived the removal, so
      only a `TimeLogError` can stop it. */
  function ReconcileUpdate(stored: CalendarEntry, kind: EntryType, logs: seq<RequestLog>): (r: Reconciled)
    ensures r.error.Some? ==> r.error.value.Raised?
    ensures |logs| == 0 ==> r.error.None? && forall x :: x in r.logs <==> x in stored.logs && x.id.None?
    ensures |logs| == 0 && (forall k :: 0 <= k < |stored.logs| ==> stored.logs[k].id.Some?) ==> r == Reconciled([], None)
    ensures r.error.None? ==>
      && StoredIds(r.logs) == StoredIds(stored.logs) * RequestIds(logs)
      && (|logs| > 0 ==> ListValid(r.logs))
  {
    var known := StoredIds(stored.logs);
    var kept := DropUnrequested(stored.logs, RequestIds(logs));
    DroppedIds(stored.logs, RequestIds(logs));
    assert UpdatesFindTheirLog(kept, known, logs) by {
      forall k | 0 <= k < |logs| && IsUpdate(logs[k], known)
        ensures logs[k].id.value in StoredIds(kept)
      {
        assert logs[k] in logs;
      }
    }
    var entry := CalendarEntry(stored.day, kind, kept);
    ApplyKeepsIds(entry, known, logs);
    LoopOnlyRaises(entry, known, logs);
    ApplyRequestLogs(entry, known, logs)
  }

  /** When every update finds its log, only a `TimeLogError` stops the loop. */
  lemma LoopOnlyRaises(entry: CalendarEntry, known: set<int>, logs: seq<RequestLog>)
    requires UpdatesFindTheirLog(entry.logs, known, logs)
    ensures var r := ApplyRequestLogs(entry, known, logs);
      r.error.Some? ==> r.error.value.Raised?
  {
    var r := ApplyRequestLogs(entry, known, logs);
    ApplyFindsStoredLogs(entry, known, logs);
    if r.error.Some? {
      assert r.error.value != StoredLogMissing;
    }
  }

  /** `update_entry` (PATCH). A missing day answers 404. A change to a type
      other than WORK empties the logs and saves without looking at the
      request logs. Otherwise the stored logs whose id the request does not
      mention are removed, then each request log updates the stored log
      with its id or is added as new; on a `TimeLogError` the entry is reset
      to its stored state and the answer is 400. The entry is then saved,
      and building the response checks every log again: an update can leave
      a log that fails `validate_log` (a zero pause keeps the old pause), and
      that `ValidationError` is not caught, so the answer is 500 with the
      entry already saved. The weekend rule of `create_entry` is not
      applied. */
  function UpdateEntryApi(store: Store, day: Date, kind: EntryType, logs: seq<RequestLog>): (r: Response<CalendarEntry>)
    ensures r.result.Failure? && r.result.error != ServerError ==> r.store == store
    ensures r.result == Failure(Unprocessable) <==> !RequestValid(logs)
    ensures r.result == Failure(NotFound) <==> RequestValid(logs) && day !in store
    ensures r.result.Failure? ==> r.result.error in {Unprocessable, NotFound, BadRequest, ServerError}
    ensures r.result == Failure(ServerError) ==>
      && day in store && day in r.store
      && r.store == store[day := r.store[day]]
      && r.store[day].day == store[day].day && r.store[day].kind == kind
      && !ResponseValid(r.store[day])
    ensures r.result.Success? ==>
      && day in store
      && r.store == store[day := r.result.value]
      && r.result.value.day == store[day].day && r.result.value.kind == kind
      && ResponseValid(r.result.value)
    ensures RequestValid(logs) && day in store && store[day].kind != kind && kind != EntryType.Work
        ==> r.result == Success(CalendarEntry(store[day].day, kind, []))
    ensures r.result.Success? && (store[day].kind == kind || kind == EntryType.Work) ==>
      && StoredIds(r.result.value.logs) == StoredIds(store[day].logs) * RequestIds(logs)
      && (|logs| > 0 ==> ListValid(r.result.value.logs))
  {
    if !RequestValid(logs) then Response(store, Failure(Unprocessable))
    else if day !in store then Response(store, Failure(NotFound))
    else
      var stored := store[day];
      if stored.kind != kind && kind != EntryType.Work then
        var saved := CalendarEntry(stored.day, kind, []);
        Response(store[day := saved], Success(saved))
      else
        var applied := ReconcileUpdate(stored, kind, logs);
        if applied.error.Some? then Response(store, Failure(BadRequest))
        else
          var saved := CalendarEntry(stored.day, kind, applied.logs);
          if ResponseValid(saved) then Response(store[day := saved], Success(saved))
          else Response(store[day := saved], Failure(ServerError))
  }

  /** `update_entry` applies no weekend rule: a request without logs
      succeeds on every stored day, whatever the type and the weekday. The
      stored logs carry their database ids, so all of them are removed. */
  lemma UpdateWithoutLogsSucceeds(store: Store, day: Date, kind: EntryType)
    requires day in store
    requires forall k :: 0 <= k < |store[day].logs| ==> store[day].logs[k].id.Some?
    ensures var r := UpdateEntryApi(store, day, kind, []);
      && r.result.Success?
      && r.result.value.kind == kind
      && r.result.value.logs == []
      && r.store == store[day := r.result.value]
  {
  }

  /** Shortening a stored 08:00-12:00 log with a one-hour pause to
      08:00-08:30 while sending a zero pause keeps the old pause, which no
      longer fits: the entry is saved with that log and the answer is 500. */
  lemma ShortenedLogKeepsOldPause()
    ensures var day := 739208;
      var stored := CalendarEntry(day, EntryType.Work, [TimeLog(Some(1), LogType.Work, Hours(8), Some(Hours(12)), Hours(1))]);
      var request := [RequestLog(Some(1), LogType.Work, Hours(8), Some(Hours(8) + Minutes(30)), 0)];
      var r := UpdateEntryApi(map[day := stored], day, EntryType.Work, request);
      && r.result == Failure(ServerError)
      && r.store[day].logs == [TimeLog(Some(1), LogType.Work, Hours(8), Some(Hours(8) + Minutes(30)), Hours(1))]
  {
    var day := 739208;
    var x := TimeLog(Some(1), LogType.Work, Hours(8), Some(Hours(12)), Hours(1));
    var y := TimeLog(Some(1), LogType.Work, Hours(8), Some(Hours(8) + Minutes(30)), Hours(1));
    var stored := CalendarEntry(day, EntryType.Work, [x]);
    var l := RequestLog(Some(1), LogType.Work, Hours(8), Some(Hours(8) + Minutes(30)), 0);
    assert ValidLog(AsLog(l));
    assert RequestValid([l]);
    var known := StoredIds(stored.logs);
    assert x in stored.logs;
    assert known == {1};
    assert RequestIds([l]) == {1} by { assert l in [l]; }
    var kept := DropUnrequested(stored.logs, RequestIds([l]));
    assert kept == [x];
    var entry := CalendarEntry(day, EntryType.Work, kept);
    assert UpdatedLog(x, Some(l.kind), Some(l.start), l.end, Some(l.pause)) == y;
    UpdateOnlyLogSucceeds(entry, Some(l.kind), Some(l.start), l.end, Some(l.pause));
    assert IndexOfId(kept, 1) == Some(0);
    assert ApplyOne(entry, known, l) == Reconciled([y], None);
    assert ApplyRequestLogs(entry, known, [l]) == Reconciled([y], None);
    assert ReconcileUpdate(stored, EntryType.Work, [l]) == Reconciled([y], None);
    assert !ValidLog(y);
    assert !ResponseValid(CalendarEntry(day, EntryType.Work, [y]));
  }

  /** What `copy_entry` does once it holds the source entry: create the
      target with the source's type, then add a copy of the type, start, end
      and pause of every source log. A `ValueError` from creating answers
      400; a `TimeLogError` from adding answers 500 and leaves the new,
      empty target entry stored. Building the response checks every copied
      log again; its `ValidationError` is a `ValueError`, so a copied log
      that fails `validate_log` answers 400 with the target already saved. */
  function CopyInto(store: Store, target: Date, source: CalendarEntry): (r: Response<CalendarEntry>)
    ensures target in store || (source.kind == EntryType.Work && !IsWorkDay(target))
        ==> r == Response(store, Failure(BadRequest))
    ensures !(target in store || (source.kind == EntryType.Work && !IsWorkDay(target)))
        ==> || r.result.Success?
            || r == Response(store[target := CalendarEntry(target, source.kind, [])], Failure(ServerError))
            || (&& r.result == Failure(BadRequest)
                && target in r.store && r.store == store[target := r.store[target]]
                && r.store[target].day == target && r.store[target].kind == source.kind
                && !ResponseValid(r.store[target]))
    ensures r.result.Success? ==>
      && r.store == store[target := r.result.value]
      && r.result.value.day == target && r.result.value.kind == source.kind
      && ResponseValid(r.result.value)
  {
    match CreateEntry(store, target, source.kind)
    case Failure(_) => Response(store, Failure(BadRequest))
    case Success(_) =>
      // Creating stored `empty` at `target` and changed nothing else.
      var empty := CalendarEntry(target, source.kind, []);
      var added := AddRequestLogs(empty, Copies(source.logs));
      if added.error.Some? then Response(store[target := empty], Failure(ServerError))
      else
        var saved := empty.(logs := added.logs);
        if ResponseValid(saved) then Response(store[target := saved], Success(saved))
        else Response(store[target := saved], Failure(BadRequest))
  }

  /** A copy that succeeds holds one new log per source log. */
  lemma CopyIntoCopiesLogs(store: Store, target: Date, source: CalendarEntry)
    ensures var r := CopyInto(store, target, source);
      r.result.Success? ==> (
        && multiset(r.result.value.logs) == multiset(NewLogs(Copies(source.logs)))
        && (|source.logs| > 0 ==> ListValid(r.result.value.logs)))
  {
  }

  /** Copies of logs that pass `validate_log` pass it again, so the
      response check can only fail a copy of a log that was already
      invalid when stored. */
  lemma CopyOfValidLogsPassesResponse(store: Store, target: Date, source: CalendarEntry)
    requires ResponseValid(source)
    ensures var r := CopyInto(store, target, source);
      r.result != Failure(BadRequest) <==> !(target in store || (source.kind == EntryType.Work && !IsWorkDay(target)))
  {
    var r := CopyInto(store, target, source);
    var copies := Copies(source.logs);
    assert RequestValid(copies) by {
      forall k | 0 <= k < |copies| ensures ValidLog(AsLog(copies[k])) {
        assert ValidLog(source.logs[k]);
      }
    }
    CopyIntoCopiesLogs(store, target, source);
    if r.result.Success? {
      return;
    }
    var blocked := target in store || (source.kind == EntryType.Work && !IsWorkDay(target));
    if !blocked && r.result == Failure(BadRequest) {
      NewLogsPassResponse(copies, r.store[target]);
    }
  }

  /** `log_data`: the (type, start, end, pause) of each log, without its id. */
  function Copies(logs: seq<TimeLog>): (r: seq<RequestLog>)
    ensures |r| == |logs|
    ensures forall k :: 0 <= k < |logs| ==>
      r[k] == RequestLog(None, logs[k].kind, logs[k].start, logs[k].end, logs[k].pause)
  {
    seq(|logs|, k requires 0 <= k < |logs| => RequestLog(None, logs[k].kind, logs[k].start, logs[k].end, logs[k].pause))
  }

  /** `copy_entry` (POST .../copy) as written: the 404 raised for a missing
      source is an `HTTPException`, which the handler's own `except
      Exception` turns into a 500. */
  function CopyEntryAsWritten(store: Store, target: Date, sourceDay: Date): (r: Response<CalendarEntry>)
    ensures sourceDay !in store ==> r == Response(store, Failure(ServerError))
    ensures sourceDay in store ==> r == CopyInto(store, target, store[sourceDay])
  {
    if sourceDay !in store then Response(store, Failure(ServerError))
    else CopyInto(store, target, store[sourceDay])
  }

  /** `copy_entry` as its 404 is meant: a missing source answers 404. */
  function CopyEntry(store: Store, target: Date, sourceDay: Date): (r: Response<CalendarEntry>)
    ensures r.result == Failure(NotFound) <==> sourceDay !in store
    ensures r.result == Failure(NotFound) ==> r.store == store
    ensures sourceDay in store ==> r == CopyInto(store, target, store[sourceDay])
  {
    if sourceDay !in store then Response(store, Failure(NotFound))
    else CopyInto(store, target, store[sourceDay])
  }

  /** The as-written handler never answers 404, not even for a missing source. */
  lemma CopyNeverAnswersNotFound(store: Store, target: Date, sourceDay: Date)
    ensures CopyEntryAsWritten(store, target, sourceDay).result != Failure(NotFound)
    ensures sourceDay !in store ==> CopyEntryAsWritten(store, target, sourceDay).result == Failure(ServerError)
  {
  }

  /** The two versions differ exactly on a missing source. */
  lemma CopyVersionsAgreeOnExistingSource(store: Store, target: Date, sourceDay: Date)
    ensures CopyEntry(store, target, sourceDay) == CopyEntryAsWritten(store, target, sourceDay) <==> sourceDay in store
  {
  }

  /** `preview_vacation_range` and `create_vacation_range`: a range whose
      end lies before its start answers 400. */
  function VacationRangeCheck(start: Date, end: Date): (r: Option<ApiError>)
    ensures r.Some? <==> end < start
    ensures r.Some? ==> r.value == BadRequest
  {
    if end < start then Some(BadRequest) else None
  }

  /** The range check rejects exactly the ranges that `Calendar.iterate` refuses. */
  lemma VacationRangeCheckMatchesIterate(start: Date, end: Date)
    ensures VacationRangeCheck(start, end).None? <==> Iterate(start, end).Success?
  {
  }
}
