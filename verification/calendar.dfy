/** Calendar rules (app/services/calendar.py): the work-day test, month
    ranges, date iteration, and creating and removing entries in the
    date-keyed store that the repository keeps. The repository is modelled
    as a map from dates to entries; each operation returns the new map. */
module CalendarService {
  import opened Wrappers
  import opened Dates
  import opened Model

  /** `calendar.FRIDAY`. */
  const Friday: int := 4

  /** `is_work_day`: Monday through Friday. */
  predicate IsWorkDay(d: Date) {
    Weekday(d) <= Friday
  }

  /** 2024-11-18 was a Monday: the ordinal and weekday conventions agree with Python's. */
  lemma KnownMonday()
    ensures ToOrdinal(Ymd(2024, 11, 18)) == 739208
    ensures Weekday(739208) == 0 && IsWorkDay(739208) && !IsWorkDay(739208 + 5)
  {
    DaysBeforeMonthTable(2024, 11);
  }

  datatype CalendarError = EntryExists | WorkEntryOnWeekend | NoEntry | EndBeforeStart | InvalidMonth

  /** `get_month_range`: the first and the last date of a month. */
  function MonthRange(year: int, month: int): (r: Result<(Date, Date), CalendarError>)
    ensures r.Success? <==> ValidYear(year) && 1 <= month <= 12
    ensures r.Success? ==>
      && FromOrdinal(r.value.0) == Ymd(year, month, 1)
      && FromOrdinal(r.value.1) == Ymd(year, month, DaysInMonth(year, month))
      && r.value.1 - r.value.0 + 1 == DaysInMonth(year, month)
  {
    if !(ValidYear(year) && 1 <= month <= 12) then Failure(InvalidMonth)
    else
      var first := Ymd(year, month, 1);
      var last := Ymd(year, month, DaysInMonth(year, month));
      FromToOrdinal(first);
      FromToOrdinal(last);
      Success((ToOrdinal(first), ToOrdinal(last)))
  }

  /** February has 29 days in 2000 and 2024 and 28 in 1900 and 2023. */
  lemma FebruaryLengths()
    ensures DaysInMonth(2000, 2) == 29 && DaysInMonth(2024, 2) == 29
    ensures DaysInMonth(1900, 2) == 28 && DaysInMonth(2023, 2) == 28
  {
  }

  predicate StrictlyAscending(s: seq<Date>) {
    forall i, j :: 0 <= i < j < |s| ==> s[i] < s[j]
  }

  /** The dates `start`, `start + 1`, ..., `end`. */
  function DaysFrom(start: Date, end: Date): (s: seq<Date>)
    ensures |s| == if start <= end then end - start + 1 else 0
    ensures forall k :: 0 <= k < |s| ==> s[k] == start + k
    decreases end - start
  {
    if start > end then []
    else if start == end then [start]
    else [start] + DaysFrom(start + 1, end)
  }

  /** `Calendar.iterate`: every date from `start` to `end`, both included. */
  function Iterate(start: Date, end: Date): (r: Result<seq<Date>, CalendarError>)
    ensures r.Failure? <==> end < start
    ensures r.Success? ==>
      && |r.value| == end - start + 1
      && r.value[0] == start && r.value[|r.value| - 1] == end
      && StrictlyAscending(r.value)
      && (forall k :: 0 < k < |r.value| ==> r.value[k] == r.value[k - 1] + 1)
      && (forall d: Date :: d in r.value <==> start <= d <= end)
  {
    if end < start then Failure(EndBeforeStart)
    else
      var s := DaysFrom(start, end);
      assert forall d: Date :: d in s <==> start <= d <= end by {
        forall d: Date | start <= d <= end ensures d in s {
          assert s[d - start] == d;
        }
      }
      Success(s)
  }

  /** Putting a date before an ascending run of later dates keeps it ascending. */
  lemma PrependAscending(x: Date, r: seq<Date>, s: seq<Date>)
    requires StrictlyAscending([x] + s) && StrictlyAscending(r)
    requires forall d :: d in r ==> d in s
    ensures StrictlyAscending([x] + r)
  {
    forall j | 0 <= j < |r| ensures x < r[j] {
      assert r[j] in s;
      var k :| 0 <= k < |s| && s[k] == r[j];
      assert ([x] + s)[0] == x && ([x] + s)[k + 1] == r[j];
      assert ([x] + s)[0] < ([x] + s)[k + 1];
    }
  }

  function KeepWorkDays(s: seq<Date>): (r: seq<Date>)
    ensures forall d :: d in r <==> d in s && IsWorkDay(d)
    ensures StrictlyAscending(s) ==> StrictlyAscending(r)
  {
    if |s| == 0 then []
    else
      assert s == [s[0]] + s[1..];
      var rest := KeepWorkDays(s[1..]);
      if IsWorkDay(s[0]) then
        assert StrictlyAscending(s) ==> StrictlyAscending([s[0]] + rest) by {
          if StrictlyAscending(s) {
            PrependAscending(s[0], rest, s[1..]);
          }
        }
        [s[0]] + rest
      else rest
  }

  /** `Calendar.workdays`: the work days of `iterate`, in order. */
  function Workdays(start: Date, end: Date): (r: Result<seq<Date>, CalendarError>)
    ensures r.Failure? <==> end < start
    ensures r.Success? ==> StrictlyAscending(r.value)
    ensures r.Success? ==> forall d: Date :: d in r.value <==> start <= d <= end && IsWorkDay(d)
  {
    var days :- Iterate(start, end);
    Success(KeepWorkDays(days))
  }

  // ---------------------------------------------------------------------
  // The entry store

  type Store = map<Date, CalendarEntry>

  /** Every entry is filed under its own day. */
  predicate WellFormed(store: Store) {
    forall d :: d in store ==> store[d].day == d
  }

  /** A new store together with what the operation returned. */
  datatype Change<T> = Change(store: Store, value: T)

  /** `Calendar.create_entry`: refuses an existing day first, then a WORK
      entry on a weekend; otherwise stores an entry without logs. */
  function CreateEntry(store: Store, day: Date, kind: EntryType): (r: Result<Change<CalendarEntry>, CalendarError>)
    ensures day in store ==> r == Failure(EntryExists)
    ensures day !in store && kind == EntryType.Work && !IsWorkDay(day) ==> r == Failure(WorkEntryOnWeekend)
    ensures r.Success? <==> day !in store && (kind != EntryType.Work || IsWorkDay(day))
    ensures r.Success? ==>
      && r.value.value == CalendarEntry(day, kind, [])
      && r.value.store.Keys == store.Keys + {day}
      && r.value.store[day] == r.value.value
      && (forall d :: d in store ==> r.value.store[d] == store[d])
    ensures r.Success? && WellFormed(store) ==> WellFormed(r.value.store)
  {
    if day in store then Failure(EntryExists)
    else if kind == EntryType.Work && !IsWorkDay(day) then Failure(WorkEntryOnWeekend)
    else
      var entry := CalendarEntry(day, kind, []);
      Success(Change(store[day := entry], entry))
  }

  /** The days of `days` that have no entry yet, unless the type is WORK. */
  function FreeDays(store: Store, days: seq<Date>, kind: EntryType): (r: seq<Date>)
    ensures forall d :: d in r <==> d in days && d !in store && kind != EntryType.Work
    ensures StrictlyAscending(days) ==> StrictlyAscending(r)
    ensures kind == EntryType.Work ==> r == []
  {
    if |days| == 0 then []
    else
      assert days == [days[0]] + days[1..];
      var rest := FreeDays(store, days[1..], kind);
      if days[0] !in store && kind != EntryType.Work then
        assert StrictlyAscending(days) ==> StrictlyAscending([days[0]] + rest) by {
          if StrictlyAscending(days) {
            PrependAscending(days[0], rest, days[1..]);
          }
        }
        [days[0]] + rest
      else rest
  }

  /** The days of a list of entries, in order. */
  function DaysOf(es: seq<CalendarEntry>): (ds: seq<Date>)
    ensures |ds| == |es| && forall k :: 0 <= k < |es| ==> ds[k] == es[k].day
  {
    seq(|es|, k requires 0 <= k < |es| => es[k].day)
  }

  /** Empty entries of one type for the given days, in order. */
  function EmptyEntries(days: seq<Date>, kind: EntryType): (es: seq<CalendarEntry>)
    ensures DaysOf(es) == days
    ensures forall k :: 0 <= k < |es| ==> es[k].kind == kind && es[k].logs == []
  {
    seq(|days|, k requires 0 <= k < |days| => CalendarEntry(days[k], kind, []))
  }

  /** `Calendar.create_entries`: one empty entry per work day of the range
      that has no entry yet; nothing at all for type WORK. */
  function CreateEntries(store: Store, start: Date, end: Date, kind: EntryType)
    : (r: Result<Change<seq<CalendarEntry>>, CalendarError>)
    ensures r.Failure? <==> end < start
    ensures r.Success? ==> forall d: Date ::
      (d in DaysOf(r.value.value) <==> start <= d <= end && IsWorkDay(d) && d !in store && kind != EntryType.Work)
    ensures r.Success? ==> StrictlyAscending(DaysOf(r.value.value))
    ensures r.Success? ==> forall k :: 0 <= k < |r.value.value| ==>
      r.value.value[k].kind == kind && r.value.value[k].logs == []
    ensures r.Success? ==> forall d ::
      (d in r.value.store <==> d in store || d in DaysOf(r.value.value))
    ensures r.Success? ==> forall d :: d in r.value.store ==>
      r.value.store[d] == if d in store then store[d] else CalendarEntry(d, kind, [])
    ensures r.Success? && kind == EntryType.Work ==> r.value == Change(store, [])
  {
    var workdays :- Workdays(start, end);
    var days := FreeDays(store, workdays, kind);
    var created := EmptyEntries(days, kind);
    Success(Change(store + map d | d in days :: CalendarEntry(d, kind, []), created))
  }

  /** `Calendar.remove_entry`: refuses a day without entry; otherwise deletes
      and returns it. */
  function RemoveEntry(store: Store, day: Date): (r: Result<Change<CalendarEntry>, CalendarError>)
    ensures r.Failure? <==> day !in store
    ensures r.Failure? ==> r.error == NoEntry
    ensures r.Success? ==>
      && r.value.value == store[day]
      && r.value.store.Keys == store.Keys - {day}
      && (forall d :: d in r.value.store ==> r.value.store[d] == store[d])
  {
    if day !in store then Failure(NoEntry)
    else Success(Change(store - {day}, store[day]))
  }

  /** Removing an entry just created restores the store and hands back the
      created entry: the rollback `create_entry`'s callers rely on. */
  lemma RemoveUndoesCreate(store: Store, day: Date, kind: EntryType)
    requires CreateEntry(store, day, kind).Success?
    ensures var created := CreateEntry(store, day, kind).value;
      RemoveEntry(created.store, day) == Success(Change(store, created.value))
  {
    var created := CreateEntry(store, day, kind).value;
    assert created.store - {day} == store;
  }

  /** The days in [start, end] that have an entry, ascending. */
  function StoredDays(store: Store, start: Date, end: Date): (s: seq<Date>)
    ensures forall d :: d in s <==> d in store && start <= d <= end
    ensures StrictlyAscending(s)
    ensures forall k :: 0 <= k < |s| ==> start <= s[k]
    decreases end - start
  {
    if start > end then []
    else
      var rest := if start == end then [] else StoredDays(store, start + 1, end);
      if start in store then [start] + rest else rest
  }

  /** The entries stored for `days`, in the same order. */
  function EntriesOf(store: Store, days: seq<Date>): (es: seq<CalendarEntry>)
    requires forall d :: d in days ==> d in store
    ensures |es| == |days|
    ensures forall k :: 0 <= k < |days| ==> es[k] == store[days[k]]
    ensures forall d :: d in days ==> store[d] in es
  {
    var es := seq(|days|, k requires 0 <= k < |days| => store[days[k]]);
    forall d | d in days
      ensures store[d] in es
    {
      var k :| 0 <= k < |days| && days[k] == d;
      assert es[k] == store[d];
    }
    es
  }

  /** `Calendar.remove_entries`: deletes and returns every entry in
      [start, end] (ascending by day); an empty range returns nothing and
      deletes nothing. */
  function RemoveEntries(store: Store, start: Date, end: Date): (r: Change<seq<CalendarEntry>>)
    ensures forall k :: 0 <= k < |r.value| ==> exists d :: d in store && start <= d <= end && r.value[k] == store[d]
    ensures forall d :: d in store && start <= d <= end ==> store[d] in r.value
    ensures |r.value| == |set d | d in store && start <= d <= end|
    ensures forall d :: d in r.store <==> d in store && !(start <= d <= end)
    ensures forall d :: d in r.store ==> r.store[d] == store[d]
    ensures (forall d :: d in store ==> !(start <= d <= end)) ==> r == Change(store, [])
    ensures WellFormed(store) ==> forall k :: 0 <= k < |r.value| ==> start <= r.value[k].day <= end
  {
    var days := StoredDays(store, start, end);
    DistinctCardinality(days, set d | d in store && start <= d <= end);
    var removed := EntriesOf(store, days);
    forall k | 0 <= k < |removed|
      ensures days[k] in store && start <= days[k] <= end && removed[k] == store[days[k]]
    {
      assert days[k] in days;
    }
    Change(OutsideRange(store, start, end), removed)
  }

  /** The store without the days in [start, end]. */
  function OutsideRange(store: Store, start: Date, end: Date): (m: Store)
    ensures forall d :: d in m <==> d in store && !(start <= d <= end)
    ensures forall d :: d in m ==> m[d] == store[d]
    ensures (forall d :: d in store ==> !(start <= d <= end)) ==> m == store
  {
    var m := map d | d in store && !(start <= d <= end) :: store[d];
    if forall d :: d in store ==> !(start <= d <= end) then
      assert m == store;
      m
    else
      m
  }

  /** A strictly ascending sequence has as many elements as the set of its elements. */
  lemma {:induction false} DistinctCardinality(s: seq<Date>, members: set<Date>)
    requires StrictlyAscending(s)
    requires forall d :: d in s <==> d in members
    ensures |s| == |members|
  {
    if |s| > 0 {
      var rest := members - {s[0]};
      assert forall d :: d in s[1..] <==> d in rest by {
        forall d ensures d in s[1..] <==> d in rest {
          if d in s[1..] {
            var k :| 1 <= k < |s| && s[k] == d;
            assert s[0] < s[k];
          }
          if d in rest {
            assert d in s && d != s[0];
            var k :| 0 <= k < |s| && s[k] == d;
            assert s[1..][k - 1] == d;
          }
        }
      }
      DistinctCardinality(s[1..], rest);
    }
  }
}
