/** Flextime, labour-law compliance and the statistics pass over a sequence
    of calendar entries (app/services/statistics.py). Violation detail texts
    are not modelled; a violation is its day and its type. */
module Statistics {
  import opened Wrappers
  import opened Timely
  import opened Dates
  import opened Model

  datatype ViolationType = MaxHours | BreakTime | RestPeriod

  datatype ComplianceViolation = ComplianceViolation(day: Date, kind: ViolationType)

  datatype TypeCount = TypeCount(work: nat, flexDays: nat, vacation: nat, holiday: nat, sick: nat, travel: nat)

  datatype Stats = Stats(
    counts: TypeCount,
    totalWorkHours: Duration,
    flextimeBalance: Duration,
    violations: seq<ComplianceViolation>)

  /** `StatisticsConfiguration`. */
  datatype Config = Config(
    standardWorkHours: Duration,
    maxWorkHours: Duration,
    minBreakThreshold: Duration,
    minBreakDuration: Duration,
    maxBreakThreshold: Duration,
    maxBreakDuration: Duration,
    minRestPeriod: Duration)

  /** The defaults: 8 h standard day, 10 h maximum, 30 min break from 6 h,
      45 min break from 9 h, 11 h rest between days. */
  const DefaultConfig: Config := Config(
    Hours(8), Hours(10), Hours(6), Minutes(30), Hours(9), Minutes(45), Hours(11))

  /** `calculate_flextime`. The FLEXTIME branch of the source is dead: a
      FLEXTIME entry has no duration, so only WORK entries get a value. */
  function CalculateFlextime(config: Config, entry: CalendarEntry): (r: Option<Duration>)
    ensures r.Some? <==> entry.kind == EntryType.Work
    ensures r.Some? ==> r.value + config.standardWorkHours == SumDurations(WorkLogs(entry.logs))
  {
    if (entry.kind != EntryType.Work && entry.kind != EntryType.Flextime) || EntryDuration(entry).None? then None
    else if entry.kind == EntryType.Flextime then Some(-config.standardWorkHours)
    else Some(EntryDuration(entry).value - config.standardWorkHours)
  }

  // ---------------------------------------------------------------------
  // Daily rules

  /** Work time of the day as `_check_daily_compliance` reads it (None as zero). */
  function DailyWork(entry: CalendarEntry): Duration {
    EntryDuration(entry).GetOr(0)
  }

  function DailyPause(entry: CalendarEntry): Duration {
    EntryPause(entry).GetOr(0)
  }

  /** The break a day of `work` demands: none below the lower threshold. */
  function RequiredBreak(config: Config, work: Duration): Option<Duration> {
    if work >= config.maxBreakThreshold then Some(config.maxBreakDuration)
    else if work >= config.minBreakThreshold then Some(config.minBreakDuration)
    else None
  }

  predicate HasViolation(vs: seq<ComplianceViolation>, kind: ViolationType) {
    exists k :: 0 <= k < |vs| && vs[k].kind == kind
  }

  /** `_check_daily_compliance`: a MAX_HOURS violation strictly above the
      maximum, then at most one BREAK_TIME violation from the tiered rule. */
  function DailyCompliance(config: Config, entry: CalendarEntry): (vs: seq<ComplianceViolation>)
    ensures |vs| <= 2
    ensures forall k :: 0 <= k < |vs| ==> vs[k].day == entry.day && vs[k].kind != RestPeriod
    ensures HasViolation(vs, MaxHours) <==> DailyWork(entry) > config.maxWorkHours
    ensures HasViolation(vs, BreakTime)
        <==> RequiredBreak(config, DailyWork(entry)).Some?
             && DailyPause(entry) < RequiredBreak(config, DailyWork(entry)).value
    ensures |vs| == 2 ==> vs[0].kind == MaxHours && vs[1].kind == BreakTime
  {
    var work := DailyWork(entry);
    var pause := DailyPause(entry);
    var maxHours := if work > config.maxWorkHours
      then [ComplianceViolation(entry.day, MaxHours)] else [];
    var breaks :=
      if work >= config.maxBreakThreshold then
        (if pause < config.maxBreakDuration then [ComplianceViolation(entry.day, BreakTime)] else [])
      else if work >= config.minBreakThreshold then
        (if pause < config.minBreakDuration then [ComplianceViolation(entry.day, BreakTime)] else [])
      else [];
    var vs := maxHours + breaks;
    assert HasViolation(vs, MaxHours) <==> |maxHours| == 1 by {
      if |maxHours| == 1 {
        assert vs[0].kind == MaxHours;
      }
    }
    assert HasViolation(vs, BreakTime) <==> |breaks| == 1 by {
      if |breaks| == 1 {
        assert vs[|vs| - 1].kind == BreakTime;
      }
    }
    vs
  }

  /** With the default configuration exactly ten hours of work with the
      long break taken is compliant; one second more is not. Both sit at
      the boundary of the maximum-hours condition in `DailyCompliance`. */
  lemma TenHoursIsCompliant(entry: CalendarEntry)
    requires entry.kind == EntryType.Work
    requires DailyWork(entry) == Hours(10) && DailyPause(entry) >= Minutes(45)
    ensures DailyCompliance(DefaultConfig, entry) == []
  {
  }

  lemma OverTenHoursViolates(entry: CalendarEntry)
    requires DailyWork(entry) == Hours(10) + 1
    ensures HasViolation(DailyCompliance(DefaultConfig, entry), MaxHours)
  {
  }

  // ---------------------------------------------------------------------
  // Rest period between two days

  /** Seconds from the end of one day's last work to the start of the next day's first work. */
  function RestSeconds(previousDay: Date, lastEnd: TimeOfDay, currentDay: Date, firstStart: TimeOfDay): Duration {
    (currentDay * SecondsPerDay + firstStart) - (previousDay * SecondsPerDay + lastEnd)
  }

  /** `_check_rest_period`: compares the last WORK log of the previous entry
      with the first WORK log of the current one, in list order. */
  function CheckRestPeriod(config: Config, previous: CalendarEntry, current: CalendarEntry)
    : (r: Option<ComplianceViolation>)
    ensures r.Some? ==> r.value.kind == RestPeriod
    ensures |WorkLogs(previous.logs)| == 0 || |WorkLogs(current.logs)| == 0 ==> r.None?
    ensures |WorkLogs(previous.logs)| > 0 && |WorkLogs(current.logs)| > 0 ==>
        var last := WorkLogs(previous.logs)[|WorkLogs(previous.logs)| - 1];
        var first := WorkLogs(current.logs)[0];
        && (last.end.None? ==> r == Some(ComplianceViolation(previous.day, RestPeriod)))
        && (last.end.Some? ==>
              (r.Some? <==> RestSeconds(previous.day, last.end.value, current.day, first.start) < config.minRestPeriod)
              && (r.Some? ==> r.value.day == current.day))
  {
    var previousWork := WorkLogs(previous.logs);
    var currentWork := WorkLogs(current.logs);
    if |previousWork| > 0 && |currentWork| > 0 then
      var last := previousWork[|previousWork| - 1];
      var first := currentWork[0];
      if last.end.None? then
        Some(ComplianceViolation(previous.day, RestPeriod))
      else if RestSeconds(previous.day, last.end.value, current.day, first.start) < config.minRestPeriod then
        Some(ComplianceViolation(current.day, RestPeriod))
      else None
    else None
  }

  lemma {:induction false} WorkLogsIdempotent(logs: seq<TimeLog>)
    ensures WorkLogs(WorkLogs(logs)) == WorkLogs(logs)
  {
    if |logs| > 0 {
      WorkLogsIdempotent(logs[1..]);
      if logs[0].kind == LogType.Work {
        assert ([logs[0]] + WorkLogs(logs[1..]))[1..] == WorkLogs(logs[1..]);
      }
    }
  }

  /** TRAVEL logs play no part in the rest check: dropping them changes nothing. */
  lemma RestIgnoresTravel(config: Config, previous: CalendarEntry, current: CalendarEntry)
    ensures CheckRestPeriod(config, previous, current)
         == CheckRestPeriod(config, previous.(logs := WorkLogs(previous.logs)),
                            current.(logs := WorkLogs(current.logs)))
  {
    WorkLogsIdempotent(previous.logs);
    WorkLogsIdempotent(current.logs);
  }

  /** Exactly the minimum rest (11 h by default) is enough: the boundary
      case of the condition in `CheckRestPeriod`, which reports a
      violation exactly when the rest is shorter than the minimum. */
  lemma ExactMinimumRestIsEnough(previous: CalendarEntry, current: CalendarEntry)
    requires |WorkLogs(previous.logs)| > 0 && |WorkLogs(current.logs)| > 0
    requires WorkLogs(previous.logs)[|WorkLogs(previous.logs)| - 1].end.Some?
    requires RestSeconds(previous.day, WorkLogs(previous.logs)[|WorkLogs(previous.logs)| - 1].end.value,
                         current.day, WorkLogs(current.logs)[0].start) == Hours(11)
    ensures CheckRestPeriod(DefaultConfig, previous, current).None?
  {
  }

  // ---------------------------------------------------------------------
  // Per-entry compliance

  /** `compliance_check`: nothing for non-WORK entries; otherwise the daily
      violations, then the rest violation when a previous entry is given. */
  function ComplianceCheck(config: Config, entry: CalendarEntry, previous: Option<CalendarEntry>)
    : (vs: seq<ComplianceViolation>)
    ensures entry.kind != EntryType.Work ==> vs == []
    ensures entry.kind == EntryType.Work ==>
        var daily := DailyCompliance(config, entry);
        && |daily| <= |vs| <= |daily| + 1
        && vs[..|daily|] == daily
        && (|vs| > |daily| <==> previous.Some? && CheckRestPeriod(config, previous.value, entry).Some?)
        && (|vs| > |daily| ==> vs[|daily|] == CheckRestPeriod(config, previous.value, entry).value)
  {
    if entry.kind != EntryType.Work then []
    else
      var daily := DailyCompliance(config, entry);
      if previous.Some? then
        match CheckRestPeriod(config, previous.value, entry)
        case Some(v) => daily + [v]
        case None => daily
      else daily
  }

  // ---------------------------------------------------------------------
  // The statistics pass, and the reference definitions it is proved against

  function CountOf(es: seq<CalendarEntry>, kind: EntryType): nat {
    if |es| == 0 then 0
    else CountOf(es[..|es| - 1], kind) + (if es[|es| - 1].kind == kind then 1 else 0)
  }

  predicate HasTravel(e: CalendarEntry) {
    exists k :: 0 <= k < |e.logs| && e.logs[k].kind == LogType.Travel
  }

  function CountTravel(es: seq<CalendarEntry>): nat {
    if |es| == 0 then 0
    else CountTravel(es[..|es| - 1]) + (if HasTravel(es[|es| - 1]) then 1 else 0)
  }

  /** Sum of the work durations of the WORK entries. */
  function TotalWork(es: seq<CalendarEntry>): Duration {
    if |es| == 0 then 0
    else TotalWork(es[..|es| - 1])
         + (if es[|es| - 1].kind == EntryType.Work then SumDurations(WorkLogs(es[|es| - 1].logs)) else 0)
  }

  /** An entry the pass checks for compliance: WORK with a non-zero duration. */
  predicate Checked(e: CalendarEntry) {
    e.kind == EntryType.Work && SumDurations(WorkLogs(e.logs)) != 0
  }

  /** The violations of all entries, each checked against the entry just before it. */
  function ViolationsOf(config: Config, es: seq<CalendarEntry>): seq<ComplianceViolation> {
    if |es| == 0 then []
    else
      var n := |es| - 1;
      ViolationsOf(config, es[..n])
      + (if Checked(es[n]) then ComplianceCheck(config, es[n], if n > 0 then Some(es[n - 1]) else None) else [])
  }

  /** How every reference definition grows by one entry. */
  lemma PrefixStep(config: Config, entries: seq<CalendarEntry>, i: nat)
    requires i < |entries|
    ensures var e := entries[i];
      && (forall t :: CountOf(entries[..i + 1], t) == CountOf(entries[..i], t) + (if e.kind == t then 1 else 0))
      && CountTravel(entries[..i + 1]) == CountTravel(entries[..i]) + (if HasTravel(e) then 1 else 0)
      && TotalWork(entries[..i + 1])
         == TotalWork(entries[..i]) + (if e.kind == EntryType.Work then SumDurations(WorkLogs(e.logs)) else 0)
      && ViolationsOf(config, entries[..i + 1])
         == ViolationsOf(config, entries[..i])
            + (if Checked(e) then ComplianceCheck(config, e, if i > 0 then Some(entries[i - 1]) else None) else [])
  {
    var p := entries[..i + 1];
    assert p[..i] == entries[..i] && p[i] == entries[i];
    assert i > 0 ==> p[i - 1] == entries[i - 1];
  }

  /** `calculate_statistics`, one pass over the entries. */
  method CalculateStatistics(config: Config, entries: seq<CalendarEntry>) returns (st: Stats)
    ensures st.counts.work == CountOf(entries, EntryType.Work)
    ensures st.counts.flexDays == CountOf(entries, EntryType.Flextime)
    ensures st.counts.vacation == CountOf(entries, EntryType.Vacation)
    ensures st.counts.holiday == CountOf(entries, EntryType.Holiday)
    ensures st.counts.sick == CountOf(entries, EntryType.Sick)
    ensures st.counts.travel == CountTravel(entries)
    ensures st.counts.work + st.counts.flexDays + st.counts.vacation + st.counts.holiday + st.counts.sick
         == |entries|
    ensures st.totalWorkHours == TotalWork(entries)
    ensures st.flextimeBalance
         == st.totalWorkHours - (st.counts.work + st.counts.flexDays) * config.standardWorkHours
    ensures st.violations == ViolationsOf(config, entries)
  {
    var work, flex, vacation, holiday, sick, travel := 0, 0, 0, 0, 0, 0;
    var total: Duration := 0;
    var workDays := 0;
    var violations: seq<ComplianceViolation> := [];
    var previous: Option<CalendarEntry> := None;
    var i := 0;
    while i < |entries|
      invariant 0 <= i <= |entries|
      invariant work == CountOf(entries[..i], EntryType.Work)
      invariant flex == CountOf(entries[..i], EntryType.Flextime)
      invariant vacation == CountOf(entries[..i], EntryType.Vacation)
      invariant holiday == CountOf(entries[..i], EntryType.Holiday)
      invariant sick == CountOf(entries[..i], EntryType.Sick)
      invariant travel == CountTravel(entries[..i])
      invariant work + flex + vacation + holiday + sick == i
      invariant workDays == work + flex
      invariant total == TotalWork(entries[..i])
      invariant violations == ViolationsOf(config, entries[..i])
      invariant previous == if i > 0 then Some(entries[i - 1]) else None
    {
      var entry := entries[i];
      PrefixStep(config, entries, i);
      match entry.kind {
        case Work => work := work + 1;
        case Flextime => flex := flex + 1;
        case Vacation => vacation := vacation + 1;
        case Holiday => holiday := holiday + 1;
        case Sick => sick := sick + 1;
      }
      if HasTravel(entry) {
        travel := travel + 1;
      }
      if entry.kind == EntryType.Work || entry.kind == EntryType.Flextime {
        workDays := workDays + 1;
        var duration := EntryDuration(entry);
        if duration.Some? && duration.value != 0 {
          total := total + duration.value;
          violations := violations + ComplianceCheck(config, entry, previous);
        }
      }
      previous := Some(entry);
      i := i + 1;
    }
    assert entries[..i] == entries;
    var balance := total - workDays * config.standardWorkHours;
    st := Stats(TypeCount(work, flex, vacation, holiday, sick, travel), total, balance, violations);
  }

  /** `v` is dated the day of a checked entry of `es`, or the day of the entry before it. */
  predicate FromCheckedEntry(es: seq<CalendarEntry>, v: ComplianceViolation) {
    exists k :: 0 <= k < |es| && Checked(es[k]) && (v.day == es[k].day || (k > 0 && v.day == es[k - 1].day))
  }

  /** Every violation the pass reports belongs to a checked WORK entry: it is
      dated that entry's day or, for an open-ended rest check, the day before. */
  lemma {:induction false} ViolationsComeFromCheckedEntries(config: Config, es: seq<CalendarEntry>)
    ensures forall v :: v in ViolationsOf(config, es) ==> FromCheckedEntry(es, v)
  {
    if |es| > 0 {
      var n := |es| - 1;
      ViolationsComeFromCheckedEntries(config, es[..n]);
      var prev := if n > 0 then Some(es[n - 1]) else None;
      forall v | v in ViolationsOf(config, es)
        ensures FromCheckedEntry(es, v)
      {
        if v in ViolationsOf(config, es[..n]) {
          assert FromCheckedEntry(es[..n], v);
          var k :| 0 <= k < n && Checked(es[..n][k])
            && (v.day == es[..n][k].day || (k > 0 && v.day == es[..n][k - 1].day));
          assert es[..n][k] == es[k];
          if k > 0 {
            assert es[..n][k - 1] == es[k - 1];
          }
        } else {
          var vs := ComplianceCheck(config, es[n], prev);
          assert Checked(es[n]) && v in vs;
          var daily := DailyCompliance(config, es[n]);
          var j :| 0 <= j < |vs| && vs[j] == v;
          if j < |daily| {
            assert vs[j] == daily[j];
          } else {
            assert v == CheckRestPeriod(config, prev.value, es[n]).value;
          }
        }
      }
    }
  }

  /** No entries, no statistics. */
  lemma EmptyStatistics(config: Config)
    ensures CountOf([], EntryType.Work) == 0 && CountTravel([]) == 0
    ensures TotalWork([]) == 0 && ViolationsOf(config, []) == []
  {
  }
}
