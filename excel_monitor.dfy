/**
 * The spreadsheet monitor: a retrying reader, a fingerprint-and-cache check
 * that decides when to reload and what rows to hand back, the poll loop that
 * forces a check every poll interval, and the file-event handler that forces
 * one when the file changes, with a cooldown.
 *
 * The clock, the loader and the fingerprint are inputs: `now` is the value of
 * the clock at the call, `load(k)` is what the k-th read attempt of the call
 * produces, and the fingerprint is a fixed function of the loaded frame.
 */
module Monitoring {
  import opened Wrappers
  import opened Tables
  import Text

  /** The digest of a frame's rendering; only compared for equality. */
  type Digest = string

  const MaxRetries: nat := 3
  const CacheTtl: real := 2.0
  const PollInterval: real := 60.0
  const Cooldown: real := 1.0

  /** What one read attempt produces: a frame, a permission or I/O error, or any other error. */
  datatype LoadOutcome = Loaded(table: Table) | Transient | OtherError

  datatype LoadError = RetriesExhausted | Unexpected

  datatype ReadOutcome = Read(table: Table) | ReadFailed(error: LoadError)

  /** The outcome of the retrying read with the attempts, sleeps and error logs it made. */
  datatype ReadReport = ReadReport(outcome: ReadOutcome, attempts: nat, sleeps: nat, errorLogs: nat)

  /** The retrying read from attempt `attempt` on; one sleep precedes each attempt after the first. */
  function ReadFrom(load: nat -> LoadOutcome, attempt: nat): ReadReport
    requires attempt < MaxRetries
    decreases MaxRetries - attempt
  {
    match load(attempt)
    case Loaded(t) => ReadReport(Read(t), attempt + 1, attempt, 0)
    case OtherError => ReadReport(ReadFailed(Unexpected), attempt + 1, attempt, 0)
    case Transient =>
      if attempt == MaxRetries - 1 then ReadReport(ReadFailed(RetriesExhausted), attempt + 1, attempt, 1)
      else ReadFrom(load, attempt + 1)
  }

  function SafeRead(load: nat -> LoadOutcome): ReadReport {
    ReadFrom(load, 0)
  }

  lemma {:induction false} ReadFromFacts(load: nat -> LoadOutcome, attempt: nat)
    requires attempt < MaxRetries
    ensures var r := ReadFrom(load, attempt);
      && attempt < r.attempts <= MaxRetries
      && r.sleeps == r.attempts - 1
      && (forall k :: attempt <= k < r.attempts - 1 ==> load(k).Transient?)
      && (r.outcome.Read? <==> load(r.attempts - 1).Loaded?)
      && (r.outcome.Read? ==> r.outcome.table == load(r.attempts - 1).table)
      && (r.outcome == ReadFailed(Unexpected) <==> load(r.attempts - 1).OtherError?)
      && (r.outcome == ReadFailed(RetriesExhausted) <==> load(r.attempts - 1).Transient?)
      && (load(r.attempts - 1).Transient? ==> r.attempts == MaxRetries)
      && r.errorLogs == if r.outcome == ReadFailed(RetriesExhausted) then 1 else 0
    decreases MaxRetries - attempt
  {
    if load(attempt).Transient? && attempt < MaxRetries - 1 {
      ReadFromFacts(load, attempt + 1);
    }
  }

  /**
   * The retrying read makes between one and three attempts and sleeps only
   * between them; every attempt but the last failed transiently; the last one
   * decides: a frame is returned, any other error escapes at once, and a third
   * transient failure escapes after one error log.
   */
  lemma SafeReadFacts(load: nat -> LoadOutcome)
    ensures var r := SafeRead(load);
      && 1 <= r.attempts <= MaxRetries
      && r.sleeps == r.attempts - 1
      && (forall k :: 0 <= k < r.attempts - 1 ==> load(k).Transient?)
      && (r.outcome.Read? <==> load(r.attempts - 1).Loaded?)
      && (r.outcome.Read? ==> r.outcome.table == load(r.attempts - 1).table)
      && (r.outcome == ReadFailed(Unexpected) <==> load(r.attempts - 1).OtherError?)
      && (r.outcome == ReadFailed(RetriesExhausted) <==> load(r.attempts - 1).Transient?)
      && (load(r.attempts - 1).Transient? ==> r.attempts == MaxRetries)
      && r.errorLogs == if r.outcome == ReadFailed(RetriesExhausted) then 1 else 0
  {
    ReadFromFacts(load, 0);
  }

  /** The read looks at no attempt beyond the ones it reports: loaders that agree on those read alike. */
  lemma {:induction false} ReadFromOnlyAttempts(load: nat -> LoadOutcome, other: nat -> LoadOutcome, attempt: nat)
    requires attempt < MaxRetries
    requires forall k :: attempt <= k < ReadFrom(load, attempt).attempts ==> other(k) == load(k)
    ensures ReadFrom(other, attempt) == ReadFrom(load, attempt)
    decreases MaxRetries - attempt
  {
    ReadFromFacts(load, attempt);
    assert other(attempt) == load(attempt);
    if load(attempt).Transient? && attempt < MaxRetries - 1 {
      ReadFromOnlyAttempts(load, other, attempt + 1);
    }
  }

  /** `read_excel_safe`: up to three attempts, retrying only a permission or I/O error. */
  method ReadExcelSafe(load: nat -> LoadOutcome) returns (report: ReadReport)
    ensures report == SafeRead(load)
  {
    var sleeps := 0;
    for attempt := 0 to MaxRetries
      invariant sleeps == attempt
      invariant forall k :: 0 <= k < attempt ==> load(k).Transient?
      invariant attempt < MaxRetries ==> ReadFrom(load, attempt) == SafeRead(load)
      invariant attempt < MaxRetries
    {
      match load(attempt)
      case Loaded(t) =>
        return ReadReport(Read(t), attempt + 1, sleeps, 0);
      case OtherError =>
        return ReadReport(ReadFailed(Unexpected), attempt + 1, sleeps, 0);
      case Transient =>
        if attempt == MaxRetries - 1 {
          return ReadReport(ReadFailed(RetriesExhausted), attempt + 1, sleeps, 1);
        }
        sleeps := sleeps + 1;
    }
    assert false;
  }

  /** The monitor's mutable fields. */
  datatype MonitorState = MonitorState(
    lastDataHash: Option<Digest>,
    dataCache: Option<Table>,
    cacheTime: real,
    lastCheckTime: real,
    stopFlag: bool)

  const InitialState: MonitorState := MonitorState(None, None, 0.0, 0.0, false)

  /** The new state, the rows handed back, and the read made (`None` when the cache was served). */
  datatype CheckReport = CheckReport(state: MonitorState, rows: Table, read: Option<ReadReport>)

  /** A non-forced check with a cache younger than the freshness window returns it without reading. */
  predicate ServesFromCache(s: MonitorState, force: bool, now: real) {
    !force && s.dataCache.Some? && now - s.cacheTime < CacheTtl
  }

  /** `check_excel_data` as a transition of the monitor's fields. */
  function Check(s: MonitorState, headers: seq<string>, fingerprint: Table -> Digest,
                 force: bool, now: real, load: nat -> LoadOutcome): CheckReport
  {
    if ServesFromCache(s, force, now) then CheckReport(s, s.dataCache.value, None)
    else
      var report := SafeRead(load);
      match report.outcome
      case ReadFailed(_) => CheckReport(s, EmptyTable, Some(report))
      case Read(df) =>
        var currentHash := fingerprint(df);
        match DropBlank(df, headers)
        case None => CheckReport(s, EmptyTable, Some(report))
        case Some(validRows) =>
          if force || s.lastDataHash != Some(currentHash) then
            CheckReport(s.(lastDataHash := Some(currentHash), dataCache := Some(validRows), cacheTime := now),
                        validRows, Some(report))
          else
            CheckReport(s, s.dataCache.GetOr(validRows), Some(report))
  }

  /** The hash and the cache are only ever set together. */
  predicate Coherent(s: MonitorState) {
    s.lastDataHash.Some? <==> s.dataCache.Some?
  }

  lemma CheckKeepsCoherent(s: MonitorState, headers: seq<string>, fingerprint: Table -> Digest,
                           force: bool, now: real, load: nat -> LoadOutcome)
    requires Coherent(s)
    ensures Coherent(Check(s, headers, fingerprint, force, now, load).state)
  {
  }

  /**
   * A check touches neither the poll timestamp nor the stop flag. The cache time
   * either stays or becomes `now`; when `now` is not earlier than the old cache
   * time, the cache time does not decrease.
   */
  lemma CheckFrame(s: MonitorState, headers: seq<string>, fingerprint: Table -> Digest,
                   force: bool, now: real, load: nat -> LoadOutcome)
    ensures var t := Check(s, headers, fingerprint, force, now, load).state;
      && t.lastCheckTime == s.lastCheckTime
      && t.stopFlag == s.stopFlag
      && (t.cacheTime == s.cacheTime || t.cacheTime == now)
      && (now >= s.cacheTime ==> t.cacheTime >= s.cacheTime)
  {
  }

  /** A fresh cache is returned to a non-forced call with no read and no change (also `get_valid_rows`). */
  lemma FreshCacheServed(s: MonitorState, headers: seq<string>, fingerprint: Table -> Digest,
                         now: real, load: nat -> LoadOutcome)
    requires s.dataCache.Some? && now - s.cacheTime < CacheTtl
    ensures Check(s, headers, fingerprint, false, now, load) == CheckReport(s, s.dataCache.value, None)
  {
  }

  /** A forced check, or a changed fingerprint, replaces hash, cache and cache time and returns the new rows. */
  lemma ChangedOrForcedReplaces(s: MonitorState, headers: seq<string>, fingerprint: Table -> Digest,
                                force: bool, now: real, load: nat -> LoadOutcome, df: Table)
    requires !ServesFromCache(s, force, now)
    requires SafeRead(load).outcome == Read(df) && HasColumns(df, headers)
    requires force || s.lastDataHash != Some(fingerprint(df))
    ensures var c := Check(s, headers, fingerprint, force, now, load);
      var v := DropBlank(df, headers).value;
      && c.rows == v
      && c.state == s.(lastDataHash := Some(fingerprint(df)), dataCache := Some(v), cacheTime := now)
      && c.read == Some(SafeRead(load))
  {
  }

  /** A non-forced check with an unchanged fingerprint returns the cache (or the new rows if there is none) and changes nothing. */
  lemma UnchangedKeepsState(s: MonitorState, headers: seq<string>, fingerprint: Table -> Digest,
                            now: real, load: nat -> LoadOutcome, df: Table)
    requires !ServesFromCache(s, false, now)
    requires SafeRead(load).outcome == Read(df) && HasColumns(df, headers)
    requires s.lastDataHash == Some(fingerprint(df))
    ensures var c := Check(s, headers, fingerprint, false, now, load);
      && c.state == s
      && c.rows == (if s.dataCache.Some? then s.dataCache.value else DropBlank(df, headers).value)
  {
  }

  /** Any failure after the freshness test (a failed read or a missing required column) yields an empty frame and no change. */
  lemma FailureKeepsState(s: MonitorState, headers: seq<string>, fingerprint: Table -> Digest,
                          force: bool, now: real, load: nat -> LoadOutcome)
    requires !ServesFromCache(s, force, now)
    requires SafeRead(load).outcome.ReadFailed? || !HasColumns(SafeRead(load).outcome.table, headers)
    ensures var c := Check(s, headers, fingerprint, force, now, load);
      c.state == s && c.rows == EmptyTable
  {
  }

  /** Three transient failures in a row: the check returns an empty frame, changes nothing and logs the read failure once. */
  lemma ExhaustedRetriesFailClosed(s: MonitorState, headers: seq<string>, fingerprint: Table -> Digest,
                                   force: bool, now: real, load: nat -> LoadOutcome)
    requires !ServesFromCache(s, force, now)
    requires forall k :: 0 <= k < MaxRetries ==> load(k).Transient?
    ensures var c := Check(s, headers, fingerprint, force, now, load);
      && c.state == s && c.rows == EmptyTable
      && c.read.Some? && c.read.value.attempts == MaxRetries && c.read.value.errorLogs == 1
  {
    SafeReadFacts(load);
  }

  /** After a check that read a frame, the cache holds the rows it returned and the hash is that frame's. */
  lemma SuccessfulCheckCaches(s: MonitorState, headers: seq<string>, fingerprint: Table -> Digest,
                              force: bool, now: real, load: nat -> LoadOutcome, df: Table)
    requires Coherent(s) && !ServesFromCache(s, force, now)
    requires SafeRead(load).outcome == Read(df) && HasColumns(df, headers)
    ensures var c := Check(s, headers, fingerprint, force, now, load);
      c.state.dataCache == Some(c.rows) && c.state.lastDataHash == Some(fingerprint(df))
  {
  }

  /**
   * Unchanged content is idempotent: after a check that read frame `df`, a
   * second non-forced check of the same content, at any later time, returns
   * the same rows and leaves the state as it was.
   */
  lemma RecheckUnchangedContent(s: MonitorState, headers: seq<string>, fingerprint: Table -> Digest,
                                force: bool, now1: real, load1: nat -> LoadOutcome,
                                now2: real, load2: nat -> LoadOutcome, df: Table)
    requires Coherent(s) && !ServesFromCache(s, force, now1)
    requires SafeRead(load1).outcome == Read(df) && HasColumns(df, headers)
    requires SafeRead(load2).outcome == Read(df)
    ensures var c1 := Check(s, headers, fingerprint, force, now1, load1);
      var c2 := Check(c1.state, headers, fingerprint, false, now2, load2);
      c2.rows == c1.rows && c2.state == c1.state
  {
    SuccessfulCheckCaches(s, headers, fingerprint, force, now1, load1, df);
  }

  /**
   * An unchanged non-forced reload does not refresh the cache time, so once
   * the freshness window has passed every later non-forced call reads the
   * file again until the content changes or a forced check runs.
   */
  lemma UnchangedReloadStaysStale(s: MonitorState, headers: seq<string>, fingerprint: Table -> Digest,
                                  now: real, load: nat -> LoadOutcome, later: real, df: Table)
    requires !ServesFromCache(s, false, now) && later >= now
    requires SafeRead(load).outcome == Read(df) && HasColumns(df, headers)
    requires s.lastDataHash == Some(fingerprint(df))
    ensures var c := Check(s, headers, fingerprint, false, now, load);
      c.state.cacheTime == s.cacheTime && !ServesFromCache(c.state, false, later)
  {
  }

  /**
   * The cache across three calls on an unchanging readable file: the first
   * (forced) check at `t0` caches the valid rows with time `t0`; a call at
   * `t0 + 1` returns them without a read; a call at `t0 + 3` reads again,
   * returns the same rows and keeps the cache time `t0`.
   */
  lemma CacheScenario(headers: seq<string>, fingerprint: Table -> Digest, t0: real,
                      load: nat -> LoadOutcome, df: Table)
    requires SafeRead(load).outcome == Read(df) && HasColumns(df, headers)
    ensures var c1 := Check(InitialState, headers, fingerprint, true, t0, load);
      var c2 := Check(c1.state, headers, fingerprint, false, t0 + 1.0, load);
      var c3 := Check(c2.state, headers, fingerprint, false, t0 + 3.0, load);
      && c1.rows == DropBlank(df, headers).value && c1.state.cacheTime == t0
      && c2.read.None? && c2.rows == c1.rows && c2.state == c1.state
      && c3.read.Some? && c3.rows == c1.rows && c3.state.cacheTime == t0
  {
  }

  /** One pass of the poll loop: the clock value, the loader, whether the pass raised, and whether a stop request follows it. */
  datatype Tick = Tick(now: real, load: nat -> LoadOutcome, faulted: bool, stopAfter: bool)

  /** The body of the poll loop; the flag says whether it ran a forced check. */
  function TickStep(s: MonitorState, headers: seq<string>, fingerprint: Table -> Digest, t: Tick): (MonitorState, bool)
  {
    if t.faulted then (s, false)
    else if t.now - s.lastCheckTime >= PollInterval then
      (Check(s, headers, fingerprint, true, t.now, t.load).state.(lastCheckTime := t.now), true)
    else (s, false)
  }

  /** A poll pass forces a check exactly when the poll interval has elapsed, and then records the pass's time. */
  lemma TickChecksWhenDue(s: MonitorState, headers: seq<string>, fingerprint: Table -> Digest, t: Tick)
    ensures var (s', checked) := TickStep(s, headers, fingerprint, t);
      && (checked <==> !t.faulted && t.now - s.lastCheckTime >= PollInterval)
      && (checked ==> s' == Check(s, headers, fingerprint, true, t.now, t.load).state.(lastCheckTime := t.now))
      && (!checked ==> s' == s)
  {
  }

  /** `poll_excel` over a finite run of passes: the final state and the number of passes made. */
  function PollRun(s: MonitorState, headers: seq<string>, fingerprint: Table -> Digest, ticks: seq<Tick>): (MonitorState, nat)
    decreases |ticks|
  {
    if s.stopFlag || ticks == [] then (s, 0)
    else
      var s1 := TickStep(s, headers, fingerprint, ticks[0]).0;
      var s2 := if ticks[0].stopAfter then s1.(stopFlag := true) else s1;
      var r := PollRun(s2, headers, fingerprint, ticks[1..]);
      (r.0, r.1 + 1)
  }

  /** A poll pass keeps the hash and the cache set together. */
  lemma TickKeepsCoherent(s: MonitorState, headers: seq<string>, fingerprint: Table -> Digest, t: Tick)
    requires Coherent(s)
    ensures Coherent(TickStep(s, headers, fingerprint, t).0)
  {
    if !t.faulted && t.now - s.lastCheckTime >= PollInterval {
      CheckKeepsCoherent(s, headers, fingerprint, true, t.now, t.load);
    }
  }

  /** The whole poll loop keeps the hash and the cache set together. */
  lemma {:induction false} PollKeepsCoherent(s: MonitorState, headers: seq<string>, fingerprint: Table -> Digest, ticks: seq<Tick>)
    requires Coherent(s)
    ensures Coherent(PollRun(s, headers, fingerprint, ticks).0)
    decreases |ticks|
  {
    if !s.stopFlag && ticks != [] {
      TickKeepsCoherent(s, headers, fingerprint, ticks[0]);
      var s1 := TickStep(s, headers, fingerprint, ticks[0]).0;
      var s2 := if ticks[0].stopAfter then s1.(stopFlag := true) else s1;
      PollKeepsCoherent(s2, headers, fingerprint, ticks[1..]);
    }
  }

  /**
   * The poll loop ends only on the stop flag: it makes no pass once the flag
   * is set, it goes on through every pass (a pass that raised included) until
   * one is followed by a stop request, and it stops right after that one.
   */
  lemma {:induction false} PollStopsOnlyOnFlag(s: MonitorState, headers: seq<string>, fingerprint: Table -> Digest, ticks: seq<Tick>)
    ensures var (f, n) := PollRun(s, headers, fingerprint, ticks);
      && n <= |ticks|
      && (s.stopFlag ==> n == 0)
      && (!s.stopFlag ==> forall i :: 0 <= i < n - 1 ==> !ticks[i].stopAfter)
      && (!s.stopFlag && n < |ticks| ==> n > 0 && ticks[n - 1].stopAfter)
      && f.stopFlag == (s.stopFlag || (n > 0 && ticks[n - 1].stopAfter))
    decreases |ticks|
  {
    if !s.stopFlag && ticks != [] {
      var t := ticks[0];
      var s1 := TickStep(s, headers, fingerprint, t).0;
      if !t.faulted && t.now - s.lastCheckTime >= PollInterval {
        CheckFrame(s, headers, fingerprint, true, t.now, t.load);
      }
      assert s1.stopFlag == s.stopFlag;
      var s2 := if t.stopAfter then s1.(stopFlag := true) else s1;
      PollStopsOnlyOnFlag(s2, headers, fingerprint, ticks[1..]);
      var r := PollRun(s2, headers, fingerprint, ticks[1..]);
      forall i | 0 <= i < r.1 + 1 - 1 && !t.stopAfter ensures !ticks[i].stopAfter {
        if i > 0 { assert ticks[i] == ticks[1..][i - 1]; }
      }
      if r.1 > 0 { assert ticks[r.1] == ticks[1..][r.1 - 1]; }
    }
  }

  /** The change-event filter: a file (not a directory) whose path ends in `.xlsx`. */
  predicate Qualifies(isDirectory: bool, srcPath: string) {
    !isDirectory && Text.EndsWith(srcPath, ".xlsx")
  }

  /** The cooldown: an event is accepted when more than `Cooldown` has passed since the last accepted one. */
  predicate Accepts(lastModified: real, now: real) {
    now - lastModified > Cooldown
  }

  datatype FsEvent = FsEvent(isDirectory: bool, srcPath: string, now: real)

  /** The times of the events that trigger a forced check, in order. */
  function Triggered(lastModified: real, events: seq<FsEvent>): seq<real>
    decreases |events|
  {
    if events == [] then []
    else
      var e := events[0];
      if Qualifies(e.isDirectory, e.srcPath) && Accepts(lastModified, e.now)
      then [e.now] + Triggered(e.now, events[1..])
      else Triggered(lastModified, events[1..])
  }

  /**
   * Accepted events are more than the cooldown apart from each other and from
   * the last accepted event before them, whatever the clock does, so a burst
   * within the cooldown triggers at most one check.
   */
  lemma {:induction false} TriggersSpaced(lastModified: real, events: seq<FsEvent>)
    ensures var ts := Triggered(lastModified, events);
      && |ts| <= |events|
      && (forall i :: 0 <= i < |ts| ==> ts[i] - lastModified > Cooldown)
      && (forall i, j :: 0 <= i < j < |ts| ==> ts[j] - ts[i] > Cooldown)
    decreases |events|
  {
    if events != [] {
      var e := events[0];
      if Qualifies(e.isDirectory, e.srcPath) && Accepts(lastModified, e.now) {
        TriggersSpaced(e.now, events[1..]);
        var rest := Triggered(e.now, events[1..]);
        var ts := [e.now] + rest;
        assert forall i :: 1 <= i < |ts| ==> ts[i] == rest[i - 1];
      } else {
        TriggersSpaced(lastModified, events[1..]);
      }
    }
  }

  /** Two qualifying events within the cooldown trigger one check if the first is accepted and never two. */
  lemma {:induction false} BurstCoalesced(lastModified: real, e1: FsEvent, e2: FsEvent)
    requires Qualifies(e1.isDirectory, e1.srcPath) && Qualifies(e2.isDirectory, e2.srcPath)
    requires e2.now - e1.now <= Cooldown
    ensures |Triggered(lastModified, [e1, e2])| <= 1
    ensures Accepts(lastModified, e1.now) ==> Triggered(lastModified, [e1, e2]) == [e1.now]
  {
    assert [e1, e2][1..] == [e2];
    assert [e2][1..] == [];
    if Accepts(lastModified, e1.now) {
      assert !Accepts(e1.now, e2.now);
      assert Triggered(e1.now, [e2]) == [];
    } else {
      assert Triggered(lastModified, [e1, e2]) == Triggered(lastModified, [e2]);
    }
  }

  /** `ExcelMonitor`: the fields a check, a poll pass and a stop request update. */
  class ExcelMonitor {
    const headers: seq<string>
    const fingerprint: Table -> Digest
    var lastDataHash: Option<Digest>
    var lastCheckTime: real
    var stopFlag: bool
    var dataCache: Option<Table>
    var cacheTime: real

    function State(): MonitorState
      reads this
    {
      MonitorState(lastDataHash, dataCache, cacheTime, lastCheckTime, stopFlag)
    }

    constructor (headers: seq<string>, fingerprint: Table -> Digest)
      ensures this.headers == headers && this.fingerprint == fingerprint
      ensures State() == InitialState && Coherent(State())
    {
      this.headers := headers;
      this.fingerprint := fingerprint;
      lastDataHash := None;
      lastCheckTime := 0.0;
      stopFlag := false;
      dataCache := None;
      cacheTime := 0.0;
    }

    /** `check_excel_data(force_check)`. */
    method CheckExcelData(forceCheck: bool, now: real, load: nat -> LoadOutcome) returns (rows: Table, read: Option<ReadReport>)
      modifies this
      ensures CheckReport(State(), rows, read) == Check(old(State()), headers, fingerprint, forceCheck, now, load)
    {
      if !forceCheck && dataCache.Some? {
        if now - cacheTime < CacheTtl {
          return dataCache.value, None;
        }
      }
      var report := ReadExcelSafe(load);
      read := Some(report);
      match report.outcome
      case ReadFailed(_) =>
        rows := EmptyTable;
      case Read(df) =>
        var currentHash := fingerprint(df);
        match DropBlank(df, headers)
        case None =>
          rows := EmptyTable;
        case Some(validRows) =>
          if forceCheck || lastDataHash != Some(currentHash) {
            lastDataHash := Some(currentHash);
            dataCache := Some(validRows);
            cacheTime := now;
            rows := validRows;
          } else {
            rows := if dataCache.Some? then dataCache.value else validRows;
          }
    }

    /** `get_valid_rows`: a non-forced check. */
    method GetValidRows(now: real, load: nat -> LoadOutcome) returns (rows: Table, read: Option<ReadReport>)
      modifies this
      ensures CheckReport(State(), rows, read) == Check(old(State()), headers, fingerprint, false, now, load)
    {
      rows, read := CheckExcelData(false, now, load);
    }

    /** One pass of `poll_excel`'s loop. */
    method PollTick(t: Tick) returns (checked: bool)
      modifies this
      ensures (State(), checked) == TickStep(old(State()), headers, fingerprint, t)
    {
      if t.faulted {
        return false;
      }
      checked := t.now - lastCheckTime >= PollInterval;
      if checked {
        var _, _ := CheckExcelData(true, t.now, t.load);
        lastCheckTime := t.now;
      }
    }

    /**
     * `poll_excel`: passes until the stop flag is seen. A pass's `stopAfter`
     * stands for `stop_monitoring` running on another thread after that pass.
     */
    method PollExcel(ticks: seq<Tick>) returns (passes: nat)
      modifies this
      ensures (State(), passes) == PollRun(old(State()), headers, fingerprint, ticks)
    {
      passes := 0;
      while !stopFlag && passes < |ticks|
        invariant passes <= |ticks|
        invariant var r := PollRun(State(), headers, fingerprint, ticks[passes..]);
          PollRun(old(State()), headers, fingerprint, ticks) == (r.0, r.1 + passes)
      {
        assert ticks[passes..][1..] == ticks[passes + 1..];
        var _ := PollTick(ticks[passes]);
        if ticks[passes].stopAfter {
          stopFlag := true;
        }
        passes := passes + 1;
      }
    }

    /** `start_monitoring`: the observer and the poll thread are not modelled; one forced check. */
    method StartMonitoring(now: real, load: nat -> LoadOutcome)
      modifies this
      ensures State() == Check(old(State()), headers, fingerprint, true, now, load).state
    {
      var _, _ := CheckExcelData(true, now, load);
    }

    /** `stop_monitoring`: only the stop flag changes. */
    method StopMonitoring()
      modifies this
      ensures State() == old(State()).(stopFlag := true)
    {
      stopFlag := true;
    }
  }

  /** `ExcelEventHandler`: the cooldown state of the file-change listener. */
  class ExcelEventHandler {
    const monitor: ExcelMonitor
    var lastModified: real

    constructor (monitor: ExcelMonitor)
      ensures this.monitor == monitor && lastModified == 0.0
    {
      this.monitor := monitor;
      lastModified := 0.0;
    }

    /** `on_modified`: a qualifying event past the cooldown is recorded and forces one check; any other event has no effect. */
    method OnModified(event: FsEvent, load: nat -> LoadOutcome) returns (triggered: bool)
      modifies this, monitor
      ensures triggered == (Qualifies(event.isDirectory, event.srcPath) && Accepts(old(lastModified), event.now))
      ensures Triggered(old(lastModified), [event]) == if triggered then [event.now] else []
      ensures lastModified == if triggered then event.now else old(lastModified)
      ensures monitor.State() ==
        if triggered then Check(old(monitor.State()), monitor.headers, monitor.fingerprint, true, event.now, load).state
        else old(monitor.State())
    {
      assert [event][1..] == [];
      triggered := false;
      if !event.isDirectory && Text.EndsWith(event.srcPath, ".xlsx") {
        if event.now - lastModified > Cooldown {
          lastModified := event.now;
          triggered := true;
          var _, _ := monitor.CheckExcelData(true, event.now, load);
        }
      }
    }
  }
}
