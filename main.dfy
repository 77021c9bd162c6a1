/**
 * The application's main loop: each pass takes the monitor's valid rows and,
 * row by row, skips rows that already carry a final status, transfers the
 * images of the others, writes back the status code and schedules a task
 * when the transfer succeeded. The transfer, the status write and the
 * scheduler are effects recorded in order.
 */
module App {
  import opened Wrappers
  import opened Tables
  import Text
  import Seqs
  import Adb
  import Monitoring

  /**
   * `str(row.get('status', ''))`: empty without a status field, the text of a
   * text cell, `render` for any other cell. A field the record does not carry is
   * read as a missing column; in a well-formed frame that is the case exactly
   * when `status` is not a column (`Tables.CarriesColumns`).
   */
  function StatusText(r: Record, render: Option<Value> -> string): string {
    if "status" !in r.cells then ""
    else
      match r.cells["status"]
      case Some(Str(text)) => text
      case other => render(other)
  }

  /** A row is skipped when its stripped status is non-empty and neither FAILED nor DEVICE_NOT_FOUND. */
  predicate Skipped(r: Record, render: Option<Value> -> string) {
    var status := Text.Strip(StatusText(r, render));
    status != "" && status != Adb.Failed && status != Adb.DeviceNotFound
  }

  /** The skip rule of the row loop, as a predicate on rows. */
  function SkipRule(render: Option<Value> -> string): Record -> bool {
    r => Skipped(r, render)
  }

  /** The rows a skip rule lets through. */
  function Processed(skip: Record -> bool): Record -> bool {
    r => !skip(r)
  }

  /** A row without a status field, or with a blank status after stripping, is processed. */
  lemma NoStatusIsProcessed(r: Record, render: Option<Value> -> string)
    requires "status" !in r.cells || (r.cells["status"].Some? && r.cells["status"].value.Str? && Text.AllSpace(r.cells["status"].value.text))
    ensures !Skipped(r, render)
  {
  }

  /**
   * A text status with whitespace around a code is judged by the code: the row
   * is processed again exactly when the code is FAILED or DEVICE_NOT_FOUND.
   */
  lemma PaddedStatusRule(r: Record, render: Option<Value> -> string, before: string, code: string, after: string)
    requires "status" in r.cells && r.cells["status"] == Some(Str(before + code + after))
    requires Text.AllSpace(before) && Text.AllSpace(after)
    requires code != [] && !Text.IsSpace(code[0]) && !Text.IsSpace(code[|code| - 1])
    ensures Skipped(r, render) <==> code != Adb.Failed && code != Adb.DeviceNotFound
  {
    Text.StripPadded(before, code, after);
  }

  /**
   * pandas loads an empty status cell as NaN, and `str(NaN)` is `nan`. With that
   * rendering the row is skipped as if it carried a final status, although its
   * status cell is blank.
   */
  lemma BlankStatusSkipped(r: Record, render: Option<Value> -> string)
    requires "status" in r.cells && r.cells["status"] == None
    requires render(None) == "nan"
    ensures Skipped(r, render)
  {
    assert "" + "nan" + "" == "nan";
    Text.StripPadded("", "nan", "");
  }

  /** What one pass over the rows does outside the process, in order. */
  datatype Effect =
    | TransferCall(index: nat, postName: Option<Value>, time: Option<Value>)
    | StatusWrite(index: nat, status: string)
    | TaskAdded(row: Record)

  /** The effects of a pass so far, the number of transfers made, and whether an exception ended it. */
  datatype Pass = Pass(effects: seq<Effect>, transfers: nat, aborted: bool)

  /**
   * The body of the row loop for one row; `transfer(k)` is the result of the
   * k-th transfer of the pass. A missing `postName` or `time` field and a
   * status code missing from `taskStatus` raise a KeyError.
   */
  function RowStep(r: Record, k: nat, skip: Record -> bool, transfer: nat -> (bool, string),
                   taskStatus: map<string, string>): Pass
  {
    if skip(r) then Pass([], 0, false)
    else if "postName" !in r.cells || "time" !in r.cells then Pass([], 0, true)
    else
      var call := TransferCall(r.index, r.cells["postName"], r.cells["time"]);
      var (success, status) := transfer(k);
      if status !in taskStatus then Pass([call], 1, true)
      else Pass([call, StatusWrite(r.index, taskStatus[status])] + (if success then [TaskAdded(r)] else []), 1, false)
  }

  /**
   * A skipped row has no effect; a processed row whose fields and status code
   * are all found gets exactly one transfer of its `postName` and `time`, then
   * one status write of the mapped code at its own index, then a task exactly
   * when the transfer succeeded.
   */
  lemma RowStepCases(r: Record, k: nat, skip: Record -> bool, transfer: nat -> (bool, string),
                     taskStatus: map<string, string>)
    ensures skip(r) ==> RowStep(r, k, skip, transfer, taskStatus) == Pass([], 0, false)
    ensures !skip(r) && "postName" in r.cells && "time" in r.cells && transfer(k).1 in taskStatus ==>
      RowStep(r, k, skip, transfer, taskStatus) ==
        Pass([TransferCall(r.index, r.cells["postName"], r.cells["time"]), StatusWrite(r.index, taskStatus[transfer(k).1])]
             + (if transfer(k).0 then [TaskAdded(r)] else []), 1, false)
  {
  }

  /** The loop over the first `n` rows. */
  function DispatchPrefix(rows: seq<Record>, n: nat, skip: Record -> bool, transfer: nat -> (bool, string),
                          taskStatus: map<string, string>): Pass
    requires n <= |rows|
  {
    if n == 0 then Pass([], 0, false)
    else
      var p := DispatchPrefix(rows, n - 1, skip, transfer, taskStatus);
      if p.aborted then p
      else
        var step := RowStep(rows[n - 1], p.transfers, skip, transfer, taskStatus);
        Pass(p.effects + step.effects, p.transfers + step.transfers, step.aborted)
  }

  /** The effects of the processed rows `ps`, the first one's transfer being the k-th. */
  function Expected(ps: seq<Record>, k: nat, skip: Record -> bool, transfer: nat -> (bool, string),
                    taskStatus: map<string, string>): seq<Effect>
  {
    if ps == [] then []
    else Expected(ps[..|ps| - 1], k, skip, transfer, taskStatus)
         + RowStep(ps[|ps| - 1], k + |ps| - 1, skip, transfer, taskStatus).effects
  }

  /** Appending a row to the processed rows appends that row's effects, at the next transfer number. */
  lemma ExpectedAppend(ps: seq<Record>, r: Record, k: nat, skip: Record -> bool, transfer: nat -> (bool, string),
                       taskStatus: map<string, string>)
    ensures Expected(ps + [r], k, skip, transfer, taskStatus)
         == Expected(ps, k, skip, transfer, taskStatus) + RowStep(r, k + |ps|, skip, transfer, taskStatus).effects
  {
    assert (ps + [r])[..|ps|] == ps;
  }

  /** One more row keeps a finished pass in step with the processed rows: a processed row adds one transfer and its effects. */
  lemma StepExtends(p: Pass, before: seq<Record>, r: Record, skip: Record -> bool, transfer: nat -> (bool, string),
                    taskStatus: map<string, string>)
    requires !p.aborted && p.transfers == |before| && p.effects == Expected(before, 0, skip, transfer, taskStatus)
    ensures var step := RowStep(r, p.transfers, skip, transfer, taskStatus);
      var after := before + (if skip(r) then [] else [r]);
      !step.aborted ==>
        (p.transfers + step.transfers == |after| && p.effects + step.effects == Expected(after, 0, skip, transfer, taskStatus))
  {
    if skip(r) {
      assert before + [] == before;
    } else {
      ExpectedAppend(before, r, 0, skip, transfer, taskStatus);
    }
  }

  /**
   * A pass that ran to the end did exactly this: the processed rows are the
   * rows that are not skipped, in their order; the i-th of them received the
   * i-th transfer, and the effects are theirs, one row after the other.
   */
  lemma {:induction false} DispatchFacts(rows: seq<Record>, n: nat, skip: Record -> bool,
                                         transfer: nat -> (bool, string), taskStatus: map<string, string>)
    requires n <= |rows|
    ensures var p := DispatchPrefix(rows, n, skip, transfer, taskStatus);
      var processed := Seqs.Filter(rows[..n], Processed(skip));
      !p.aborted ==> p.transfers == |processed| && p.effects == Expected(processed, 0, skip, transfer, taskStatus)
    decreases n
  {
    if n == 0 {
      assert rows[..n] == [];
    } else {
      DispatchFacts(rows, n - 1, skip, transfer, taskStatus);
      var p := DispatchPrefix(rows, n - 1, skip, transfer, taskStatus);
      var before := Seqs.Filter(rows[..n - 1], Processed(skip));
      assert rows[..n] == rows[..n - 1] + [rows[n - 1]];
      Seqs.FilterAppend(rows[..n - 1], rows[n - 1], Processed(skip));
      if !p.aborted {
        StepExtends(p, before, rows[n - 1], skip, transfer, taskStatus);
      }
    }
  }

  /** Once an exception has ended the pass, later rows add nothing. */
  lemma {:induction false} AbortedStays(rows: seq<Record>, n: nat, m: nat, skip: Record -> bool,
                                        transfer: nat -> (bool, string), taskStatus: map<string, string>)
    requires n <= m <= |rows|
    requires DispatchPrefix(rows, n, skip, transfer, taskStatus).aborted
    ensures DispatchPrefix(rows, m, skip, transfer, taskStatus) == DispatchPrefix(rows, n, skip, transfer, taskStatus)
    decreases m
  {
    if m > n {
      AbortedStays(rows, n, m - 1, skip, transfer, taskStatus);
    }
  }

  /** The row loop of one pass: `for index, row in valid_rows.iterrows()`, under the skip rule `skip` (`SkipRule(render)` in the application). */
  method DispatchRows(rows: seq<Record>, skip: Record -> bool, transfer: nat -> (bool, string),
                      taskStatus: map<string, string>) returns (pass: Pass)
    ensures pass == DispatchPrefix(rows, |rows|, skip, transfer, taskStatus)
  {
    var effects: seq<Effect> := [];
    var transfers := 0;
    for n := 0 to |rows|
      invariant DispatchPrefix(rows, n, skip, transfer, taskStatus) == Pass(effects, transfers, false)
    {
      var row := rows[n];
      if skip(row) {
        continue;
      }
      if "postName" !in row.cells || "time" !in row.cells {
        AbortedStays(rows, n + 1, |rows|, skip, transfer, taskStatus);
        return Pass(effects, transfers, true);
      }
      var (success, status) := transfer(transfers);
      effects := effects + [TransferCall(row.index, row.cells["postName"], row.cells["time"])];
      transfers := transfers + 1;
      if status !in taskStatus {
        AbortedStays(rows, n + 1, |rows|, skip, transfer, taskStatus);
        return Pass(effects, transfers, true);
      }
      effects := effects + [StatusWrite(row.index, taskStatus[status])];
      if success {
        effects := effects + [TaskAdded(row)];
      }
    }
    pass := Pass(effects, transfers, false);
  }

  /** One pass of the main loop: the clock, the loader for the monitor's check, and the transfer results. */
  datatype PassInput = PassInput(now: real, load: nat -> Monitoring.LoadOutcome, transfer: nat -> (bool, string))

  /** One pass of `while self.running`: a non-forced check, then the row loop over what it returned. */
  function PassStep(s: Monitoring.MonitorState, headers: seq<string>, fingerprint: Table -> Monitoring.Digest,
                    skip: Record -> bool, taskStatus: map<string, string>, input: PassInput): (Monitoring.MonitorState, Pass)
  {
    var c := Monitoring.Check(s, headers, fingerprint, false, input.now, input.load);
    (c.state, DispatchPrefix(c.rows.rows, |c.rows.rows|, skip, input.transfer, taskStatus))
  }

  /** The passes of the main loop until one ends with an exception. */
  function RunFrom(s: Monitoring.MonitorState, headers: seq<string>, fingerprint: Table -> Monitoring.Digest,
                   skip: Record -> bool, taskStatus: map<string, string>, inputs: seq<PassInput>): (Monitoring.MonitorState, seq<Pass>)
    decreases |inputs|
  {
    if inputs == [] then (s, [])
    else
      var (s1, pass) := PassStep(s, headers, fingerprint, skip, taskStatus, inputs[0]);
      if pass.aborted then (s1, [pass])
      else
        var (f, passes) := RunFrom(s1, headers, fingerprint, skip, taskStatus, inputs[1..]);
        (f, [pass] + passes)
  }

  /** One pass of `RunFrom`, unfolded. */
  lemma RunFromStep(s: Monitoring.MonitorState, headers: seq<string>, fingerprint: Table -> Monitoring.Digest,
                    skip: Record -> bool, taskStatus: map<string, string>, inputs: seq<PassInput>)
    requires inputs != []
    ensures var (s1, pass) := PassStep(s, headers, fingerprint, skip, taskStatus, inputs[0]);
      var next := RunFrom(s1, headers, fingerprint, skip, taskStatus, inputs[1..]);
      RunFrom(s, headers, fingerprint, skip, taskStatus, inputs) == if pass.aborted then (s1, [pass]) else (next.0, [pass] + next.1)
  {
  }

  /** The main loop goes on through every pass until one raises, and that pass is the last. */
  lemma {:induction false} RunEndsOnlyOnException(s: Monitoring.MonitorState, headers: seq<string>, fingerprint: Table -> Monitoring.Digest,
                                                  skip: Record -> bool, taskStatus: map<string, string>, inputs: seq<PassInput>)
    ensures var (f, passes) := RunFrom(s, headers, fingerprint, skip, taskStatus, inputs);
      && |passes| <= |inputs|
      && (forall i :: 0 <= i < |passes| - 1 ==> !passes[i].aborted)
      && (|passes| < |inputs| ==> |passes| > 0 && passes[|passes| - 1].aborted)
    decreases |inputs|
  {
    if inputs != [] {
      var (s1, pass) := PassStep(s, headers, fingerprint, skip, taskStatus, inputs[0]);
      if !pass.aborted {
        RunEndsOnlyOnException(s1, headers, fingerprint, skip, taskStatus, inputs[1..]);
        var (f, passes) := RunFrom(s1, headers, fingerprint, skip, taskStatus, inputs[1..]);
        var all := [pass] + passes;
        assert forall i :: 1 <= i < |all| ==> all[i] == passes[i - 1];
      }
    }
  }

  /** `Application`: the monitor it polls, the status-code table, and how pandas renders a status cell. */
  class Application {
    const monitor: Monitoring.ExcelMonitor
    const taskStatus: map<string, string>
    const render: Option<Value> -> string

    constructor (monitor: Monitoring.ExcelMonitor, taskStatus: map<string, string>, render: Option<Value> -> string)
      ensures this.monitor == monitor && this.taskStatus == taskStatus && this.render == render
    {
      this.monitor := monitor;
      this.taskStatus := taskStatus;
      this.render := render;
    }

    /** One pass of the main loop. */
    method RunPass(input: PassInput) returns (pass: Pass)
      modifies monitor
      ensures (monitor.State(), pass) == PassStep(old(monitor.State()), monitor.headers, monitor.fingerprint, SkipRule(render), taskStatus, input)
    {
      var validRows, _ := monitor.GetValidRows(input.now, input.load);
      pass := DispatchRows(validRows.rows, SkipRule(render), input.transfer, taskStatus);
    }

    /**
     * `run`: start the monitor (one forced check), make passes until one
     * raises or the inputs run out, then stop the monitor.
     */
    method Run(startTime: real, startLoad: nat -> Monitoring.LoadOutcome, inputs: seq<PassInput>) returns (passes: seq<Pass>)
      modifies monitor
      ensures var s0 := Monitoring.Check(old(monitor.State()), monitor.headers, monitor.fingerprint, true, startTime, startLoad).state;
        var (f, expected) := RunFrom(s0, monitor.headers, monitor.fingerprint, SkipRule(render), taskStatus, inputs);
        passes == expected && monitor.State() == f.(stopFlag := true)
    {
      monitor.StartMonitoring(startTime, startLoad);
      ghost var s0 := monitor.State();
      passes := [];
      var i := 0;
      while i < |inputs|
        invariant i <= |inputs|
        invariant var whole := RunFrom(s0, monitor.headers, monitor.fingerprint, SkipRule(render), taskStatus, inputs);
          var rest := RunFrom(monitor.State(), monitor.headers, monitor.fingerprint, SkipRule(render), taskStatus, inputs[i..]);
          whole.0 == rest.0 && whole.1 == passes + rest.1
      {
        assert inputs[i..][1..] == inputs[i + 1..];
        RunFromStep(monitor.State(), monitor.headers, monitor.fingerprint, SkipRule(render), taskStatus, inputs[i..]);
        var pass := RunPass(inputs[i]);
        passes := passes + [pass];
        if pass.aborted {
          break;
        }
        i := i + 1;
      }
      monitor.StopMonitoring();
    }
  }
}
