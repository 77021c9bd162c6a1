/**
 * The ADB helper: the parser of `adb devices` output, the stored set of
 * connected devices, and the guard sequence of a file push. Running a
 * command is an input: its outcome is given, not produced.
 */
module Adb {
  import opened Wrappers
  import Text

  /** Running a command with `check=True`: its standard output, a non-zero exit status, or a failure to start it. */
  datatype RunOutcome = Completed(stdout: string) | NonZeroExit | LaunchError

  /** The result of a push: a flag and a status code, or an exception that escapes to the caller. */
  datatype PushOutcome = Pushed(success: bool, status: string) | PushRaised

  const Success: string := "SUCCESS"
  const Failed: string := "FAILED"
  const DeviceNotFound: string := "DEVICE_NOT_FOUND"
  const InvalidPath: string := "INVALID_PATH"

  /** The lines of the stripped output after the first one, the header. */
  function DeviceLines(stdout: string): seq<string> {
    Text.SplitOn(Text.Strip(stdout), '\n')[1..]
  }

  /** A line that names a device: not blank, and containing `device`. */
  predicate ListsDevice(line: string) {
    Text.Strip(line) != "" && Text.Contains(line, "device")
  }

  /**
   * The devices in `adb devices` output: the first whitespace-separated token
   * of each line after the header that is not blank and contains `device`.
   * A blank line is never split, so the token always exists.
   */
  function ParseDevices(stdout: string): (devices: set<string>)
    ensures forall d :: d in devices ==> Text.IsWord(d)
    ensures forall line :: line in DeviceLines(stdout) && ListsDevice(line) ==> Text.Words(line)[0] in devices
    ensures forall d :: d in devices ==> exists line :: line in DeviceLines(stdout) && ListsDevice(line) && Text.Words(line)[0] == d
  {
    set line | line in DeviceLines(stdout) && ListsDevice(line) :: Text.Words(line)[0]
  }

  /** Output with a single line after stripping is all header: it lists no device, whatever it says. */
  lemma HeaderOnlyListsNothing(stdout: string)
    requires '\n' !in Text.Strip(stdout)
    ensures ParseDevices(stdout) == {}
  {
    assert DeviceLines(stdout) == [];
  }

  lemma SerialLineMentionsDevice(serial: string, state: string)
    requires Text.Contains(state, "device")
    ensures Text.Contains(serial + "\t" + state, "device")
  {
    assert serial + "\t" + state == (serial + "\t") + state;
    Text.ContainsAfter(serial + "\t", state, "device");
  }

  lemma SerialLineFirstToken(serial: string, state: string)
    requires Text.IsWord(serial)
    ensures Text.Strip(serial + "\t" + state) != ""
    ensures Text.Words(serial + "\t" + state)[0] == serial
  {
    assert (serial + "\t" + state)[0] == serial[0];
    assert serial + "\t" + state == serial + ("\t" + state);
    Text.FirstWord(serial, "\t" + state);
  }

  /** A line `serial<TAB>state` whose state mentions `device` names a device, and its first token is the serial. */
  lemma DeviceLine(serial: string, state: string)
    requires Text.IsWord(serial) && Text.Contains(state, "device")
    ensures ListsDevice(serial + "\t" + state)
    ensures Text.Words(serial + "\t" + state)[0] == serial
  {
    SerialLineMentionsDevice(serial, state);
    SerialLineFirstToken(serial, state);
  }

  /** Such a line after the header puts its serial in the parsed set. */
  lemma DeviceLineListed(stdout: string, i: nat, serial: string, state: string)
    requires i < |DeviceLines(stdout)| && DeviceLines(stdout)[i] == serial + "\t" + state
    requires Text.IsWord(serial) && Text.Contains(state, "device")
    ensures serial in ParseDevices(stdout)
  {
    DeviceLine(serial, state);
    assert DeviceLines(stdout)[i] in DeviceLines(stdout);
  }

  /** The stored device set after a refresh: parsed on success, emptied on a non-zero exit, untouched when the command cannot start. */
  function Refreshed(previous: set<string>, run: RunOutcome): set<string> {
    match run
    case Completed(out) => ParseDevices(out)
    case NonZeroExit => {}
    case LaunchError => previous
  }

  /** `[ADB_COMMAND, "-s", device_id, "push", source_path, target_path]`. */
  function PushCommand(adbCommand: string, deviceId: string, sourcePath: string, targetPath: string): seq<string> {
    [adbCommand, "-s", deviceId, "push", sourcePath, targetPath]
  }

  /**
   * `push_file` after the device refresh: the outcome and the push command it
   * runs, if any. The connection check comes before the target lookup, and
   * the flag is true exactly when the status is SUCCESS.
   */
  function PushDecision(adbCommand: string, deviceId: string, sourcePath: string, devicePaths: map<string, string>,
                        devicesRun: RunOutcome, connected: set<string>, pushRun: RunOutcome): (r: (PushOutcome, Option<seq<string>>))
    ensures r.0.Pushed? ==> (r.0.success <==> r.0.status == Success)
    ensures r.1.Some? <==> !devicesRun.LaunchError? && deviceId in connected && deviceId in devicePaths && devicePaths[deviceId] != ""
    ensures r.1.Some? ==> r.1.value == PushCommand(adbCommand, deviceId, sourcePath, devicePaths[deviceId])
    ensures !devicesRun.LaunchError? && deviceId !in connected ==> r.0 == Pushed(false, DeviceNotFound)
    ensures r.0 == Pushed(true, Success) <==> r.1.Some? && pushRun.Completed?
    ensures devicesRun.LaunchError? ==> r.0 == PushRaised
    ensures !devicesRun.LaunchError? && deviceId in connected && (deviceId !in devicePaths || devicePaths[deviceId] == "") ==>
      r.0 == Pushed(false, InvalidPath)
    ensures r.1.Some? && pushRun.NonZeroExit? ==> r.0 == Pushed(false, Failed)
    ensures r.1.Some? && pushRun.LaunchError? ==> r.0 == PushRaised
  {
    if devicesRun.LaunchError? then (PushRaised, None)
    else if deviceId !in connected then (Pushed(false, DeviceNotFound), None)
    else if deviceId !in devicePaths || devicePaths[deviceId] == "" then (Pushed(false, InvalidPath), None)
    else
      var command := PushCommand(adbCommand, deviceId, sourcePath, devicePaths[deviceId]);
      match pushRun
      case Completed(_) => (Pushed(true, Success), Some(command))
      case NonZeroExit => (Pushed(false, Failed), Some(command))
      case LaunchError => (PushRaised, Some(command))
  }

  /** A device that is not connected is reported before the target table is consulted: the result does not depend on it. */
  lemma NotConnectedIgnoresPaths(adbCommand: string, deviceId: string, sourcePath: string,
                                 paths1: map<string, string>, paths2: map<string, string>,
                                 devicesRun: RunOutcome, connected: set<string>, pushRun: RunOutcome)
    requires deviceId !in connected
    ensures PushDecision(adbCommand, deviceId, sourcePath, paths1, devicesRun, connected, pushRun)
         == PushDecision(adbCommand, deviceId, sourcePath, paths2, devicesRun, connected, pushRun)
  {
  }

  /** `ADBHelper`: the set of connected devices, refreshed by each query. */
  class ADBHelper {
    const adbCommand: string
    var connectedDevices: set<string>

    /** The constructor's refresh; a command that cannot start leaves the set empty here rather than raising. */
    constructor (adbCommand: string, devicesRun: RunOutcome)
      ensures this.adbCommand == adbCommand
      ensures connectedDevices == Refreshed({}, devicesRun)
    {
      this.adbCommand := adbCommand;
      connectedDevices := {};
      new;
      var _ := UpdateConnectedDevices(devicesRun);
    }

    /** `update_connected_devices`: returns the new set, or `None` when the exception escapes. */
    method UpdateConnectedDevices(run: RunOutcome) returns (devices: Option<set<string>>)
      modifies this
      ensures connectedDevices == Refreshed(old(connectedDevices), run)
      ensures devices == if run.LaunchError? then None else Some(connectedDevices)
    {
      match run
      case Completed(out) =>
        connectedDevices := ParseDevices(out);
        devices := Some(connectedDevices);
      case NonZeroExit =>
        connectedDevices := {};
        devices := Some({});
      case LaunchError =>
        devices := None;
    }

    /** `is_device_connected`: refresh, then membership in the refreshed set. */
    method IsDeviceConnected(deviceId: string, run: RunOutcome) returns (connected: Option<bool>)
      modifies this
      ensures connectedDevices == Refreshed(old(connectedDevices), run)
      ensures connected == if run.LaunchError? then None else Some(deviceId in connectedDevices)
    {
      var devices := UpdateConnectedDevices(run);
      if devices.None? {
        return None;
      }
      connected := Some(deviceId in connectedDevices);
    }

    /** `push_file(device_id, source_path)`. */
    method PushFile(deviceId: string, sourcePath: string, devicePaths: map<string, string>,
                    devicesRun: RunOutcome, pushRun: RunOutcome) returns (outcome: PushOutcome, command: Option<seq<string>>)
      modifies this
      ensures connectedDevices == Refreshed(old(connectedDevices), devicesRun)
      ensures (outcome, command) == PushDecision(adbCommand, deviceId, sourcePath, devicePaths, devicesRun, connectedDevices, pushRun)
    {
      var connected := IsDeviceConnected(deviceId, devicesRun);
      if connected.None? {
        return PushRaised, None;
      }
      if !connected.value {
        return Pushed(false, DeviceNotFound), None;
      }
      if deviceId !in devicePaths || devicePaths[deviceId] == "" {
        return Pushed(false, InvalidPath), None;
      }
      var c := PushCommand(adbCommand, deviceId, sourcePath, devicePaths[deviceId]);
      command := Some(c);
      match pushRun
      case Completed(_) => outcome := Pushed(true, Success);
      case NonZeroExit => outcome := Pushed(false, Failed);
      case LaunchError => outcome := PushRaised;
    }
  }
}
