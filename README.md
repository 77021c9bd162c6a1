# Excel-driven image push service: a Dafny model

The service watches a spreadsheet of tasks. A task row names a post and a time. For every row whose status, after `str()` and `strip()`, is empty, FAILED or DEVICE_NOT_FOUND, the service:

1. looks up the Android device of the post;
2. pushes the images of `root/post/time/img` to that device over ADB;
3. writes a status code back into the row;
4. schedules a follow-up task when the push succeeded.

This project models the decision logic of that service and proves properties of it:

- **Spreadsheet monitor** (`excel_monitor.dfy`, module `Monitoring`):
  - a read that retries only permission and I/O errors, up to three attempts;
  - a non-forced check that serves a cache younger than two seconds, and otherwise reads, fingerprints and filters the frame. It replaces hash, cache and cache time when forced or changed, and returns an empty frame on any error;
  - the poll loop, which forces a check every sixty seconds until the stop flag is set;
  - the file-change handler, with its one-second cooldown;
  - start and stop.
- **Frames** (`tables.dfy`, module `Tables`): a loaded frame and `dropna(subset=headers)`, including the KeyError on a missing column.
- **ADB helper** (`adb_utils.dfy`, module `Adb`):
  - the `adb devices` parser;
  - the stored device set and its refresh;
  - the guard order of `push_file`.
- **Image transfer** (`file_handler.dfy`, module `FileTransfer`):
  - the device lookup and the source-directory check;
  - image selection;
  - one push per image;
  - the verdict: SUCCESS, PARTIAL_SUCCESS, or the first error.
- **Main loop** (`main.dfy`, module `App`):
  - the row loop of one pass: which rows are skipped, and the transfer, status write and task, in order;
  - the passes until one raises, then the stop.
- **String and sequence helpers** (`text.dfy`, `seqs.dfy`, `wrappers.dfy`): Python's `strip`, `split()`, `split(sep)`, `lower`, `endswith` and `in` on strings, a list-comprehension filter, and `Option`.

Stateful objects are classes whose methods are proved against pure transition functions: `ExcelMonitor`, `ExcelEventHandler`, `ADBHelper`, `FileHandler` and `Application`. The properties are lemmas about those functions.

Everything the process gets from outside is a parameter:

- the clock: `now`, a real number of seconds;
- each read attempt's outcome: `load(k)`;
- the frame fingerprint: a fixed function `Table -> Digest`;
- the outcome of each `adb` run;
- the file system: `pathExists`, `listDir`;
- each push result: `push(k)` for the pushes of one transfer, `transfer(k)` for the transfers of one pass;
- the rendering of a non-text status cell: `render`;
- the configuration maps: `DEVICE_MAPPING`, `DEVICE_PATHS`, `TASK_STATUS`.

A non-forced reload that finds the fingerprint unchanged returns the stored cache without touching `_cache_time` (`core/excel_monitor.py:116`). Only a forced check or a changed fingerprint sets the cache time (lines 105-112). So once the two-second window has passed, every later non-forced call reads the file again. This goes on until the content changes or a forced check runs (the 60-second poll or a file event). `Monitoring.UnchangedReloadStaysStale` and `Monitoring.CacheScenario` state this behaviour.

## Model

| member | source | states |
|---|---|---|
| Monitoring.ReadFromFacts | core/excel_monitor.py:78-85 | From attempt `a` on: the read makes between one and the remaining attempts, and sleeps once before each attempt after the first. Every attempt before the last failed transiently. The last attempt decides the outcome: a frame, an immediate non-retryable error, or exhaustion after three transient failures. Exhaustion logs exactly one error. |
| Monitoring.SafeReadFacts | core/excel_monitor.py:73-85 | `read_excel_safe` makes 1 to 3 attempts and `attempts - 1` sleeps. It returns the frame of the first successful attempt. Any non-permission, non-I/O error is raised at once. A third transient failure is raised after one error log. |
| Monitoring.ReadFromOnlyAttempts | core/excel_monitor.py:78-85 | The read consults no attempt beyond those it reports: two loaders that agree on them give the same report. |
| Monitoring.ReadExcelSafe | core/excel_monitor.py:73-85 | The `for attempt in range(3)` loop, with return, re-raise and sleep, computes exactly the retrying read `SafeRead`. |
| Monitoring.CheckKeepsCoherent | core/excel_monitor.py:105-116 | A check keeps the invariant that the stored hash and the cache are set together. |
| Monitoring.CheckFrame | core/excel_monitor.py:87-120 | A check never changes the poll timestamp or the stop flag. The cache time either stays or becomes `now`. |
| Monitoring.FreshCacheServed | core/excel_monitor.py:92-94 | A non-forced call with a cache younger than the two-second TTL returns that cache. It does no read and changes nothing. |
| Monitoring.ChangedOrForcedReplaces | core/excel_monitor.py:102-114 | When the check reads a frame with all required columns and is forced or sees a new fingerprint, it returns the frame's valid rows. It also stores them, with this fingerprint and `now` as the cache time. |
| Monitoring.UnchangedKeepsState | core/excel_monitor.py:116 | A non-forced reload with an unchanged fingerprint returns the cached rows, or the fresh valid rows when there is no cache, and changes no field. |
| Monitoring.FailureKeepsState | core/excel_monitor.py:96-120 | A read failure, or a required column missing from the frame (the `dropna` KeyError), gives an empty frame and leaves every field unchanged. |
| Monitoring.ExhaustedRetriesFailClosed | core/excel_monitor.py:78-85 | Three transient read failures give an empty frame and no state change, after three attempts and one read-error log. |
| Monitoring.SuccessfulCheckCaches | core/excel_monitor.py:105-116 | After a check that read a frame, the cache holds exactly the rows returned and the stored hash is that frame's fingerprint. |
| Monitoring.RecheckUnchangedContent | core/excel_monitor.py:105-116 | Idempotence: a second non-forced check of the same content, at any time, returns the same rows and leaves the state as the first check left it. |
| Monitoring.UnchangedReloadStaysStale | core/excel_monitor.py:116 | An unchanged non-forced reload keeps the old cache time, so at any later time a non-forced call reads the file again. |
| Monitoring.CacheScenario | core/excel_monitor.py:87-116 | On a constant readable file: a forced check at `t0` caches the valid rows at `t0`. A call at `t0+1` serves them with no read. A call at `t0+3` reads, returns the same rows and keeps cache time `t0`. |
| Monitoring.TickChecksWhenDue | core/excel_monitor.py:125-134 | A poll pass runs a forced check exactly when it did not raise and at least 60 s have passed since the last poll check. It then records the pass time; otherwise it changes nothing. |
| Monitoring.TickKeepsCoherent | core/excel_monitor.py:125-131 | A poll pass keeps the hash and the cache set together. |
| Monitoring.PollKeepsCoherent | core/excel_monitor.py:124-134 | The whole poll loop keeps the hash and the cache set together, so the lemmas that require coherence apply after any run of passes. |
| Monitoring.PollStopsOnlyOnFlag | core/excel_monitor.py:124-134 | The poll loop makes no pass once the stop flag is set. It continues through every pass, including passes that raised, until a stop request. It ends right after that pass, with the flag set. |
| Monitoring.TriggersSpaced | core/excel_monitor.py:42-46 | The forced checks triggered by file events are more than the 1 s cooldown apart, from each other and from the last accepted event before them. There are never more of them than events. |
| Monitoring.BurstCoalesced | core/excel_monitor.py:42-49 | Two `.xlsx` events within the cooldown never trigger two checks. If the first is accepted, exactly one check runs, at its time. |
| Monitoring.ExcelMonitor.constructor | core/excel_monitor.py:54-66 | A new monitor has no hash and no cache, cache time and last poll time 0, and the stop flag clear. Its state is coherent: hash and cache are both unset. |
| Monitoring.ExcelMonitor.CheckExcelData | core/excel_monitor.py:87-120 | The returned rows, the read made and the new fields are those given by the transition function `Check`. |
| Monitoring.ExcelMonitor.GetValidRows | core/excel_monitor.py:158-160 | Exactly a non-forced check. |
| Monitoring.ExcelMonitor.PollTick | core/excel_monitor.py:125-134 | One poll pass updates the fields as `TickStep` says. |
| Monitoring.ExcelMonitor.PollExcel | core/excel_monitor.py:122-134 | The `while not self._stop_flag` loop reaches the state and pass count of `PollRun`. |
| Monitoring.ExcelMonitor.StartMonitoring | core/excel_monitor.py:136-149 | Starting runs one forced check. |
| Monitoring.ExcelMonitor.StopMonitoring | core/excel_monitor.py:151-156 | Stopping sets the stop flag and changes nothing else. |
| Monitoring.ExcelEventHandler.constructor | core/excel_monitor.py:35-38 | A new handler has last-modified time 0. |
| Monitoring.ExcelEventHandler.OnModified | core/excel_monitor.py:40-49 | The event triggers exactly when it is not a directory, its path ends in `.xlsx`, and more than 1 s has passed since the last accepted event. It then records the event time and runs one forced check. Otherwise neither the handler nor the monitor changes. |
| Tables.ValidRowsExact | core/excel_monitor.py:102 | `dropna(subset=headers)` fails exactly when a required column is missing. Otherwise it keeps the columns and, in order with their index labels, exactly the records whose required fields are all non-blank. |
| Tables.CarriesColumns | core/excel_monitor.py:96-102 | In a well-formed frame (distinct index labels, every record carrying a cell for each column and nothing else), a record carries a field exactly when the field is a column. So the two readings of a missing key, a blank cell (`Filled`) and a missing column (the row loop), never disagree. |
| Tables.DropBlankKeepsWellFormed | core/excel_monitor.py:102 | `dropna` of a well-formed frame is well-formed: the kept records still have distinct index labels and all columns. |
| Tables.SecondRowDropped | core/excel_monitor.py:102 | With required fields `name` and `time`, a frame of two rows whose second `time` is blank keeps only the first row. |
| Seqs.Filter | core/file_handler.py:56-57 | A comprehension filter keeps only elements satisfying the condition. It keeps every element of the input that satisfies it, and nothing that is not in the input. |
| Seqs.FilterIsSubsequence | core/file_handler.py:56-57 | What the filter keeps is a subsequence of its input: the order is preserved. |
| Seqs.FilterExtremes | core/file_handler.py:56-57 | A condition true of every element keeps the whole input; one false of every element keeps nothing. |
| Seqs.FilterKeepsDistinct | core/excel_monitor.py:102 | If no two elements share a key, no two elements kept by the filter do. |
| Seqs.FilterAppend | main.py:73-77 | Filtering `s + [x]` is filtering `s`, then `x` if it passes, as a loop over rows builds it. |
| Text.TrimLeftFacts | utils/adb_utils.py:41 | `lstrip` leaves the suffix after the leading whitespace, and that suffix starts with no whitespace. |
| Text.TrimRightFacts | utils/adb_utils.py:41 | `rstrip` leaves the prefix before the trailing whitespace, and that prefix ends with no whitespace. |
| Text.Strip | main.py:75 | `strip()` is a block of the input with only whitespace before and after it. It is empty exactly for blank input, and otherwise starts and ends with a non-whitespace character. |
| Text.StripUnique | main.py:75 | Those clauses determine `strip()`: any block of `s` with only whitespace around it, empty or starting and ending with a non-space, is `Strip(s)`. |
| Text.StripPadded | main.py:75 | A code with whitespace around it strips to the bare code, e.g. `" FAILED "` to `FAILED`. |
| Text.TrimLeftBlankPrefix | utils/adb_utils.py:41 | `lstrip` removes exactly a blank prefix that stands before a non-space. |
| Text.Words | utils/adb_utils.py:43 | `split()` is empty exactly for blank input, and each piece is non-empty with no whitespace. |
| Text.FirstWord | utils/adb_utils.py:43 | A word followed by whitespace, or by nothing, is the first piece of `split()`. |
| Text.WordsAfterBlank | utils/adb_utils.py:43 | `split()` takes the words left to right. After any leading whitespace, the word that runs up to the next whitespace or the end is the first piece. The remaining pieces are the `split()` of what follows it. |
| Text.SplitOn | utils/adb_utils.py:41 | `split('\n')` gives at least one piece, and no piece contains the separator. Input without the separator is a single piece. |
| Text.JoinSplit | utils/adb_utils.py:41 | Joining the pieces of `split(sep)` with `sep` gives back the input. |
| Text.ContainsAfter | utils/adb_utils.py:44 | A substring found in `s` is still found once anything is put in front of `s`. |
| Text.ContainsFindsBlock | utils/adb_utils.py:44 | When `sub in s` holds, `sub` occurs at some position of `s`. |
| Text.BlockIsContained | utils/adb_utils.py:44 | When `sub` occurs at some position of `s`, `sub in s` holds. |
| Text.ContainsAt | utils/adb_utils.py:44 | `sub in s` holds exactly when `sub` occurs as a contiguous block of `s`. |
| Adb.ParseDevices | utils/adb_utils.py:41-45 | The parsed set is exactly the first tokens of the lines after the header that are not blank and contain `device`. Those lines all go in, nothing else does, and each member is a whitespace-free non-empty token. |
| Adb.HeaderOnlyListsNothing | utils/adb_utils.py:41 | Output that is a single line after stripping is all header and lists no device. |
| Adb.DeviceLine | utils/adb_utils.py:43-44 | A line `serial<TAB>state` whose state contains `device` is kept, and its first token is the serial. |
| Adb.DeviceLineListed | utils/adb_utils.py:41-45 | Such a line after the header puts its serial in the parsed set. |
| Adb.PushDecision | utils/adb_utils.py:60-105 | The push checks the connection first, then the target path. It runs `adb -s <id> push <src> <target>` exactly when the device is connected and has a non-empty target. If the device refresh cannot start `adb`, the exception escapes. An unconnected device gives `(False, DEVICE_NOT_FOUND)`. A connected device with no target path, or an empty one, gives `(False, INVALID_PATH)`. A push that exits non-zero gives `(False, FAILED)`, and a push that cannot start escapes. The flag is true exactly for SUCCESS, which happens exactly when the push command completes. |
| Adb.NotConnectedIgnoresPaths | utils/adb_utils.py:71-81 | For a device that is not connected, the result does not depend on the target-path table. |
| Adb.ADBHelper.constructor | utils/adb_utils.py:26-28 | A new helper holds the set of one refresh, starting from the empty set. |
| Adb.ADBHelper.UpdateConnectedDevices | utils/adb_utils.py:30-53 | A completed `adb devices` run stores and returns the parsed set. A non-zero exit stores and returns the empty set. If the command cannot start, the exception escapes and the stored set is kept. |
| Adb.ADBHelper.IsDeviceConnected | utils/adb_utils.py:55-58 | Every query refreshes the set first, then answers membership in the refreshed set. |
| Adb.ADBHelper.PushFile | utils/adb_utils.py:60-105 | The device set is refreshed, and the outcome and command run are those of `PushDecision` on the refreshed set. |
| FileTransfer.ImageNameCaseInsensitive | core/file_handler.py:57 | The image test ignores letter case: a name is an image exactly when some tail of it lower-cases to `.png`, `.jpg` or `.jpeg`. |
| FileTransfer.ImageNameOfLower | core/file_handler.py:57 | A name and its lower-cased form are images alike. |
| FileTransfer.ImageNameExamples | core/file_handler.py:57 | `IMG.JPG` and `a.Jpeg` are images: upper- and mixed-case extensions count. |
| FileTransfer.NotImageNameExamples | core/file_handler.py:57 | `a.png.bak` and `PNG` are not images: the extension must end the name and include its dot. |
| FileTransfer.SelectImagesExtremes | core/file_handler.py:56-61 | A listing made only of image files is selected whole. A listing with no image file selects nothing, which is the INVALID_PATH case. |
| FileTransfer.SelectImagesExact | core/file_handler.py:56-57 | The images are exactly the listed names ending in `.png`, `.jpg` or `.jpeg`, in any letter case (`ImageNameCaseInsensitive`), in listing order. |
| FileTransfer.Classify | core/file_handler.py:71-76 | The flag is true exactly when every push succeeded, and then the status is SUCCESS. If some but not all pushes succeeded, the status is PARTIAL_SUCCESS. If none did, it is the first push's status. |
| FileTransfer.RaisedStays | core/file_handler.py:65-68 | Once a push raises, the loop is over: later images are not pushed. |
| FileTransfer.PushPrefixFacts | core/file_handler.py:63-68 | The push loop calls `push_file(device, join(dir, image))` once per image, in order, recording each result. It stops at the first push that raises, and that push is the last call made. |
| FileTransfer.TransferGuards | core/file_handler.py:42-61 | An unknown or empty device mapping gives `(False, DEVICE_NOT_FOUND)`. A missing source directory gives `(False, INVALID_PATH)`, a failed listing `(False, FAILED)`, and no image files `(False, INVALID_PATH)`. In each of these cases no push is made. |
| FileTransfer.TransferPushes | core/file_handler.py:63-80 | A transfer that reaches the pushes makes one push per image, in order. The verdict is SUCCESS exactly when every push succeeded, else PARTIAL_SUCCESS or the first push's status. A push that raises ends the transfer with `(False, FAILED)` at that push. |
| FileTransfer.FileHandler.constructor | core/file_handler.py:27-29 | The handler keeps its project root. The `ADBHelper()` it builds is not modelled (see Left out). |
| FileTransfer.FileHandler.TransferImages | core/file_handler.py:31-80 | The guards, the push loop and the verdict compute exactly the transfer function `Transfer`. |
| App.NoStatusIsProcessed | main.py:75-77 | A row with no status field, or a blank text status, is processed. |
| App.BlankStatusSkipped | main.py:75-77 | With pandas' rendering of an empty cell (`str(NaN)` is `nan`), a row whose status cell is blank is skipped. |
| App.PaddedStatusRule | main.py:75-77 | A text status with whitespace around a code is judged by the bare code. The row is processed again exactly when the code is FAILED or DEVICE_NOT_FOUND, and skipped for any other code. |
| App.RowStepCases | main.py:75-90 | A skipped row has no effect. A processed row with its fields and status code found gets, in this order: one transfer of its `postName` and `time`, one status write of the mapped code at its own index, and a task exactly when the transfer succeeded. |
| App.ExpectedAppend | main.py:73-90 | One more processed row appends that row's effects, with the next transfer number. |
| App.StepExtends | main.py:73-90 | One more row keeps a finished pass in step with its processed rows. |
| App.DispatchFacts | main.py:73-90 | A pass that ran to the end processed exactly the non-skipped rows, in order. The i-th of them received the i-th transfer, and the effects are theirs, one row after another. |
| App.AbortedStays | main.py:73-90 | Once a KeyError has ended the pass, later rows add nothing. |
| App.DispatchRows | main.py:73-90 | The row loop, with `continue` and the KeyError exits, computes exactly `DispatchPrefix` over all rows. |
| App.RunEndsOnlyOnException | main.py:68-97 | The main loop goes on through every pass until a pass raises, and that pass is the last one. |
| App.Application.constructor | main.py:32-37 | The application keeps its monitor, status table and status rendering. |
| App.Application.RunPass | main.py:70-90 | One pass is a non-forced check, then the row loop over the rows it returned. |
| App.Application.Run | main.py:56-98 | `run` makes one forced check, then the passes of `RunFrom` until one raises or the inputs run out, and finally sets the monitor's stop flag. |
| Monitoring.ReadFrom | core/excel_monitor.py:78-85 | The retrying read from a given attempt on: a frame is returned, a non-retryable error escapes, and a transient error is retried until the third attempt, where it escapes. Properties: `ReadFromFacts`. |
| Monitoring.SafeRead | core/excel_monitor.py:73-85 | `read_excel_safe`: the retrying read from the first attempt. Properties: `SafeReadFacts`. |
| Monitoring.ServesFromCache | core/excel_monitor.py:92-93 | The freshness test: not forced, a cache present, and younger than the two-second TTL. |
| Monitoring.Check | core/excel_monitor.py:87-120 | `check_excel_data` as a transition of the monitor's fields, giving the rows returned and the read made. Properties: the `Check…` lemmas above. |
| Monitoring.TickStep | core/excel_monitor.py:125-131 | One poll pass: a forced check when 60 s have passed since the last poll check, then that time is recorded. Properties: `TickChecksWhenDue`. |
| Monitoring.PollRun | core/excel_monitor.py:124-134 | The poll loop over a finite run of passes, stopping at the stop flag. Properties: `PollStopsOnlyOnFlag`. |
| Monitoring.Qualifies | core/excel_monitor.py:42 | The event filter: not a directory, and the path ends in `.xlsx`. |
| Monitoring.Accepts | core/excel_monitor.py:45 | The cooldown test: strictly more than 1 s since the last accepted event. |
| Monitoring.Triggered | core/excel_monitor.py:42-49 | The times of the events that force a check, in order. Properties: `TriggersSpaced`, `BurstCoalesced`. |
| Tables.DropBlank | core/excel_monitor.py:102 | `dropna(subset=headers)`, or the KeyError when a required column is missing. Properties: `ValidRowsExact`. |
| Adb.DeviceLines | utils/adb_utils.py:41 | The lines of the stripped output after the header line. |
| Adb.ListsDevice | utils/adb_utils.py:44 | The line filter: not blank, and containing `device`. |
| Adb.Refreshed | utils/adb_utils.py:30-53 | The stored set after a refresh: parsed on success, empty on a non-zero exit, unchanged when the exception escapes. |
| Adb.PushCommand | utils/adb_utils.py:84-90 | The push command line `adb -s <id> push <src> <target>`. |
| FileTransfer.PathJoin | core/file_handler.py:66 | POSIX `os.path.join` of two parts. |
| FileTransfer.SourceDir | core/file_handler.py:49 | The image directory `root/post/time/img`. |
| FileTransfer.IsImageName | core/file_handler.py:57 | The image test on the lower-cased name: ends in `.png`, `.jpg` or `.jpeg`. Properties: `ImageNameCaseInsensitive`, `ImageNameOfLower`. |
| FileTransfer.SelectImages | core/file_handler.py:56-57 | The image comprehension over the listing. Properties: `SelectImagesExact`, `SelectImagesExtremes`. |
| FileTransfer.DeviceFor | core/file_handler.py:42-43 | The device lookup; a missing and an empty mapping both fail. |
| FileTransfer.PushPrefix | core/file_handler.py:63-68 | The push loop over the first `n` images. Properties: `PushPrefixFacts`, `RaisedStays`. |
| FileTransfer.Transfer | core/file_handler.py:40-80 | `transfer_images` as a function of its inputs. Properties: `TransferGuards`, `TransferPushes`. |
| App.StatusText | main.py:75 | `str(row.get('status', ''))`. |
| App.Skipped | main.py:75-77 | The skip test: the stripped status is non-empty and is neither FAILED nor DEVICE_NOT_FOUND. Properties: `NoStatusIsProcessed`, `PaddedStatusRule`. |
| App.SkipRule | main.py:75-77 | The skip test as a predicate on rows, as the row loop uses it. |
| App.RowStep | main.py:75-90 | The loop body for one row: skip, transfer, status write, task, and the KeyError exits. Properties: `RowStepCases`. |
| App.DispatchPrefix | main.py:73-90 | The row loop over the first `n` rows. Properties: `DispatchFacts`, `AbortedStays`. |
| App.PassStep | main.py:70-90 | One pass of the main loop: a non-forced check, then the row loop. |
| App.RunFrom | main.py:68-97 | The passes of the main loop until one raises. Properties: `RunEndsOnlyOnException`. |
| Text.TrimLeft | utils/adb_utils.py:41 | `lstrip()`. Properties: `TrimLeftFacts`, `TrimLeftBlankPrefix`. |
| Text.TrimRight | utils/adb_utils.py:41 | `rstrip()`. Properties: `TrimRightFacts`. |
| Text.Lower | core/file_handler.py:57 | ASCII `lower()`, character by character. Properties: `LowerFacts`, `LowerIdempotent`, `EndsWithLower`. |
| Text.LowerFacts | core/file_handler.py:57 | `lower()` keeps the length and leaves no letter A-Z. It changes exactly the characters that are letters A-Z. |
| Text.LowerIdempotent | core/file_handler.py:57 | Lower-casing twice is lower-casing once. |
| Text.EndsWithLower | core/file_handler.py:57 | `s.lower().endswith(e)` holds exactly when the tail of `s` as long as `e` lower-cases to `e`. |
| Text.EndsWith | core/file_handler.py:57 | `endswith`: the input ends in the suffix. |
| Text.Contains | utils/adb_utils.py:44 | `sub in s`. Properties: `ContainsAt`, `ContainsFindsBlock`, `BlockIsContained`, `ContainsAfter`. |

## Left out

- Threads and the monitor's lock are not modelled. Calls are taken one at a time. A stop request from another thread is the `stopAfter` flag of a poll pass.
- The watchdog observer, its scheduling and the starting of the poll thread are not modelled. File events reach the model as a sequence of `FsEvent`s.
- The MD5 of `df.to_string()` is left abstract. The fingerprint is a fixed function of the frame, and the model only compares it for equality.
- `pd.read_excel` is left out: each attempt's outcome is an input. Reading into frames, cell types and pandas' text rendering of non-text cells are outside the model; `render` stands for that rendering.
- Clocks and sleeps are not modelled. The clock is a real-valued parameter. Sleeps are counted in the read report and otherwise not modelled.
- One clock value is used per poll pass (`Monitoring.ExcelMonitor.PollTick`) and per file event (`Monitoring.ExcelEventHandler.OnModified`). The check triggered then sets the cache time to that value. In the source, `check_excel_data` reads `time.time()` again (core/excel_monitor.py:89), so the cache time it sets is a slightly later reading.
- Logging is not modelled, except that the read report counts the error log of exhausted retries.
- `subprocess.run` is left out: its outcome is an input, a completed run with its output, a non-zero exit, or a failure to start. `os.path.exists` and `os.listdir` are inputs as well.
- `update_excel_status` is not modelled: a status write is recorded as an effect. Its own read and write of the file and its swallowed errors are left out.
- `TaskScheduler.add_task` is not modelled: a scheduled task is recorded as an effect.
- Signal handling and `sys.exit` are not modelled.
- Configuration values (`EXCEL_HEADERS`, `DEVICE_MAPPING`, `DEVICE_PATHS`, `TASK_STATUS`, `ROOT_DIR`, `ADB_COMMAND`) are parameters rather than loaded from settings.
- `time.sleep(1)` between main-loop passes is not modelled: passes follow each other.
- App.DispatchRows: the transfer of a row is the pass's k-th transfer result, an input. The loop does not run `FileTransfer.FileHandler.TransferImages` itself, and `TransferImages` in turn does not compose `Adb.ADBHelper.PushFile`, whose outcome is consumed as `push(k)`. Each composition is proved as its own function, and the stored device set of one push is not carried into the next.
- App.StatusText: `render(None)` stands for `str(NaN)`, which is `nan`. In the source, a row whose status cell is empty is therefore skipped (`App.BlankStatusSkipped`, under that rendering). The model leaves `render` open and does not fix this case.
- Text.Strip: only whitespace up to U+0020 (ASCII whitespace and U+001C-U+001F) counts. This matters for `strip`, `split` and the blank test; Python's Unicode whitespace beyond that is not modelled.
- Text.Lower: only ASCII letters are lower-cased.
- Timestamps and the row values passed to the transfer are not rounded as IEEE floats: times are Dafny reals, and `postName` and `time` are passed as cell values.
- FileTransfer.SourceDir: `os.path.join` is modelled for POSIX paths only.
- Adb.ADBHelper.constructor: if `adb` cannot be started, the constructor's own refresh would raise out of `__init__`. The model keeps the empty set instead.
- Monitoring.PollExcel: a pass that raised is a `faulted` tick with no effect. In the source, an exception raised after the forced check but before `last_check_time` is assigned would leave the check's effects; `check_excel_data` catches its own errors, so this does not happen there. The loop is modelled over a finite sequence of passes.
- FileTransfer.FileHandler.constructor: the `ADBHelper()` built at core/file_handler.py:29 is not modelled. That constructor runs `adb devices` and can raise out of `__init__`; pushes reach the transfer as the `push(k)` input instead.
- Monitoring.ExcelMonitor.constructor: `force_check_interval` (the 5 s sleep) and the observer object are not represented.
