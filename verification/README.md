# JASP reporting service, modelled in Dafny

`JaspReportingService` is a Windows service that supervises one `JASP.exe`
child process. When the service starts, it launches JASP in reporting mode.
A repeating timer then checks on the process:

- a healthy process (responding, nothing on standard error) is left alone;
- otherwise, a process that has exited, or was never started, ends the service;
- otherwise, whatever is on standard error goes to the Windows event log.

The healthy test comes first (line 44). So a process that has exited but still reads as responding, with nothing on standard error, is left alone: no tick ever reports its exit code.

When the service stops, it closes the process if it responds, kills it if it
is still running after that, and writes an "exit event" with the exit code.
Every message goes through `WriteEventLog`. That routine cuts a long message
into entries that each carry at most 32000 characters of the message, after a
"Part #k of n: " header when there are several.

This project models that logic as pure functions. The running process is an
immutable snapshot `Proc`: whether it responds, whether standard error is at
its end, whether it has exited, its exit code, and the text still waiting on
standard error. Each service callback returns the effects it performs, in
order, plus the state it leaves:

- a `Log(error, msg)` for each `WriteEventLog` call;
- `CloseJasp` or `KillJasp`;
- `ArmTimer` or `StopTimer`.

`Supervisor.Entries` turns these effects into the physical event-log entries.
How the process reacts to `Close()` and `Kill()` is a parameter
(`Process.Reactions`). So is what the operating system does with the start
request (`os: StartInfo -> StartAttempt`).

Modules:

- `Optional`: `Option`, the model of a null reference.
- `Decimal`: `int.ToString()` and `nat.ToString()`, with a parser as their partner (`TakeInt`, which handles the sign, `ParseInt` and `TakeDigits`). The exit-event reader is built on `TakeInt`.
- `EventLog`: `WriteEventLog` (the source's loop, as a method) and `Written` (the entries it writes). Its partner is `Reassemble`, which strips the headers and joins the bodies.
- `Process`: the process snapshot, `StandardError.ReadToEnd()`, and what `Close()`/`Kill()` leave.
- `Launch`: the start information built from configuration, a space-splitting reader for the argument string (its partner), and `StartJasp`.
- `Supervisor`: `OnStart`, `OnTimedEvent`, `OnStop` and `WriteExitEvent`, plus a parser for the exit-event text (its partner).

In four places the code does something other than what its own text points to. The model follows the code in each:

- Line 28 passes `StartJasp`'s result, which is `Start()`'s result (lines 113, 131), as the `error` parameter of `WriteEventLog` (line 80). So a successful launch is logged as an error.
- Line 55 builds the label "JASP had stderr output: " and a `_jasp == null ? "JASP never started!"` branch, but operator precedence makes the null test apply to the concatenation, so neither is ever used. The tick logs the bare standard error at informational severity (`false`).
- A terminal tick calls `WriteExitEvent()` and then `Stop()` (lines 50-51). `Stop()` runs `OnStop`, which calls `WriteExitEvent()` a second time (line 71), so two exit events are written.
- `OnStop` (lines 58-72) never calls `_timer.Stop()`, so stopping the service leaves the timer running.

## Model

| member | source | states |
|---|---|---|
| EventLog.ChunkCount | JaspReportingService.cs:83 | The n entries cover the message (`len <= Offset(n)`, and `Offset(n)` is `32000*n`), with no spare entry (`Offset(n-1) < len`); an empty message needs none |
| EventLog.ChunkCountIsCeiling | JaspReportingService.cs:83 | The entry count equals the integer ceiling `(len + 31999) / 32000` |
| EventLog.OffsetIsProduct | JaspReportingService.cs:87 | The offset of piece k, defined block by block, is `maxEntryLength * split` |
| EventLog.Chunks | JaspReportingService.cs:85-90 | A message is cut into `ChunkCount` bodies, each non-empty and at most 32000 characters |
| EventLog.ChunksConcat | JaspReportingService.cs:85-90 | The bodies, joined in order, are exactly the message |
| EventLog.BodyAt | JaspReportingService.cs:87-90 | Body k starts at offset `32000*k` inside the message and runs for 32000 characters or to the end |
| EventLog.ChunkOffset | JaspReportingService.cs:87-90 | Piece k of the recursive cut is the substring at `Offset(k)` of length `Min(len - Offset(k), 32000)` |
| EventLog.SeverityOf | JaspReportingService.cs:91 | The entry type is Information exactly when `error` is false and Error exactly when it is true |
| EventLog.Written | JaspReportingService.cs:80-93 | One entry per piece; none exactly when the message is empty; every entry is Information iff `!error`; a one-entry message is written verbatim |
| EventLog.WrittenAt | JaspReportingService.cs:87-91 | Entry k is the "Part #" header (only when there are several entries) followed by the substring at `curPos = Offset(k)`, at the shared severity |
| EventLog.WriteEventLog | JaspReportingService.cs:80-93 | The source's loop, with `curPos = maxEntryLength * split`, writes exactly the entries of `Written` |
| EventLog.ParseHeaderOfPrefix | JaspReportingService.cs:89 | The header "Part #(k+1) of n: " reads back as k+1 and n, leaving the body untouched |
| EventLog.StripWritten | JaspReportingService.cs:85-91 | Stripping the headers from entries `from..n` of a multi-part message gives the concatenation of bodies `from..n` |
| EventLog.ReassembleWritten | JaspReportingService.cs:80-93 | Every message is recovered from the entries written for it |
| Decimal.NatToString | JaspReportingService.cs:89 | The decimal text of a count is non-empty, all digits, and has no leading zero |
| Decimal.IntToString | JaspReportingService.cs:76 | The decimal text of an exit code is non-empty and starts with '-' exactly when the code is negative |
| Decimal.ParseNatToString | JaspReportingService.cs:89 | Reading the digits of `n.ToString()` gives back n |
| Decimal.ParseIntToString | JaspReportingService.cs:76 | Reading `ExitCode.ToString()` gives back the code, for negative codes too |
| Decimal.NatToStringInjective | JaspReportingService.cs:89 | Different part numbers have different decimal texts |
| Decimal.TakeIntOfIntToString | JaspReportingService.cs:76 | A rendered exit code followed by a non-digit is read back exactly, for negative codes too, and the reader stops right after it |
| Decimal.ParseInt | JaspReportingService.cs:76 | A text reads as an integer only when it is one whole numeral |
| Decimal.TakeDigits | JaspReportingService.cs:76 | Splits a text into its leading run of digits and a rest that does not start with a digit |
| Decimal.TakeDigitsOfNumeral | JaspReportingService.cs:76 | A numeral followed by a non-digit splits at exactly the numeral's end |
| Process.ReadToEnd | JaspReportingService.cs:55 | Reading standard error drains it; the text read is what was waiting, and nothing when the stream is already at its end; nothing else about the process changes |
| Process.AfterClose | JaspReportingService.cs:64-65 | After `Close()` the process has exited iff it had already or it exits on close; an exited process is unchanged |
| Process.AfterKill | JaspReportingService.cs:67-68 | After `Kill()` the process has exited, does not respond, and reports the kill's exit code |
| Launch.AppSetting | JaspReportingService.cs:99-102 | A configuration lookup has a value exactly when the key is present |
| Launch.BuildStartInfo | JaspReportingService.cs:101-108 | File name "JASP.exe"; working directory from JaspDesktopLocation; the redirect and window flags; arguments begin with "--report " and have the length of the plain concatenation, a missing value counting as empty; their words are pinned by `ArgumentsWords` |
| Launch.ArgumentsWords | JaspReportingService.cs:108 | For every configuration, JASP reads the flag, then the words of the output folder, then the words of the report file, a missing value adding none |
| Launch.AsText | JaspReportingService.cs:108 | A missing setting concatenates as the empty text; a present one as its value |
| Launch.ArgumentsRoundTrip | JaspReportingService.cs:108 | With a folder and file set, non-empty and free of spaces, JASP reads exactly the flag, the folder and the file |
| Launch.SpacedFolderSplits | JaspReportingService.cs:108 | The arguments are not quoted: a folder "a b" reaches JASP as two arguments |
| Launch.MissingFolderShiftsFile | JaspReportingService.cs:108 | A missing output folder makes JASP read the report file as the folder argument |
| Launch.ExampleStartInfo | JaspReportingService.cs:102-108 | A concrete configuration gives working directory "/app" and arguments "--report", "/out", "r.jasp" |
| Launch.StartJasp | JaspReportingService.cs:95-132 | The handle changes only when `Start()` returns, and is then the new process with "Jasp is running." and `Start()`'s result; the two caught exceptions give `false`, leave the handle unchanged, and end the message with the exception's text; any other exception escapes |
| Supervisor.ExitMessageRoundTrip | JaspReportingService.cs:76 | The exit code and the standard-error text can be read back from the exit-event text, for every code and every text |
| Supervisor.NeverStartedIsNotExitMessage | JaspReportingService.cs:76 | The "never started" notice is never read as an exit-code message |
| Supervisor.WriteExitEvent | JaspReportingService.cs:74-78 | No handle: "JASP never started..." as an error. Otherwise: the code and the rest of standard error, as an error exactly when the code is not 0, with the stream drained |
| Supervisor.ExitEventExample | JaspReportingService.cs:76-77 | Exit code 2 with "boom" waiting gives the error entry "JASP exited with exitcode 2 and stderror: boom" |
| Supervisor.CleanExitIsInformational | JaspReportingService.cs:77 | Exit code 0 gives an informational exit event |
| Supervisor.Shutdown | JaspReportingService.cs:62-69 | At most two effects, only close and kill; close iff the process responds; kill iff it had not exited and did not exit on close; close before kill when both happen; exited afterwards; standard error untouched; an exited process unchanged; the exit code is the kill's if killed, the close's if it exited on close |
| Supervisor.OnStop | JaspReportingService.cs:58-72 | "Service stopped" first; then only close/kill; an exit event last. No handle: exactly the two entries. With a handle, what lies between them is exactly `Shutdown`'s effects, so close and kill each happen at most once, close first; close iff responding; kill iff still running after that. With a handle, the exit event reads back as the final exit code and the standard error waiting when the stop began, and is an error iff that code is not 0; the code is the kill's if killed, the close's if it exited on close, the original if it had already exited; the stream ends drained. The timer is untouched |
| Supervisor.OnStopClosesBeforeKilling | JaspReportingService.cs:64-68 | No kill precedes a close |
| Supervisor.ExitMessage | JaspReportingService.cs:76 | The exit-event text starts with "JASP exited with exitcode " and ends with the standard-error text |
| EventLog.Header | JaspReportingService.cs:89 | A part header starts with "Part #", ends with ": " and is longer than 8 characters |
| EventLog.PartPrefix | JaspReportingService.cs:89 | A message of several entries gets a "Part #" header on each; a one-entry message gets none |
| Supervisor.OnTimedEvent | JaspReportingService.cs:42-56 | No effect exactly when the process is healthy, and then nothing changes. Not healthy, and no handle or exited: the timer is stopped first and ends stopped. Otherwise: exactly one informational log of the standard error read to its end, and the drained process is kept |
| Supervisor.FallbackText | JaspReportingService.cs:55 | The fallback message is the raw standard error, and never the labelled text |
| Supervisor.LaunchLog | JaspReportingService.cs:28 | The launch outcome is logged with `StartJasp`'s message, as an error exactly when the launch worked, which differs from the corrected logging |
| Supervisor.Healthy | JaspReportingService.cs:44 | The fast-path condition: a handle whose process responds and whose standard error is at its end, which leaves nothing to read |
| Supervisor.Gone | JaspReportingService.cs:47 | The terminal condition: no handle, or the process has exited |
| Supervisor.ExitedButRespondingIgnored | JaspReportingService.cs:44-47 | An exited process that responds with its stream at the end is terminal by line 47, yet the tick does nothing and changes nothing |
| Supervisor.HealthyTick | JaspReportingService.cs:44-45 | A responding process with nothing on standard error: the tick does nothing and changes nothing |
| Supervisor.HealthyTickIsSilent | JaspReportingService.cs:44-45 | A healthy tick writes no event-log entry |
| Supervisor.TerminalTick | JaspReportingService.cs:47-52 | Not healthy, and no handle or exited: timer stopped first, then the exit event, then the stop routine; no fallback text; the timer ends stopped |
| Supervisor.TerminalTickWithoutHandle | JaspReportingService.cs:47-52 | With no handle the tick writes "never started" twice around "Service stopped" |
| Supervisor.TerminalTickAfterExit | JaspReportingService.cs:47-52 | For an exited process the first exit event carries the remaining standard error and the second finds it drained; nothing is killed |
| Supervisor.FallbackTick | JaspReportingService.cs:55 | A live process that is unresponsive or has output gets exactly one informational `WriteEventLog` call (one log effect) holding the raw output, which becomes no entry when the output is empty and several past 32000 characters; the stream is drained; the timer keeps running |
| Supervisor.ExitedWithOutputReportedOnce | JaspReportingService.cs:44-55 | An exited process with output is reported by the first exit event, which carries the exit code and the output; after the "Service stopped" notice only close/kill effects come before the final exit event |
| Supervisor.UnresponsiveQuietTickIsSilent | JaspReportingService.cs:55 | An unresponsive process with nothing on standard error logs an empty message, which writes no entry |
| Supervisor.FallbackTickEntry | JaspReportingService.cs:55 | Output that fits one entry is written verbatim as one Information entry |
| Supervisor.OnStart | JaspReportingService.cs:21-40 | "Service started" first. Unless an uncaught exception escapes the launch: exactly three effects, the second carrying `StartJasp`'s message and the third arming the timer. When `Start()` returns, the second is "Jasp is running." at the severity of `Start()`'s result and the handle becomes the new process; after a caught exception only the timer changes. The handle changes only when `Start()` returns. An escaping exception gives exactly "Service started" and an error with its message, and changes nothing |
| Supervisor.FailedLaunchStopsOnFirstTick | JaspReportingService.cs:21-56 | A launch failing with a caught exception still arms the timer, and the first tick stops it and reports "never started" |
| Supervisor.LaunchSeverityInverted | JaspReportingService.cs:28 | The launch outcome is logged as an error exactly when the launch succeeded |
| Supervisor.RunningLoggedAsError | JaspReportingService.cs:28 | A successful start writes "Jasp is running." as an Error entry |
| Supervisor.IntendedLaunchLog | JaspReportingService.cs:28 | Corrected: the outcome keeps its text and is an error exactly when the launch failed |
| Supervisor.IntendedOnStart | JaspReportingService.cs:21-40 | Corrected lifecycle: a launch whose `Start()` returned true is logged as information, one that failed with a caught exception as an error; the timer is armed either way |
| Supervisor.IntendedOnTimedEvent | JaspReportingService.cs:42-56 | Corrected lifecycle: the fallback logs the label followed by the whole output; the healthy and terminal paths are those of the code |
| Supervisor.FallbackDropsLabel | JaspReportingService.cs:55 | The fallback text for "boom" is "boom", not the labelled text |
| Supervisor.IntendedFallbackText | JaspReportingService.cs:55 | Corrected: the label "JASP had stderr output: " followed by the whole output |

## Left out

- `Thread.Sleep(3000)` and the `System.Timers.Timer` (lines 27, 30-34) are left out, because they are timing and concurrency. The timer is a flag with arm/stop effects. The race between a tick and `OnStop` is not modelled.
- Real `Process` behaviour is left out because it is the operating system's. This covers `Start`, `Close`, `Kill`, `Responding`, `HasExited` and stream reads, which become snapshot fields and the `Reactions` parameter. Two consequences:
  - the model does not capture that `HasExited` can throw after `Close()`;
  - the source never sets `RedirectStandardError`, so its `StandardError` accesses would throw; the model reads standard error as if it were redirected.
- `EventLog.WriteEntry` transport: an entry is a value appended to the output sequence.
- `ConfigurationManager.AppSettings` is a finite map from key to value. `Get` of a missing key is `None`, and concatenation turns it into "".
- `ServiceBase`: `Stop()` is modelled as a direct call of the stop routine. The framework's own state machine is not modelled.
- `OnStart`'s catch-all (lines 36-39) is modelled as an error entry with the exception's message, for exceptions escaping `StartJasp`. Exceptions thrown by `WriteEventLog` or the timer are not modelled.
- The exception texts: the two caught exceptions' messages are kept in full, but the model states only that they end with the exception's own message.
- EventLog.Chunks: lengths and offsets count characters of a Dafny string, which are Unicode scalar values, while C#'s `Length` and `Substring` (lines 83, 90) count UTF-16 code units. Text outside the Basic Multilingual Plane therefore gives different counts and cut points: 16001 × U+1F600 is 32002 code units and two entries in the source, but one entry here. A cut inside a surrogate pair, which `Substring` can make, cannot be represented.
- EventLog.ChunkCount: integer ceiling division replaces the `float` division at line 83. The two agree up to lengths where `float` rounding begins (beyond 2^24 characters).
- Decimal.IntToString: the negative sign is taken to be '-'. `ExitCode.ToString()` at line 76 formats with the current culture's `NegativeSign`, so on a machine whose locale uses another sign the text of a negative exit code differs.
- Launch.Words: JASP's command-line parser is approximated by splitting on single spaces. Quoting and other whitespace are not modelled.

## Findings

| source | as written | input that shows it | evidently intended | confidence | as-written member | corrected member |
|---|---|---|---|---|---|---|
| JaspReportingService.cs:55 | `"JASP had stderr output: " + _jasp == null ? … : ReadToEnd()` parses as a null test of the concatenation, which is never null, so only the raw output is logged | standard error "boom" is logged as "boom" | "JASP had stderr output: boom" | high, not executed | Supervisor.FallbackDropsLabel | Supervisor.IntendedFallbackText |
| JaspReportingService.cs:28 | `WriteEventLog(StartJasp(out msg), msg)` passes the success flag as `error` | `Start()` returns true: "Jasp is running." is written as an Error entry | error severity exactly when the launch failed | high, not executed | Supervisor.RunningLoggedAsError | Supervisor.IntendedLaunchLog |

`OnTimedEvent` and `OnStart` keep the code's behaviour, so the lemmas about the service describe what it does: `FallbackTick` shows the unlabelled informational fallback and `LaunchSeverityInverted` the inverted launch severity. `IntendedOnTimedEvent` and `IntendedOnStart` are the same callbacks built from the corrected members `IntendedFallbackText` and `IntendedLaunchLog`.
