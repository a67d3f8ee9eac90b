/** The service object `JaspReportingService`: what `OnStart`, the timer's
    `OnTimedEvent`, `OnStop` and `WriteExitEvent` do, as pure functions from the
    service's state (the `_jasp` handle and whether `_timer` is running) to the
    effects they perform, in order, and the state they leave. */
module Supervisor {
  import opened Optional
  import opened Decimal
  import opened Process
  import opened Launch
  import opened EventLog

  /** One observable step: a call of `WriteEventLog(error, msg)`, a call of
      `_jasp.Close()` or `_jasp.Kill()`, or starting or stopping `_timer`. */
  datatype Effect =
    | Log(error: bool, msg: string)
    | CloseJasp
    | KillJasp
    | ArmTimer
    | StopTimer

  /** The service's fields: the handle `_jasp` (unset until a launch hands one
      over) and whether the repeating timer is running. */
  datatype Service = Service(jasp: Option<Proc>, timerArmed: bool)

  /** The service as constructed, before `OnStart`. */
  const Fresh: Service := Service(None, false)

  const ServiceStarted: string := "Service started"
  const ServiceStopped: string := "Service stopped"
  const NeverStarted: string := "JASP never started..."

  // ---------------------------------------------------------------------------
  // The exit event.

  const ExitedWith: string := "JASP exited with exitcode "
  const AndStderr: string := " and stderror: "

  /** The text of the exit event for a process that has a handle. */
  function ExitMessage(code: int, stderr: string): (m: string)
    ensures |m| > |ExitedWith| + |stderr| && m[..|ExitedWith|] == ExitedWith
    ensures m[|m| - |stderr|..] == stderr
  {
    var m := ExitedWith + IntToString(code) + AndStderr + stderr;
    assert m == ExitedWith + (IntToString(code) + AndStderr + stderr);
    assert m == (ExitedWith + IntToString(code) + AndStderr) + stderr;
    m
  }

  predicate StartsWith(s: string, prefix: string) {
    |prefix| <= |s| && s[..|prefix|] == prefix
  }

  lemma StartsWithConcat(prefix: string, rest: string)
    ensures StartsWith(prefix + rest, prefix) && (prefix + rest)[|prefix|..] == rest
  {
  }

  /** Reads an exit-event text back into its exit code and its standard-error text. */
  function ParseExitMessage(m: string): Option<(int, string)> {
    if StartsWith(m, ExitedWith) then ParseCodeAndStderr(m[|ExitedWith|..]) else None
  }

  /** Reads "<code> and stderror: <text>": the numeral `Decimal` writes, then the
      separator, then the standard-error text. */
  function ParseCodeAndStderr(rest: string): Option<(int, string)> {
    var code := TakeInt(rest);
    if code.Some? && StartsWith(code.value.1, AndStderr) then Some((code.value.0, code.value.1[|AndStderr|..])) else None
  }

  lemma ParseAfterPrefix(m: string, rest: string)
    requires StartsWith(m, ExitedWith) && m[|ExitedWith|..] == rest
    ensures ParseExitMessage(m) == ParseCodeAndStderr(rest)
  {
  }

  lemma CodeAndStderrOfInt(code: int, stderr: string)
    ensures ParseCodeAndStderr(IntToString(code) + (AndStderr + stderr)) == Some((code, stderr))
  {
    assert (AndStderr + stderr)[0] == ' ';
    TakeIntOfIntToString(code, AndStderr + stderr);
    StartsWithConcat(AndStderr, stderr);
  }

  lemma ExitMessageSplits(code: int, stderr: string)
    ensures ExitMessage(code, stderr) == ExitedWith + (IntToString(code) + (AndStderr + stderr))
  {
  }

  /** The exit code and the standard-error text can be read back from the exit event. */
  lemma ExitMessageRoundTrip(code: int, stderr: string)
    ensures ParseExitMessage(ExitMessage(code, stderr)) == Some((code, stderr))
  {
    var rest := IntToString(code) + (AndStderr + stderr);
    CodeAndStderrOfInt(code, stderr);
    ExitMessageSplits(code, stderr);
    StartsWithConcat(ExitedWith, rest);
    ParseAfterPrefix(ExitedWith + rest, rest);
  }

  /** The "never started" notice is not an exit-code message. */
  lemma NeverStartedIsNotExitMessage()
    ensures ParseExitMessage(NeverStarted) == None
  {
  }

  /** `WriteExitEvent`: with no handle, the "never started" notice at error
      severity; otherwise the exit code and the rest of standard error, at error
      severity exactly when the code is not zero. Reading standard error drains it. */
  function WriteExitEvent(jasp: Option<Proc>): (r: (Effect, Option<Proc>))
    ensures r.0.Log?
    ensures jasp.None? ==> r.0 == Log(true, NeverStarted) && r.1 == None
    ensures jasp.Some? ==>
              && (r.0.error <==> jasp.value.exitCode != 0)
              && ParseExitMessage(r.0.msg) == Some((jasp.value.exitCode, ReadToEnd(jasp.value).0))
              && r.1 == Some(ReadToEnd(jasp.value).1)
  {
    match jasp
    case None => (Log(true, NeverStarted), None)
    case Some(p) =>
      var (text, drained) := ReadToEnd(p);
      ExitMessageRoundTrip(p.exitCode, text);
      (Log(p.exitCode != 0, ExitMessage(p.exitCode, text)), Some(drained))
  }

  /** An exit event: the "never started" notice or an exit-code message. */
  predicate IsExitEvent(e: Effect) {
    e.Log? && (e.msg == NeverStarted || ParseExitMessage(e.msg).Some?)
  }

  // ---------------------------------------------------------------------------
  // Stopping.

  /** The middle of `OnStop` for a process with a handle: `Close()` when it
      responds, then `Kill()` when it has not exited; the effects and the process
      as left. */
  function Shutdown(p: Proc, r: Reactions): (out: (seq<Effect>, Proc))
    ensures forall i :: 0 <= i < |out.0| ==> out.0[i] == CloseJasp || out.0[i] == KillJasp
    ensures CloseJasp in out.0 <==> p.responding
    ensures KillJasp in out.0 <==> !(p.exited || (p.responding && r.closeExits))
    ensures |out.0| <= 2
    ensures |out.0| == 2 ==> out.0 == [CloseJasp, KillJasp]
    ensures out.1.exited
    ensures out.1.stderr == p.stderr && out.1.stderrAtEnd == p.stderrAtEnd
    ensures p.exited ==> out.1 == p
    ensures KillJasp in out.0 ==> out.1.exitCode == r.killExitCode
    ensures KillJasp !in out.0 && !p.exited ==> out.1.exitCode == r.closeExitCode
  {
    var closing := if p.responding then [CloseJasp] else [];
    var p1 := if p.responding then AfterClose(p, r) else p;
    var killing := if !p1.exited then [KillJasp] else [];
    var p2 := if !p1.exited then AfterKill(p1, r) else p1;
    (closing + killing, p2)
  }

  /** The effects between a first and a last one: what lies between them, and
      which effects occur at all. */
  lemma Framed(first: Effect, middle: seq<Effect>, last: Effect)
    ensures var fx := [first] + middle + [last];
            && fx[0] == first && fx[|fx| - 1] == last && fx[1..|fx| - 1] == middle
            && forall e :: e in fx <==> e == first || e in middle || e == last
  {
    var fx := [first] + middle + [last];
    assert fx[1..|fx| - 1] == middle;
  }

  /** `OnStop`: announce the stop; if there is a handle, close the process when it
      responds and kill it when it has not exited after that; then write the exit
      event. The timer is left as it was. */
  function OnStop(s: Service, r: Reactions): (out: (seq<Effect>, Service))
    ensures |out.0| >= 2 && out.0[0] == Log(false, ServiceStopped)
    ensures IsExitEvent(out.0[|out.0| - 1])
    ensures forall i :: 0 < i < |out.0| - 1 ==> out.0[i] == CloseJasp || out.0[i] == KillJasp
    ensures out.1.timerArmed == s.timerArmed
    ensures s.jasp.None? ==> out.0 == [Log(false, ServiceStopped), Log(true, NeverStarted)] && out.1 == s
    ensures s.jasp.Some? ==>
              && (CloseJasp in out.0 <==> s.jasp.value.responding)
              && (KillJasp in out.0 <==> !(s.jasp.value.exited || (s.jasp.value.responding && r.closeExits)))
              && out.1.jasp.Some? && out.1.jasp.value.exited
              && out.0 == [out.0[0]] + Shutdown(s.jasp.value, r).0 + [out.0[|out.0| - 1]]
    ensures s.jasp.Some? && out.1.jasp.Some? ==>
              var p, q, last := s.jasp.value, out.1.jasp.value, out.0[|out.0| - 1];
              && ParseExitMessage(last.msg) == Some((q.exitCode, ReadToEnd(p).0))
              && (last.error <==> q.exitCode != 0)
              && (p.exited ==> q.exitCode == p.exitCode)
              && (KillJasp in out.0 ==> q.exitCode == r.killExitCode)
              && (KillJasp !in out.0 && !p.exited ==> q.exitCode == r.closeExitCode)
              && q.stderrAtEnd && q.stderr == ""
  {
    var stopped := Log(false, ServiceStopped);
    match s.jasp
    case None =>
      ([stopped, Log(true, NeverStarted)], s)
    case Some(p) =>
      var (acts, p2) := Shutdown(p, r);
      var (exitEvent, jasp') := WriteExitEvent(Some(p2));
      assert IsExitEvent(exitEvent);
      var fx := [stopped] + acts + [exitEvent];
      Framed(stopped, acts, exitEvent);
      (fx, s.(jasp := jasp'))
  }

  /** Close always comes before kill. */
  lemma OnStopClosesBeforeKilling(s: Service, r: Reactions)
    ensures var fx := OnStop(s, r).0;
            forall i, j :: 0 <= i < j < |fx| && fx[j] == CloseJasp ==> fx[i] != KillJasp
  {
    var fx := OnStop(s, r).0;
    if s.jasp.Some? {
      CloseThenKill(fx[0], Shutdown(s.jasp.value, r).0, fx[|fx| - 1]);
    }
  }

  /** Between two log entries, at most a close and a kill, in that order: no kill
      comes before a close. */
  lemma CloseThenKill(first: Effect, acts: seq<Effect>, last: Effect)
    requires first.Log? && last.Log?
    requires |acts| <= 2 && (|acts| == 2 ==> acts == [CloseJasp, KillJasp])
    ensures var fx := [first] + acts + [last];
            forall i, j :: 0 <= i < j < |fx| && fx[j] == CloseJasp ==> fx[i] != KillJasp
  {
    var fx := [first] + acts + [last];
    if |acts| == 2 {
      assert fx == [first, CloseJasp, KillJasp, last];
    } else if |acts| == 1 {
      assert fx == [first, acts[0], last];
    } else {
      assert fx == [first, last];
    }
  }

  // ---------------------------------------------------------------------------
  // The health tick.

  /** The healthy fast path: a handle whose process responds and has nothing on
      standard error. */
  function Healthy(jasp: Option<Proc>): (h: bool)
    ensures h <==> jasp.Some? && jasp.value.responding && jasp.value.stderrAtEnd
    ensures h ==> ReadToEnd(jasp.value).0 == ""
  {
    jasp.Some? && jasp.value.responding && jasp.value.stderrAtEnd
  }

  /** The terminal condition, checked second: no handle, or the process has exited. */
  function Gone(jasp: Option<Proc>): (g: bool)
    ensures g <==> jasp.None? || jasp.value.exited
  {
    jasp.None? || jasp.value.exited
  }

  /** The text the fallback path logs. C# binds `+` tighter than `==` and `?:`, so
      the source compares the concatenation `"JASP had stderr output: " + _jasp`
      with null; a concatenation is never null, so the log gets the rest of
      standard error alone, without the intended label. */
  function FallbackText(stderr: string): (t: string)
    ensures t == stderr
    ensures t != IntendedFallbackText(stderr)
  {
    stderr
  }

  /** `OnTimedEvent`: silent when healthy; when the process is gone, stop the
      timer, write the exit event and run the stop routine; otherwise log the rest
      of standard error at informational severity. */
  function OnTimedEvent(s: Service, r: Reactions): (out: (seq<Effect>, Service))
    ensures out.0 == [] <==> Healthy(s.jasp)
    ensures Healthy(s.jasp) ==> out.1 == s
    ensures !Healthy(s.jasp) && Gone(s.jasp) ==> out.0[0] == StopTimer && !out.1.timerArmed
    ensures !Healthy(s.jasp) && !Gone(s.jasp) ==>
              && out.0 == [Log(false, ReadToEnd(s.jasp.value).0)]
              && out.1 == s.(jasp := Some(ReadToEnd(s.jasp.value).1))
  {
    if Healthy(s.jasp) then ([], s)
    else if Gone(s.jasp) then
      var (exitEvent, jasp') := WriteExitEvent(s.jasp);
      var (stopping, s') := OnStop(Service(jasp', false), r);
      ([StopTimer, exitEvent] + stopping, s')
    else
      var (text, drained) := ReadToEnd(s.jasp.value);
      ([Log(false, FallbackText(text))], s.(jasp := Some(drained)))
  }

  /** A healthy tick does nothing at all. */
  lemma HealthyTick(s: Service, r: Reactions)
    requires Healthy(s.jasp)
    ensures OnTimedEvent(s, r) == ([], s)
  {
  }

  /** The fast path is checked before the exit: a process that has exited but
      still reads as responding with its stream at the end is left alone, so no
      tick ever reports its exit code. */
  lemma ExitedButRespondingIgnored(s: Service, r: Reactions)
    requires s.jasp.Some? && s.jasp.value.exited && s.jasp.value.responding && s.jasp.value.stderrAtEnd
    ensures Gone(s.jasp) && OnTimedEvent(s, r) == ([], s)
  {
  }

  /** A terminal tick stops the timer first, then writes the exit event, then
      runs the stop routine; it ends with the timer stopped. Its only entries are
      the exit event, the stop notice and the stop routine's exit event: between
      the last two come only close and kill, and no fallback text is logged. */
  lemma TerminalTick(s: Service, r: Reactions)
    requires !Healthy(s.jasp) && Gone(s.jasp)
    ensures var (fx, s') := OnTimedEvent(s, r);
            && |fx| >= 4
            && fx[0] == StopTimer
            && fx[1] == WriteExitEvent(s.jasp).0
            && fx[2] == Log(false, ServiceStopped)
            && (forall i :: 3 <= i < |fx| - 1 ==> fx[i] == CloseJasp || fx[i] == KillJasp)
            && IsExitEvent(fx[|fx| - 1])
            && !s'.timerArmed
  {
    TerminalTickHead(s, r);
    TerminalTickTail(s, r);
  }

  lemma TerminalTickHead(s: Service, r: Reactions)
    requires !Healthy(s.jasp) && Gone(s.jasp)
    ensures var (fx, s') := OnTimedEvent(s, r);
            && |fx| >= 4
            && fx[0] == StopTimer
            && fx[1] == WriteExitEvent(s.jasp).0
            && fx[2] == Log(false, ServiceStopped)
            && !s'.timerArmed
  {
  }

  lemma TerminalTickTail(s: Service, r: Reactions)
    requires !Healthy(s.jasp) && Gone(s.jasp)
    ensures var fx := OnTimedEvent(s, r).0;
            && |fx| >= 4
            && (forall i :: 3 <= i < |fx| - 1 ==> fx[i] == CloseJasp || fx[i] == KillJasp)
            && IsExitEvent(fx[|fx| - 1])
  {
    var (exitEvent, jasp') := WriteExitEvent(s.jasp);
    var stopping := OnStop(Service(jasp', false), r).0;
    assert OnTimedEvent(s, r).0 == [StopTimer, exitEvent] + stopping;
  }

  /** A launch that never produced a handle is reported twice by the terminal
      tick: once by the tick itself and once by the stop routine. */
  lemma TerminalTickWithoutHandle(s: Service, r: Reactions)
    requires s.jasp.None?
    ensures OnTimedEvent(s, r).0
         == [StopTimer, Log(true, NeverStarted), Log(false, ServiceStopped), Log(true, NeverStarted)]
  {
  }

  /** For an exited process the tick's own exit event carries the rest of
      standard error; the stop routine's exit event, written after it, finds the
      stream drained and repeats only the code. */
  lemma TerminalTickAfterExit(s: Service, r: Reactions)
    requires s.jasp.Some? && s.jasp.value.exited && !Healthy(s.jasp)
    ensures var p := s.jasp.value;
            var fx := OnTimedEvent(s, r).0;
            && fx[1] == Log(p.exitCode != 0, ExitMessage(p.exitCode, ReadToEnd(p).0))
            && fx[|fx| - 1] == Log(p.exitCode != 0, ExitMessage(p.exitCode, ""))
            && KillJasp !in fx
  {
  }

  /** The fallback path: a live process that does not respond or has output on
      standard error gets exactly one informational entry holding that output,
      without a label, and its stream is drained. The timer keeps running. */
  lemma FallbackTick(s: Service, r: Reactions)
    requires !Healthy(s.jasp) && !Gone(s.jasp)
    ensures var (fx, s') := OnTimedEvent(s, r);
            && fx == [Log(false, ReadToEnd(s.jasp.value).0)]
            && s'.timerArmed == s.timerArmed
            && s'.jasp.Some? && s'.jasp.value.stderrAtEnd && s'.jasp.value.stderr == ""
  {
  }

  /** The tick's order settles the overlap of "exited" and "has output": such a
      process is reported once, by the exit event, which carries the output. */
  lemma ExitedWithOutputReportedOnce(s: Service, r: Reactions)
    requires s.jasp.Some? && s.jasp.value.exited && !s.jasp.value.stderrAtEnd
    ensures var fx := OnTimedEvent(s, r).0;
            && ParseExitMessage(fx[1].msg) == Some((s.jasp.value.exitCode, s.jasp.value.stderr))
            && (forall i :: 2 < i < |fx| - 1 ==> !fx[i].Log?)
  {
  }

  // ---------------------------------------------------------------------------
  // Physical entries.

  /** The event-log entries a sequence of effects writes. */
  function Entries(fx: seq<Effect>): (entries: seq<Entry>)
    decreases |fx|
  {
    if |fx| == 0 then []
    else (if fx[0].Log? then Written(fx[0].error, fx[0].msg) else []) + Entries(fx[1..])
  }

  /** Silence is the healthy signal: a healthy tick writes no entry. */
  lemma HealthyTickIsSilent(s: Service, r: Reactions)
    requires Healthy(s.jasp)
    ensures Entries(OnTimedEvent(s, r).0) == []
  {
  }

  /** A process that stops responding but has nothing on standard error is also
      silent: the fallback logs an empty text, and an empty text has no entries. */
  lemma UnresponsiveQuietTickIsSilent(s: Service, r: Reactions)
    requires s.jasp.Some? && !s.jasp.value.responding && !s.jasp.value.exited && s.jasp.value.stderrAtEnd
    ensures Entries(OnTimedEvent(s, r).0) == []
  {
  }

  /** Output that fits one entry is written as one informational entry, verbatim. */
  lemma FallbackTickEntry(s: Service, r: Reactions)
    requires !Healthy(s.jasp) && !Gone(s.jasp)
    requires !s.jasp.value.stderrAtEnd && 0 < |s.jasp.value.stderr| <= MaxEntryLength
    ensures Entries(OnTimedEvent(s, r).0) == [Entry(Information, s.jasp.value.stderr)]
  {
  }

  // ---------------------------------------------------------------------------
  // Starting.

  /** The log call of line 28, `WriteEventLog(StartJasp(out msg), msg)`: the
      launch's success flag is passed as the `error` argument. */
  function LaunchLog(itWorked: bool, msg: string): (e: Effect)
    ensures e.Log? && e.msg == msg
    ensures e.error <==> itWorked
    ensures e != IntendedLaunchLog(itWorked, msg)
  {
    Log(itWorked, msg)
  }

  /** `OnStart`: announce the start, launch JASP (the operating system answering
      the start information with `os`), log the outcome and start the timer. An
      exception `StartJasp` does not catch is logged as an error and leaves the
      timer unset. */
  function OnStart(s: Service, cfg: Config, os: StartInfo -> StartAttempt): (out: (seq<Effect>, Service))
    ensures |out.0| >= 2 && out.0[0] == Log(false, ServiceStarted)
    ensures !os(BuildStartInfo(cfg)).ThrewOther? ==> out.1.timerArmed
    ensures out.1.jasp != s.jasp ==> os(BuildStartInfo(cfg)).Returned?
    ensures os(BuildStartInfo(cfg)).ThrewOther? ==> out.0 == [Log(false, ServiceStarted), Log(true, os(BuildStartInfo(cfg)).detail)] && out.1 == s
    ensures !os(BuildStartInfo(cfg)).ThrewOther? ==>
              && |out.0| == 3 && out.0[2] == ArmTimer
              && out.0[1].Log? && out.0[1].msg == StartJasp(s.jasp, os(BuildStartInfo(cfg))).msg
    ensures os(BuildStartInfo(cfg)).Returned? ==>
              out.0[1] == Log(os(BuildStartInfo(cfg)).started, RunningMessage) && out.1.jasp == Some(os(BuildStartInfo(cfg)).proc)
    ensures os(BuildStartInfo(cfg)).ThrewInvalidOperation? || os(BuildStartInfo(cfg)).ThrewWin32? ==>
              out.1 == s.(timerArmed := true)
  {
    var started := Log(false, ServiceStarted);
    match StartJasp(s.jasp, os(BuildStartInfo(cfg)))
    case Escaped(message) => ([started, Log(true, message)], s)
    case Launched(itWorked, msg, jasp) => ([started, LaunchLog(itWorked, msg), ArmTimer], Service(jasp, true))
  }

  /** A launch that fails with one of the caught exceptions still arms the timer,
      and the very first tick after it stops the service, reporting that JASP
      never started. */
  lemma FailedLaunchStopsOnFirstTick(cfg: Config, os: StartInfo -> StartAttempt, r: Reactions)
    requires os(BuildStartInfo(cfg)).ThrewInvalidOperation? || os(BuildStartInfo(cfg)).ThrewWin32?
    ensures var (fx, s) := OnStart(Fresh, cfg, os);
            && fx[1].Log? && !fx[1].error
            && s == Service(None, true)
            && OnTimedEvent(s, r).0[0] == StopTimer
            && OnTimedEvent(s, r).0[1] == Log(true, NeverStarted)
            && !OnTimedEvent(s, r).1.timerArmed
  {
  }

  /** The launch outcome is logged with its severity inverted: a successful
      launch is written as an error, a failed one as information. */
  lemma LaunchSeverityInverted(s: Service, cfg: Config, os: StartInfo -> StartAttempt)
    requires !os(BuildStartInfo(cfg)).ThrewOther?
    ensures var fx := OnStart(s, cfg, os).0;
            fx[1].error <==> StartJasp(s.jasp, os(BuildStartInfo(cfg))).itWorked
  {
  }

  /** A concrete instance: `Start()` returns true, and "Jasp is running." is
      written as an error entry. */
  lemma RunningLoggedAsError(cfg: Config, p: Proc)
    ensures OnStart(Fresh, cfg, info => Returned(true, p)).0[1] == Log(true, RunningMessage)
    ensures Entries([OnStart(Fresh, cfg, info => Returned(true, p)).0[1]]) == [Entry(Error, RunningMessage)]
  {
  }

  /** The evidently intended log call: error severity exactly when the launch failed. */
  function IntendedLaunchLog(itWorked: bool, msg: string): (e: Effect)
    ensures e.Log? && e.msg == msg
    ensures e.error <==> !itWorked
  {
    Log(!itWorked, msg)
  }

  /** The evidently intended fallback text: the label, then standard error. */
  function IntendedFallbackText(stderr: string): (t: string)
    ensures |t| > |stderr|
    ensures t[|t| - |stderr|..] == stderr
    ensures t[..|t| - |stderr|] == "JASP had stderr output: "
  {
    "JASP had stderr output: " + stderr
  }

  /** A concrete instance of the precedence slip: output "boom" is logged as
      "boom", where "JASP had stderr output: boom" was meant. */
  lemma FallbackDropsLabel()
    ensures FallbackText("boom") == "boom"
    ensures IntendedFallbackText("boom") == "JASP had stderr output: boom"
    ensures FallbackText("boom") != IntendedFallbackText("boom")
  {
  }

  /** `OnStart` with the log call corrected: the outcome is an error entry
      exactly when the launch failed. */
  function IntendedOnStart(s: Service, cfg: Config, os: StartInfo -> StartAttempt): (out: (seq<Effect>, Service))
    ensures |out.0| >= 2 && out.0[0] == Log(false, ServiceStarted)
    ensures os(BuildStartInfo(cfg)).Returned? ==>
              out.0[1] == Log(!os(BuildStartInfo(cfg)).started, RunningMessage) && out.1.timerArmed
    ensures os(BuildStartInfo(cfg)).ThrewInvalidOperation? || os(BuildStartInfo(cfg)).ThrewWin32? ==>
              out.0[1].Log? && out.0[1].error && out.1 == s.(timerArmed := true)
  {
    var started := Log(false, ServiceStarted);
    match StartJasp(s.jasp, os(BuildStartInfo(cfg)))
    case Escaped(message) => ([started, Log(true, message)], s)
    case Launched(itWorked, msg, jasp) => ([started, IntendedLaunchLog(itWorked, msg), ArmTimer], Service(jasp, true))
  }

  /** `OnTimedEvent` with the fallback text corrected; the other two paths are unchanged. */
  function IntendedOnTimedEvent(s: Service, r: Reactions): (out: (seq<Effect>, Service))
    ensures !Healthy(s.jasp) && !Gone(s.jasp) ==>
              out.0 == [Log(false, "JASP had stderr output: " + ReadToEnd(s.jasp.value).0)]
    ensures Healthy(s.jasp) || Gone(s.jasp) ==> out == OnTimedEvent(s, r)
  {
    if Healthy(s.jasp) || Gone(s.jasp) then OnTimedEvent(s, r)
    else
      var (text, drained) := ReadToEnd(s.jasp.value);
      ([Log(false, IntendedFallbackText(text))], s.(jasp := Some(drained)))
  }

  // ---------------------------------------------------------------------------
  // Worked examples.

  /** Exit code 2 with "boom" on standard error: an error entry with both. */
  lemma ExitEventExample(p: Proc)
    requires p.exited && p.exitCode == 2 && !p.stderrAtEnd && p.stderr == "boom"
    ensures WriteExitEvent(Some(p)).0 == Log(true, "JASP exited with exitcode 2 and stderror: boom")
  {
    assert DigitChar(2) == '2';
    assert IntToString(2) == "2";
    assert ExitedWith + "2" + AndStderr + "boom" == "JASP exited with exitcode 2 and stderror: boom";
  }

  /** A clean exit is reported at informational severity. */
  lemma CleanExitIsInformational(p: Proc)
    requires p.exitCode == 0
    ensures !WriteExitEvent(Some(p)).0.error
  {
  }
}
