/** What the service can observe of, and do to, the `JASP.exe` child process.
    The operating system's process object is replaced by a snapshot of the
    properties the service reads, and its two effects (`Close`, `Kill`) by the
    snapshot the process presents afterwards. */
module Process {

  /** The properties of `_jasp` the service reads: `Responding`,
      `StandardError.EndOfStream`, `HasExited`, `ExitCode` (meaningful once
      exited), and the text still buffered on standard error. */
  datatype Proc = Proc(
    responding: bool,
    stderrAtEnd: bool,
    exited: bool,
    exitCode: int,
    stderr: string)

  /** How the process answers the service's effects: whether `Close()` leaves it
      exited and with which code, and the code it reports after `Kill()`. */
  datatype Reactions = Reactions(closeExits: bool, closeExitCode: int, killExitCode: int)

  /** `StandardError.ReadToEnd()`: the text left on the stream (none once the
      stream is at its end), and the process with its stream drained. */
  function ReadToEnd(p: Proc): (r: (string, Proc))
    ensures r.1.stderrAtEnd && r.1.stderr == ""
    ensures !p.stderrAtEnd ==> r.0 == p.stderr
    ensures p.stderrAtEnd ==> r.0 == ""
    ensures r.1.responding == p.responding && r.1.exited == p.exited && r.1.exitCode == p.exitCode
  {
    (if p.stderrAtEnd then "" else p.stderr, p.(stderrAtEnd := true, stderr := ""))
  }

  /** Draining is final: a second `ReadToEnd()` finds nothing and changes nothing. */
  lemma ReadToEndDrains(p: Proc)
    ensures ReadToEnd(ReadToEnd(p).1) == ("", ReadToEnd(p).1)
  {
  }

  /** The process as seen after `Close()`; one that had already exited is unchanged. */
  function AfterClose(p: Proc, r: Reactions): (q: Proc)
    ensures q.exited <==> p.exited || r.closeExits
    ensures p.exited ==> q == p
  {
    if r.closeExits && !p.exited then p.(responding := false, exited := true, exitCode := r.closeExitCode) else p
  }

  /** The process as seen after `Kill()`: always exited. */
  function AfterKill(p: Proc, r: Reactions): (q: Proc)
    ensures q.exited && !q.responding
    ensures q.exitCode == r.killExitCode && q.stderr == p.stderr && q.stderrAtEnd == p.stderrAtEnd
  {
    p.(responding := false, exited := true, exitCode := r.killExitCode)
  }
}
