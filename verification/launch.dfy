/** `StartJasp`: building the start information for `JASP.exe` from the
    application settings, and turning the outcome of the operating system's
    `Process.Start()` into the service's launch result. */
module Launch {
  import opened Optional
  import opened Process

  /** The application settings (`ConfigurationManager.AppSettings`): a partial map
      from key to value. */
  type Config = map<string, string>

  /** `app.Get(key)`: the value, or null (`None`) when the key is missing. */
  function AppSetting(cfg: Config, key: string): (v: Option<string>)
    ensures v.Some? <==> key in cfg
    ensures v.Some? ==> v.value == cfg[key]
  {
    if key in cfg then Some(cfg[key]) else None
  }

  /** How C# string concatenation renders a possibly-null string: null adds nothing. */
  function AsText(v: Option<string>): (t: string)
    ensures v.None? ==> t == ""
    ensures v.Some? ==> t == v.value
  {
    v.GetOr("")
  }

  /** The fields of `cmd.StartInfo` the service sets. */
  datatype StartInfo = StartInfo(
    workingDirectory: Option<string>,
    fileName: string,
    redirectStandardInput: bool,
    redirectStandardOutput: bool,
    createNoWindow: bool,
    useShellExecute: bool,
    arguments: string)

  const ReportFlag: string := "--report"

  /** The start information for `JASP.exe`, with the command line joined from the
      report flag, the output folder and the report file, unquoted. */
  function BuildStartInfo(cfg: Config): (info: StartInfo)
    ensures info.fileName == "JASP.exe"
    ensures info.workingDirectory == AppSetting(cfg, "JaspDesktopLocation")
    ensures !info.redirectStandardInput && info.redirectStandardOutput
    ensures info.createNoWindow && !info.useShellExecute
    ensures |info.arguments| == |ReportFlag| + 2 + |AsText(AppSetting(cfg, "ReportOutputFolder"))| + |AsText(AppSetting(cfg, "ReportJaspFile"))|
    ensures info.arguments[..|ReportFlag| + 1] == ReportFlag + " "
  {
    var args := ReportFlag + " " + AsText(AppSetting(cfg, "ReportOutputFolder")) + " " + AsText(AppSetting(cfg, "ReportJaspFile"));
    assert args[..|ReportFlag| + 1] == ReportFlag + " ";
    StartInfo(
      workingDirectory := AppSetting(cfg, "JaspDesktopLocation"),
      fileName := "JASP.exe",
      redirectStandardInput := false,
      redirectStandardOutput := true,
      createNoWindow := true,
      useShellExecute := false,
      arguments := args)
  }

  // ---------------------------------------------------------------------------
  // How the child reads its command line back: unquoted words separated by spaces.

  predicate HasSpace(s: string) {
    exists i :: 0 <= i < |s| && s[i] == ' '
  }

  /** The space-separated words of `s`, `word` being the word read so far. */
  function WordsFrom(s: string, word: string): seq<string>
    decreases |s|
  {
    if |s| == 0 then (if |word| == 0 then [] else [word])
    else if s[0] == ' ' then
      (if |word| == 0 then [] else [word]) + WordsFrom(s[1..], "")
    else WordsFrom(s[1..], word + [s[0]])
  }

  function Words(s: string): seq<string> {
    WordsFrom(s, "")
  }

  /** Characters other than spaces extend the current word. */
  lemma {:induction false} WordsFromWord(w: string, rest: string, word: string)
    requires !HasSpace(w)
    ensures WordsFrom(w + rest, word) == WordsFrom(rest, word + w)
    decreases |w|
  {
    if |w| == 0 {
      assert w + rest == rest;
      assert word + w == word;
    } else {
      assert w[0] != ' ';
      assert (w + rest)[1..] == w[1..] + rest;
      assert !HasSpace(w[1..]) by {
        forall i | 0 <= i < |w[1..]| ensures w[1..][i] != ' ' {
          assert w[1..][i] == w[i + 1];
        }
      }
      WordsFromWord(w[1..], rest, word + [w[0]]);
      assert word + [w[0]] + w[1..] == word + w;
    }
  }

  /** A non-empty, space-free word followed by a space (or by nothing) is read
      as one argument. */
  lemma WordThenRest(w: string, rest: string)
    requires |w| > 0 && !HasSpace(w)
    ensures WordsFrom(w + " " + rest, "") == [w] + WordsFrom(rest, "")
  {
    assert w + " " + rest == w + (" " + rest);
    WordsFromWord(w, " " + rest, "");
    assert "" + w == w;
    assert (" " + rest)[1..] == rest;
  }

  lemma LastWord(w: string)
    requires |w| > 0 && !HasSpace(w)
    ensures WordsFrom(w, "") == [w]
  {
    WordsFromWord(w, "", "");
    assert w + "" == w;
    assert "" + w == w;
  }

  /** When the output folder and the report file are set, non-empty and free of
      spaces, JASP reads exactly three arguments: the flag, the folder, the file. */
  lemma ArgumentsRoundTrip(cfg: Config)
    requires "ReportOutputFolder" in cfg && "ReportJaspFile" in cfg
    requires |cfg["ReportOutputFolder"]| > 0 && !HasSpace(cfg["ReportOutputFolder"])
    requires |cfg["ReportJaspFile"]| > 0 && !HasSpace(cfg["ReportJaspFile"])
    ensures Words(BuildStartInfo(cfg).arguments) == [ReportFlag, cfg["ReportOutputFolder"], cfg["ReportJaspFile"]]
  {
    var folder := cfg["ReportOutputFolder"];
    var file := cfg["ReportJaspFile"];
    assert !HasSpace(ReportFlag);
    assert BuildStartInfo(cfg).arguments == ReportFlag + " " + (folder + " " + file);
    WordThenRest(ReportFlag, folder + " " + file);
    WordThenRest(folder, file);
    LastWord(file);
  }

  /** A space ends the word before it and starts a fresh one: the words of
      `a + " " + rest` are those of `a` followed by those of `rest`. */
  lemma {:induction false} WordsFromSpace(a: string, rest: string, word: string)
    ensures WordsFrom(a + " " + rest, word) == WordsFrom(a, word) + WordsFrom(rest, "")
    decreases |a|
  {
    if |a| == 0 {
      assert a + " " + rest == " " + rest;
      assert (" " + rest)[1..] == rest;
    } else if a[0] == ' ' {
      assert (a + " " + rest)[1..] == a[1..] + " " + rest;
      WordsFromSpace(a[1..], rest, "");
    } else {
      assert (a + " " + rest)[1..] == a[1..] + " " + rest;
      WordsFromSpace(a[1..], rest, word + [a[0]]);
    }
  }

  /** For every configuration, JASP reads the report flag, then the words of the
      output folder, then the words of the report file; a missing value adds no word. */
  lemma ArgumentsWords(cfg: Config)
    ensures Words(BuildStartInfo(cfg).arguments)
         == [ReportFlag] + Words(AsText(AppSetting(cfg, "ReportOutputFolder"))) + Words(AsText(AppSetting(cfg, "ReportJaspFile")))
  {
    var folder := AsText(AppSetting(cfg, "ReportOutputFolder"));
    var file := AsText(AppSetting(cfg, "ReportJaspFile"));
    assert BuildStartInfo(cfg).arguments == ReportFlag + " " + (folder + " " + file);
    JoinedWords(folder, file);
  }

  /** The words of the joined command line, whatever the two values hold. */
  lemma JoinedWords(folder: string, file: string)
    ensures Words(ReportFlag + " " + (folder + " " + file)) == [ReportFlag] + Words(folder) + Words(file)
  {
    WordsFromSpace(ReportFlag, folder + " " + file, "");
    assert !HasSpace(ReportFlag);
    LastWord(ReportFlag);
    WordsFromSpace(folder, file, "");
  }

  /** The concatenation does not quote: an output folder with a space in it,
      such as "My Reports", reaches JASP as two arguments. */
  lemma SpacedFolderSplits(cfg: Config, a: string, b: string)
    requires "ReportOutputFolder" in cfg && cfg["ReportOutputFolder"] == a + " " + b
    requires |a| > 0 && !HasSpace(a) && |b| > 0 && !HasSpace(b)
    requires "ReportJaspFile" in cfg
    requires |cfg["ReportJaspFile"]| > 0 && !HasSpace(cfg["ReportJaspFile"])
    ensures Words(BuildStartInfo(cfg).arguments) == [ReportFlag, a, b, cfg["ReportJaspFile"]]
  {
    var file := cfg["ReportJaspFile"];
    var tail := b + " " + file;
    assert !HasSpace(ReportFlag);
    assert BuildStartInfo(cfg).arguments == ReportFlag + " " + (a + " " + tail);
    WordThenRest(ReportFlag, a + " " + tail);
    WordThenRest(a, tail);
    WordThenRest(b, file);
    LastWord(file);
  }

  /** A missing output folder leaves two spaces in a row, so JASP reads the
      report file where it expects the folder. */
  lemma MissingFolderShiftsFile(cfg: Config)
    requires "ReportOutputFolder" !in cfg && "ReportJaspFile" in cfg
    requires |cfg["ReportJaspFile"]| > 0 && !HasSpace(cfg["ReportJaspFile"])
    ensures Words(BuildStartInfo(cfg).arguments) == [ReportFlag, cfg["ReportJaspFile"]]
  {
    var file := cfg["ReportJaspFile"];
    assert !HasSpace(ReportFlag);
    assert BuildStartInfo(cfg).arguments == ReportFlag + " " + (" " + file);
    WordThenRest(ReportFlag, " " + file);
    assert (" " + file)[1..] == file;
    LastWord(file);
  }

  /** The example installation: JASP runs in "/app" with "--report /out r.jasp". */
  lemma ExampleStartInfo()
    ensures var info := BuildStartInfo(map["JaspDesktopLocation" := "/app", "ReportOutputFolder" := "/out", "ReportJaspFile" := "r.jasp"]);
            info.workingDirectory == Some("/app") && Words(info.arguments) == [ReportFlag, "/out", "r.jasp"]
  {
    var cfg := map["JaspDesktopLocation" := "/app", "ReportOutputFolder" := "/out", "ReportJaspFile" := "r.jasp"];
    assert !HasSpace("/out") && !HasSpace("r.jasp");
    ArgumentsRoundTrip(cfg);
  }

  // ---------------------------------------------------------------------------
  // Starting the process.

  /** What `cmd.Start()` did with the start information: returned (true when a
      new process was started) and handed over the process object, or threw. */
  datatype StartAttempt =
    | Returned(started: bool, proc: Proc)
    | ThrewInvalidOperation(detail: string)
    | ThrewWin32(detail: string)
    | ThrewOther(detail: string)

  /** The result of `StartJasp`: its return value, its `out msg`, and `_jasp`
      afterwards; or the message of an exception it does not catch. */
  datatype LaunchOutcome =
    | Launched(itWorked: bool, msg: string, jasp: Option<Proc>)
    | Escaped(message: string)

  const RunningMessage: string := "Jasp is running."

  const InvalidOperationMessage: string :=
    "No file name was specified in the System.Diagnostics.Process component's System.Diagnostics.Process.StartInfo.-or-\n"
    + "The System.Diagnostics.ProcessStartInfo.UseShellExecute member of the System.Diagnostics.Process.StartInfo\n"
    + "property is true while System.Diagnostics.ProcessStartInfo.RedirectStandardInput,\n"
    + "System.Diagnostics.ProcessStartInfo.RedirectStandardOutput, or System.Diagnostics.ProcessStartInfo.RedirectStandardError\n"
    + "is true.\nError was: "

  const Win32Message: string := "There was an error in opening the associated file: "

  /** `StartJasp(out msg)` with `_jasp` equal to `jasp` beforehand. The handle is
      replaced exactly when `Start()` returns; the two caught exception kinds
      report failure with an explanation ending in the exception's message, and
      any other exception escapes to the caller. */
  function StartJasp(jasp: Option<Proc>, attempt: StartAttempt): (r: LaunchOutcome)
    ensures r.Escaped? <==> attempt.ThrewOther?
    ensures r.Launched? && r.jasp != jasp ==> attempt.Returned?
    ensures attempt.Returned? ==> r == Launched(attempt.started, RunningMessage, Some(attempt.proc))
    ensures attempt.ThrewInvalidOperation? || attempt.ThrewWin32? ==>
              r.Launched? && !r.itWorked && r.jasp == jasp
              && |r.msg| >= |attempt.detail| && r.msg[|r.msg| - |attempt.detail|..] == attempt.detail
  {
    match attempt
    case Returned(started, p) => Launched(started, RunningMessage, Some(p))
    case ThrewInvalidOperation(detail) =>
      var msg := InvalidOperationMessage + detail;
      assert msg[|msg| - |detail|..] == detail;
      Launched(false, msg, jasp)
    case ThrewWin32(detail) =>
      var msg := Win32Message + detail;
      assert msg[|msg| - |detail|..] == detail;
      Launched(false, msg, jasp)
    case ThrewOther(detail) => Escaped(detail)
  }
}
