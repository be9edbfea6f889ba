/** aptos.ts: the entry point. What commander parses from the command line is an input:
    the two flags and the arguments it did not recognise. */
module Aptos {
  import opened Host
  import opened LocalBinPath
  import opened Run
  import opened CommandOptions

  /** What `program.opts()` and `program.args` give after parsing. */
  datatype Commander = Commander(install: bool, update: bool, args: seq<string>)

  const HELP := "--help"

  /** `main().catch(console.error)`: a rejection of the task is reported on the error
      stream and goes no further. */
  function Caught(e: Effects): (r: Effects)
    ensures r.outcome == Done && r.files == e.files
    ensures e.outcome.Thrown? ==> r.trace == e.trace + [ReportError(e.outcome.error)]
    ensures e.outcome.Done? ==> r == e
  {
    if e.outcome.Thrown? then Effects(e.trace + [ReportError(e.outcome.error)], Done, e.files) else e
  }

  /** Reference definition of `main`, with its rejection handler. */
  function MainSpec(w: World, argv: seq<string>, parsed: Commander): Effects {
    if HELP in argv then Caught(RunSpec(w, parsed.args))
    else Caught(ParseCommandOptionsSpec(w, Options(parsed.install, parsed.update), parsed.args))
  }

  /** `main`: the options object, the `--help` early return, then the awaited dispatch. */
  method Launch(w: World, argv: seq<string>, parsed: Commander) returns (e: Effects)
    ensures e == MainSpec(w, argv, parsed)
  {
    var options := Options(parsed.install, parsed.update);
    var unknownOptions := parsed.args;
    if HELP in argv {
      e := RunCli(w, unknownOptions);
    } else {
      e := ParseCommandOptions(w, options, unknownOptions);
    }
    if e.outcome.Thrown? {
      e := Effects(e.trace + [ReportError(e.outcome.error)], Done, e.files);
    }
  }

  /** `--help` anywhere in the raw arguments forwards them to the real CLI, whatever the
      flags say: nothing is looked up, installed or updated. */
  lemma HelpShortCircuits(w: World, argv: seq<string>, parsed: Commander)
    requires HELP in argv
    ensures MainSpec(w, argv, parsed) == Caught(RunSpec(w, parsed.args))
    ensures Count(MainSpec(w, argv, parsed).trace, IsAcquisition) == 0
    ensures Count(MainSpec(w, argv, parsed).trace, IsLookup) == 0
    ensures MainSpec(w, argv, parsed).files == w.files
  {
    var run := RunSpec(w, parsed.args);
    RunNeverAcquires(w, parsed.args);
    if run.outcome.Thrown? {
      var report := [ReportError(run.outcome.error)];
      CountNone(report, IsAcquisition);
      CountNone(report, IsLookup);
      CountConcat(run.trace, report, IsAcquisition);
      CountConcat(run.trace, report, IsLookup);
    }
  }

  /** Without the exact element `--help`, the parsed flags and the unrecognised arguments
      go to the dispatcher unchanged; a look-alike such as `--help=all` or `-h` is not help. */
  lemma NoHelpDispatches(w: World, argv: seq<string>, parsed: Commander)
    requires HELP !in argv
    ensures MainSpec(w, argv, parsed) ==
      Caught(ParseCommandOptionsSpec(w, Options(parsed.install, parsed.update), parsed.args))
  {
  }

  lemma HelpLookAlikes(w: World, parsed: Commander)
    ensures MainSpec(w, ["node", "aptos", "--help=all", "-h"], parsed) ==
      Caught(ParseCommandOptionsSpec(w, Options(parsed.install, parsed.update), parsed.args))
  {
    var argv := ["node", "aptos", "--help=all", "-h"];
    assert argv[2] != HELP by { assert |argv[2]| != |HELP|; }
    assert argv[3] != HELP by { assert |argv[3]| != |HELP|; }
    assert HELP !in argv;
  }

  /** With `--help`, the real CLI is started with exactly the unrecognised arguments when
      it is present. */
  lemma HelpForwardsArgs(w: World, argv: seq<string>, parsed: Commander)
    requires HELP in argv
    requires LocalBinPathSpec(w).path.Success? && Exists(w.files, LocalBinPathSpec(w).path.value)
    ensures var t := MainSpec(w, argv, parsed).trace;
      |t| > 0 && t[|t| - 1] == Spawn(LocalBinPathSpec(w).path.value, parsed.args, w.platform == "win32")
  {
    RunWhenPresent(w, parsed.args);
  }

  /** The entry point never rejects: a failure of the task is the last action, reported
      with its message, and only then. */
  lemma MainReportsFailures(w: World, argv: seq<string>, parsed: Commander)
    ensures MainSpec(w, argv, parsed).outcome == Done
    ensures var inner := if HELP in argv then RunSpec(w, parsed.args)
        else ParseCommandOptionsSpec(w, Options(parsed.install, parsed.update), parsed.args);
      var t := MainSpec(w, argv, parsed).trace;
      (inner.outcome.Thrown? <==> |t| > |inner.trace|)
      && t[..|inner.trace|] == inner.trace
      && (inner.outcome.Thrown? ==> t[|t| - 1] == ReportError(inner.outcome.error))
  {
  }
}
