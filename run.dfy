/** run.ts: start the real CLI with the forwarded arguments. */
module Run {
  import opened Wrappers
  import opened UserOs
  import opened Host
  import opened LocalBinPath

  /** Reference definition of `runCLI`. The spawned process is not awaited: the task ends
      as soon as it is started. */
  function RunSpec(w: World, args: seq<string> := []): Effects {
    var loc := LocalBinPathSpec(w);
    match loc.path
    case Failure(e) => Effects(loc.probes, Thrown(e), w.files)
    case Success(path) =>
      if !Exists(w.files, path) then Effects(loc.probes + [Log(NOT_INSTALLED)], Done, w.files)
      else
        match GetOs(w.platform)
        case Failure(e) => Effects(loc.probes, Thrown(e), w.files)
        case Success(os) => Effects(loc.probes + [Spawn(path, args, os == Windows)], Done, w.files)
  }

  /** `runCLI`: the existence check with its early return, then the one spawn. */
  method RunCli(w: World, args: seq<string> := []) returns (e: Effects)
    ensures e == RunSpec(w, args)
  {
    var path, trace := GetLocalBinPath(w);
    if path.Failure? {
      return Effects(trace, Thrown(path.error), w.files);
    }
    if !Exists(w.files, path.value) {
      trace := trace + [Log(NOT_INSTALLED)];
      return Effects(trace, Done, w.files);
    }
    var os := GetOs(w.platform);
    if os.Failure? {
      return Effects(trace, Thrown(os.error), w.files);
    }
    trace := trace + [Spawn(path.value, args, os.value == Windows)];
    return Effects(trace, Done, w.files);
  }

  /** The binary is absent: the "not installed" notice, no process, and no error. */
  lemma RunWhenAbsent(w: World, args: seq<string>)
    requires LocalBinPathSpec(w).path.Success? && !Exists(w.files, LocalBinPathSpec(w).path.value)
    ensures RunSpec(w, args) == Effects(LocalBinPathSpec(w).probes + [Log(NOT_INSTALLED)], Done, w.files)
    ensures Count(RunSpec(w, args).trace, IsSpawn) == 0
  {
    CountNone(LocalBinPathSpec(w).probes + [Log(NOT_INSTALLED)], IsSpawn);
  }

  /** The binary is present: exactly one spawn, the last action, of the computed path with
      the arguments unchanged, through a shell exactly on Windows. */
  lemma RunWhenPresent(w: World, args: seq<string>)
    requires LocalBinPathSpec(w).path.Success? && Exists(w.files, LocalBinPathSpec(w).path.value)
    ensures var t := RunSpec(w, args).trace;
      |t| > 0 && t[|t| - 1] == Spawn(LocalBinPathSpec(w).path.value, args, w.platform == "win32")
    ensures Count(RunSpec(w, args).trace, IsSpawn) == 1
    ensures RunSpec(w, args).outcome == Done && RunSpec(w, args).files == w.files
  {
    var probes := LocalBinPathSpec(w).probes;
    var spawn := Spawn(LocalBinPathSpec(w).path.value, args, w.platform == "win32");
    assert RunSpec(w, args).trace == probes + [spawn];
    CountNone(probes, IsSpawn);
    CountConcat(probes, [spawn], IsSpawn);
  }

  /** Without arguments the binary is started with the empty argument list. */
  lemma RunWithoutArgs(w: World)
    requires LocalBinPathSpec(w).path.Success? && Exists(w.files, LocalBinPathSpec(w).path.value)
    ensures var t := RunSpec(w).trace;
      |t| > 0 && t[|t| - 1].Spawn? && t[|t| - 1].args == []
  {
    RunWhenPresent(w, []);
  }

  /** A run never looks up a version, never obtains the binary and never changes the files. */
  lemma RunNeverAcquires(w: World, args: seq<string>)
    ensures Count(RunSpec(w, args).trace, IsAcquisition) == 0
    ensures Count(RunSpec(w, args).trace, IsLookup) == 0
    ensures RunSpec(w, args).files == w.files
  {
    CountNone(RunSpec(w, args).trace, IsAcquisition);
    CountNone(RunSpec(w, args).trace, IsLookup);
  }
}
