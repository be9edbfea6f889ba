/** parseCommandOptions.ts: route the parsed flags to install, update, or install-then-run. */
module CommandOptions {
  import opened Wrappers
  import opened GhOperations
  import opened Host
  import opened LocalBinPath
  import opened Install
  import opened Update
  import opened Run

  /** The two flags commander parsed; an absent flag is false. */
  datatype Options = Options(install: bool, update: bool)

  /** The no-flag branch of `parseCommandOptions`: install when the binary is absent,
      then run it. A rejected install rejects the whole call before the run. The run
      locates the binary afresh, in the host the install left. */
  function DefaultSpec(w: World, unknownOptions: seq<string>): Effects {
    var loc := LocalBinPathSpec(w);
    match loc.path
    case Failure(e) => Effects(loc.probes, Thrown(e), w.files)
    case Success(path) =>
      if Exists(w.files, path) then
        var run := RunSpec(w, unknownOptions);
        Effects(loc.probes + run.trace, run.outcome, run.files)
      else
        var inst := InstallSpec(w);
        var installed := loc.probes + inst.trace;
        if inst.outcome.Thrown? then Effects(installed, inst.outcome, inst.files)
        else
          var run := RunSpec(AfterInstall(w, inst.files), unknownOptions);
          Effects(installed + run.trace, run.outcome, run.files)
  }

  /** Reference definition of `parseCommandOptions`. */
  function ParseCommandOptionsSpec(w: World, options: Options, unknownOptions: seq<string>): Effects {
    if options.install then InstallSpec(w)
    else if options.update then UpdateSpec(w)
    else DefaultSpec(w, unknownOptions)
  }

  /** `parseCommandOptions`: two early returns, then the awaited install and run. */
  method ParseCommandOptions(w: World, options: Options, unknownOptions: seq<string>) returns (e: Effects)
    ensures e == ParseCommandOptionsSpec(w, options, unknownOptions)
  {
    if options.install {
      e := InstallCli(w);
      return;
    }
    if options.update {
      e := UpdateCli(w);
      return;
    }
    var path, trace := GetLocalBinPath(w);
    if path.Failure? {
      return Effects(trace, Thrown(path.error), w.files);
    }
    var world := w;
    if !Exists(w.files, path.value) {
      var inst := InstallCli(w);
      trace := trace + inst.trace;
      if inst.outcome.Thrown? {
        return Effects(trace, inst.outcome, inst.files);
      }
      world := AfterInstall(w, inst.files);
    }
    var run := RunCli(world, unknownOptions);
    return Effects(trace + run.trace, run.outcome, run.files);
  }

  /** The install flag wins over the update flag: the call is one install and starts no
      process. */
  lemma InstallFlagFirst(w: World, options: Options, unknownOptions: seq<string>)
    requires options.install
    ensures ParseCommandOptionsSpec(w, options, unknownOptions) == InstallSpec(w)
    ensures Count(ParseCommandOptionsSpec(w, options, unknownOptions).trace, IsSpawn) == 0
  {
    InstallNeverSpawns(w);
  }

  /** The update flag alone: the call is one update, which obtains nothing and starts no
      process. */
  lemma UpdateFlagOnly(w: World, options: Options, unknownOptions: seq<string>)
    requires !options.install && options.update
    ensures ParseCommandOptionsSpec(w, options, unknownOptions) == UpdateSpec(w)
    ensures Count(ParseCommandOptionsSpec(w, options, unknownOptions).trace, IsSpawn) == 0
    ensures Count(ParseCommandOptionsSpec(w, options, unknownOptions).trace, IsAcquisition) == 0
  {
    UpdateNeverAcquires(w);
  }

  /** No flag and the binary present: only the run, with the unknown options unchanged;
      nothing is obtained. */
  lemma DefaultWhenPresent(w: World, options: Options, unknownOptions: seq<string>)
    requires !options.install && !options.update
    requires LocalBinPathSpec(w).path.Success? && Exists(w.files, LocalBinPathSpec(w).path.value)
    ensures var e := ParseCommandOptionsSpec(w, options, unknownOptions);
      e == Prepend(LocalBinPathSpec(w).probes, RunSpec(w, unknownOptions))
    ensures Count(ParseCommandOptionsSpec(w, options, unknownOptions).trace, IsAcquisition) == 0
    ensures Count(ParseCommandOptionsSpec(w, options, unknownOptions).trace, IsSpawn) == 1
    ensures var t := ParseCommandOptionsSpec(w, options, unknownOptions).trace;
      t[|t| - 1] == Spawn(LocalBinPathSpec(w).path.value, unknownOptions, w.platform == "win32")
  {
    var probes := LocalBinPathSpec(w).probes;
    var run := RunSpec(w, unknownOptions);
    RunWhenPresent(w, unknownOptions);
    RunNeverAcquires(w, unknownOptions);
    CountNone(probes, IsAcquisition);
    CountNone(probes, IsSpawn);
    CountConcat(probes, run.trace, IsAcquisition);
    CountConcat(probes, run.trace, IsSpawn);
  }

  /** No flag and the binary absent: the install's actions come first. A rejected install
      ends the call; otherwise the run's actions follow, in the host the install left. */
  lemma DefaultWhenAbsent(w: World, options: Options, unknownOptions: seq<string>)
    requires !options.install && !options.update
    requires LocalBinPathSpec(w).path.Success? && !Exists(w.files, LocalBinPathSpec(w).path.value)
    ensures var inst := InstallSpec(w);
      var installed := LocalBinPathSpec(w).probes + inst.trace;
      ParseCommandOptionsSpec(w, options, unknownOptions) ==
        if inst.outcome.Thrown? then Effects(installed, inst.outcome, inst.files)
        else Prepend(installed, RunSpec(AfterInstall(w, inst.files), unknownOptions))
  {
    DefaultAbsent(w, unknownOptions);
  }

  lemma DefaultAbsent(w: World, unknownOptions: seq<string>)
    requires LocalBinPathSpec(w).path.Success? && !Exists(w.files, LocalBinPathSpec(w).path.value)
    ensures var inst := InstallSpec(w);
      var installed := LocalBinPathSpec(w).probes + inst.trace;
      DefaultSpec(w, unknownOptions) ==
        if inst.outcome.Thrown? then Effects(installed, inst.outcome, inst.files)
        else Prepend(installed, RunSpec(AfterInstall(w, inst.files), unknownOptions))
  {
  }

  /** No flag, the binary absent and a latest version found: the binary is obtained exactly
      once. When that succeeds and the install's target is not empty, the target is then
      started exactly once, as the last action, with the unknown options; otherwise nothing
      is started. */
  lemma InstallThenRun(w: World, options: Options, unknownOptions: seq<string>)
    requires !options.install && !options.update
    requires LocalBinPathSpec(w).path.Success? && !Exists(w.files, LocalBinPathSpec(w).path.value)
    requires LatestVersion(FirstPage(w.releases)).Success?
    ensures var t := ParseCommandOptionsSpec(w, options, unknownOptions).trace;
      var target := InstallTarget(w, LocalBinPathSpec(w).path.value);
      Count(t, IsAcquisition) == 1 && (Count(t, IsSpawn) == 1 <==> w.acquisition == Done && target != "")
    ensures var t := ParseCommandOptionsSpec(w, options, unknownOptions).trace;
      var target := InstallTarget(w, LocalBinPathSpec(w).path.value);
      w.acquisition == Done && target != "" ==> t[|t| - 1] == Spawn(target, unknownOptions, w.platform == "win32")
  {
    assert ParseCommandOptionsSpec(w, options, unknownOptions) == DefaultSpec(w, unknownOptions);
    DefaultInstallThenRun(w, unknownOptions);
  }

  /** The no-flag branch with the binary absent and a version found. The run after a
      successful install locates the binary again: when the target is empty (MacOS whose
      prefix query still throws after `brew install`) it prints the "not installed" notice
      and starts nothing. */
  lemma DefaultInstallThenRun(w: World, unknownOptions: seq<string>)
    requires LocalBinPathSpec(w).path.Success? && !Exists(w.files, LocalBinPathSpec(w).path.value)
    requires LatestVersion(FirstPage(w.releases)).Success?
    ensures var t := DefaultSpec(w, unknownOptions).trace;
      var target := InstallTarget(w, LocalBinPathSpec(w).path.value);
      Count(t, IsAcquisition) == 1 && (Count(t, IsSpawn) == 1 <==> w.acquisition == Done && target != "")
    ensures var t := DefaultSpec(w, unknownOptions).trace;
      var target := InstallTarget(w, LocalBinPathSpec(w).path.value);
      w.acquisition == Done && target != "" ==> t[|t| - 1] == Spawn(target, unknownOptions, w.platform == "win32")
    ensures var e := DefaultSpec(w, unknownOptions);
      w.acquisition == Done && InstallTarget(w, LocalBinPathSpec(w).path.value) == "" ==>
        e.outcome == Done && e.trace[|e.trace| - 1] == Log(NOT_INSTALLED) && Count(e.trace, IsSpawn) == 0
  {
    var loc := LocalBinPathSpec(w);
    var inst := InstallSpec(w);
    var installed := loc.probes + inst.trace;
    DefaultAbsent(w, unknownOptions);
    InstallAcquiresOnce(w);
    InstallNeverSpawns(w);
    CountNone(loc.probes, IsAcquisition);
    CountNone(loc.probes, IsSpawn);
    CountConcat(loc.probes, inst.trace, IsAcquisition);
    CountConcat(loc.probes, inst.trace, IsSpawn);
    if w.acquisition == Done {
      var v := AfterInstall(w, inst.files);
      LocatedAfterInstall(w, inst.files);
      if InstallTarget(w, loc.path.value) != "" {
        RunAfter(v, unknownOptions, installed);
      } else {
        RunAfterAbsent(v, unknownOptions, installed);
      }
    }
  }

  /** No flag on a Mac with brew whose first prefix query throws: the path is the empty
      fallback, which never exists, so `brew install aptos` runs. The run then asks brew
      for the prefix again: if that still throws it prints the "not installed" notice last
      and starts nothing; if it answers, the binary under that prefix is started last. */
  lemma BrewFallbackRequeries(w: World, options: Options, unknownOptions: seq<string>)
    requires !options.install && !options.update
    requires w.platform == "darwin" && w.brewOnPath && w.brewPrefix.Failure?
    requires LatestVersion(FirstPage(w.releases)).Success? && w.acquisition == Done
    ensures var e := ParseCommandOptionsSpec(w, options, unknownOptions);
      e.outcome == Done && BrewInstall in e.trace && Count(e.trace, IsAcquisition) == 1
    ensures var t := ParseCommandOptionsSpec(w, options, unknownOptions).trace;
      w.brewPrefixAfterInstall.Failure? ==> t[|t| - 1] == Log(NOT_INSTALLED) && Count(t, IsSpawn) == 0
    ensures var t := ParseCommandOptionsSpec(w, options, unknownOptions).trace;
      w.brewPrefixAfterInstall.Success? ==>
        t[|t| - 1] == Spawn(BrewPath(w.brewPrefixAfterInstall), unknownOptions, false)
        && Count(t, IsSpawn) == 1
  {
    EmptyPathOnlyOnBrewFailure(w);
    var version := LatestVersion(FirstPage(w.releases)).value;
    InstallMacOs(w, version);
    assert ParseCommandOptionsSpec(w, options, unknownOptions) == DefaultSpec(w, unknownOptions);
    DefaultInstallThenRun(w, unknownOptions);
    DefaultAbsent(w, unknownOptions);
    var inst := InstallSpec(w);
    var t := DefaultSpec(w, unknownOptions).trace;
    assert t == LocalBinPathSpec(w).probes + inst.trace + RunSpec(AfterInstall(w, inst.files), unknownOptions).trace;
    assert inst.trace[4] == BrewInstall;
    assert t[|LocalBinPathSpec(w).probes| + 4] == BrewInstall;
  }

  /** A run of a present binary after `before`: one more spawn, no more acquisitions, and
      the spawn last. */
  lemma RunAfter(v: World, unknownOptions: seq<string>, before: seq<Action>)
    requires LocalBinPathSpec(v).path.Success? && Exists(v.files, LocalBinPathSpec(v).path.value)
    ensures var t := before + RunSpec(v, unknownOptions).trace;
      Count(t, IsAcquisition) == Count(before, IsAcquisition) && Count(t, IsSpawn) == Count(before, IsSpawn) + 1
      && t[|t| - 1] == Spawn(LocalBinPathSpec(v).path.value, unknownOptions, v.platform == "win32")
  {
    var run := RunSpec(v, unknownOptions).trace;
    RunWhenPresent(v, unknownOptions);
    RunNeverAcquires(v, unknownOptions);
    CountConcat(before, run, IsAcquisition);
    CountConcat(before, run, IsSpawn);
  }

  /** A run of an absent binary after `before`: no more acquisitions or spawns, and the
      "not installed" notice last. */
  lemma RunAfterAbsent(v: World, unknownOptions: seq<string>, before: seq<Action>)
    requires LocalBinPathSpec(v).path.Success? && !Exists(v.files, LocalBinPathSpec(v).path.value)
    ensures var t := before + RunSpec(v, unknownOptions).trace;
      Count(t, IsAcquisition) == Count(before, IsAcquisition) && Count(t, IsSpawn) == Count(before, IsSpawn)
      && t[|t| - 1] == Log(NOT_INSTALLED)
    ensures RunSpec(v, unknownOptions).outcome == Done
  {
    var run := RunSpec(v, unknownOptions).trace;
    RunWhenAbsent(v, unknownOptions);
    RunNeverAcquires(v, unknownOptions);
    CountConcat(before, run, IsAcquisition);
    CountConcat(before, run, IsSpawn);
  }
}
