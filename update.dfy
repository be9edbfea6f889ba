/** update.ts, with the latest-version switch of getAptosCliLatestVersion.ts. */
module Update {
  import opened Wrappers
  import opened Strings
  import Versions
  import opened UserOs
  import opened GhOperations
  import opened Host
  import opened LocalBinPath
  import opened Install

  const UP_TO_DATE := "CLI is up to date"

  function NewerNotice(latest: string): string {
    "A newer version of the CLI is available: " + latest + ", installing..."
  }

  /** `currentVersion` of `updateCli`: element 1 of the trimmed `--version` output split
      on one space, `None` for `undefined`. */
  function InstalledVersion(out: string): (r: Option<string>)
    ensures r.Some? <==> ' ' in Trim(out)
    ensures r.Some? ==> ' ' !in r.value
  {
    var tokens := Split(Trim(out), ' ');
    SplitHasSecond(Trim(out), ' ');
    if |tokens| >= 2 then Some(tokens[1]) else None
  }

  /** `aptos 3.2.1` with any surrounding whitespace reads as version `3.2.1`, and so
      does `aptos 3.2.1 (abc)`: any words after the version are ignored. */
  lemma InstalledVersionOf(lead: string, name: string, version: string, rest: string, trail: string)
    requires AllWhitespace(lead) && AllWhitespace(trail)
    requires name != [] && !IsWhitespace(name[0]) && ' ' !in name
    requires version != [] && !IsWhitespace(version[|version| - 1]) && ' ' !in version
    requires Trimmed(rest)
    ensures InstalledVersion(lead + name + " " + version + trail) == Some(version)
    ensures rest != [] ==> InstalledVersion(lead + name + " " + version + " " + rest + trail) == Some(version)
  {
    var line := lead + name + " " + version + trail;
    assert line == lead + (name + [' '] + version + []) + trail;
    PaddedLine(lead, name, version, [], trail);
    if rest != [] {
      var longer := lead + name + " " + version + " " + rest + trail;
      LineWithMore(lead, name, version, rest, trail);
      PaddedLine(lead, name, version, [' '] + rest, trail);
      assert InstalledVersion(longer) == Some(version);
    }
  }

  /** The line with words after the version, regrouped around its core. */
  lemma LineWithMore(lead: string, name: string, version: string, rest: string, trail: string)
    ensures lead + name + " " + version + " " + rest + trail == lead + (name + [' '] + version + ([' '] + rest)) + trail
  {
    var core := name + [' '] + version;
    assert lead + name + " " + version == lead + core;
    assert lead + core + " " + rest == lead + (core + ([' '] + rest));
  }

  /** A `--version` line `name version after`, padded by whitespace, reads as `version`
      when `after` is empty or starts with a space and ends the line trimmed. */
  lemma PaddedLine(lead: string, name: string, version: string, after: string, trail: string)
    requires AllWhitespace(lead) && AllWhitespace(trail)
    requires name != [] && !IsWhitespace(name[0]) && ' ' !in name
    requires version != [] && !IsWhitespace(version[|version| - 1]) && ' ' !in version
    requires after == [] || (after[0] == ' ' && !IsWhitespace(after[|after| - 1]))
    ensures InstalledVersion(lead + (name + [' '] + version + after) + trail) == Some(version)
  {
    var core := name + [' '] + version + after;
    assert core[0] == name[0];
    assert core[|core| - 1] == if after == [] then version[|version| - 1] else after[|after| - 1];
    TrimOfPadded(lead, core, trail);
    Versions.SecondPiece(name, version, after);
  }

  /** `getLatestVersion`: brew's metadata on MacOS, the GitHub listing elsewhere; with
      the request it makes. */
  function LatestVersionFor(w: World, os: Os): (Result<string, string>, Action) {
    if os == MacOS then (w.brewLatest, QueryBrewLatest)
    else (LatestVersion(FirstPage(w.releases)), FetchReleases(RELEASES_URL))
  }

  /** Reference definition of `updateCli`. Its call of `installCli()` is not awaited,
      so what it throws does not reach the caller; its actions follow in order. */
  function UpdateSpec(w: World): Effects {
    UpdateWith(w, InstallSpec(w))
  }

  /** `updateCli`, given what its call of `installCli()` does. */
  function UpdateWith(w: World, reinstall: Effects): Effects {
    var loc := LocalBinPathSpec(w);
    match loc.path
    case Failure(e) => Effects(loc.probes, Thrown(e), w.files)
    case Success(path) =>
      if !Exists(w.files, path) then Effects(loc.probes + [Log(NOT_INSTALLED)], Done, w.files)
      else
        match GetOs(w.platform)
        case Failure(e) => Effects(loc.probes, Thrown(e), w.files)
        case Success(os) =>
          var (latest, request) := LatestVersionFor(w, os);
          CompareVersions(loc.probes + [request], latest, path, w.versionOutput, w.files, reinstall)
  }

  /** `updateCli` from its `getLatestVersion()` on, after the request that `asked` ends
      with: the installed version is read and compared, and the install runs when they
      differ. */
  function CompareVersions(asked: seq<Action>, latest: Result<string, string>, path: string,
                           versionOutput: Result<string, string>, files: set<string>, reinstall: Effects): Effects {
    match latest
    case Failure(e) => Effects(asked, Thrown(e), files)
    case Success(version) =>
      var queried := asked + [QueryVersion(path)];
      match versionOutput
      case Failure(e) => Effects(queried, Thrown(e), files)
      case Success(out) =>
        if InstalledVersion(out) != Some(version) then
          Effects(queried + [Log(NewerNotice(version))] + reinstall.trace, Done, reinstall.files)
        else Effects(queried + [Log(UP_TO_DATE)], Done, files)
  }

  /** `updateCli`: an early return when the binary is absent, the two version reads, and
      a conditional install. */
  method UpdateCli(w: World) returns (e: Effects)
    ensures e == UpdateSpec(w)
  {
    var path, trace := GetLocalBinPath(w);
    if path.Failure? {
      return Effects(trace, Thrown(path.error), w.files);
    }
    if !Exists(w.files, path.value) {
      trace := trace + [Log(NOT_INSTALLED)];
      return Effects(trace, Done, w.files);
    }
    var os := GetOs(w.platform);
    if os.Failure? {
      return Effects(trace, Thrown(os.error), w.files);
    }
    var latestVersion: Result<string, string>;
    if os.value == MacOS {
      trace := trace + [QueryBrewLatest];
      latestVersion := w.brewLatest;
    } else {
      trace := trace + [FetchReleases(RELEASES_URL)];
      latestVersion := GetLatestVersionGh(FirstPage(w.releases));
    }
    if latestVersion.Failure? {
      return Effects(trace, Thrown(latestVersion.error), w.files);
    }
    trace := trace + [QueryVersion(path.value)];
    if w.versionOutput.Failure? {
      return Effects(trace, Thrown(w.versionOutput.error), w.files);
    }
    var currentVersion := InstalledVersion(w.versionOutput.value);
    if currentVersion != Some(latestVersion.value) {
      trace := trace + [Log(NewerNotice(latestVersion.value))];
      var reinstall := InstallCli(w);
      return Effects(trace + reinstall.trace, Done, reinstall.files);
    }
    trace := trace + [Log(UP_TO_DATE)];
    return Effects(trace, Done, w.files);
  }

  /** The binary is absent: only the "not installed" notice, whatever the install would
      do; no lookup, no install. */
  lemma UpdateWhenAbsent(w: World, reinstall: Effects)
    requires LocalBinPathSpec(w).path.Success? && !Exists(w.files, LocalBinPathSpec(w).path.value)
    ensures UpdateWith(w, reinstall) == Effects(LocalBinPathSpec(w).probes + [Log(NOT_INSTALLED)], Done, w.files)
    ensures Count(UpdateWith(w, reinstall).trace, IsLookup) == 0
  {
    CountNone(LocalBinPathSpec(w).probes + [Log(NOT_INSTALLED)], IsLookup);
  }

  /** Versions differ (an unreadable version included): the notice, then the install's
      actions, once. */
  lemma UpdateReinstalls(w: World, reinstall: Effects, version: string, out: string)
    requires LocalBinPathSpec(w).path.Success? && Exists(w.files, LocalBinPathSpec(w).path.value)
    requires GetOs(w.platform).Success?
    requires LatestVersionFor(w, GetOs(w.platform).value).0 == Success(version)
    requires w.versionOutput == Success(out) && InstalledVersion(out) != Some(version)
    ensures var loc := LocalBinPathSpec(w);
      UpdateWith(w, reinstall) == Effects(loc.probes + [LatestVersionFor(w, GetOs(w.platform).value).1]
        + [QueryVersion(loc.path.value)] + [Log(NewerNotice(version))] + reinstall.trace, Done, reinstall.files)
  {
  }

  /** Versions differ: the install the update starts takes its already-installed exit,
      since this path exists. */
  lemma UpdateWhenOutdated(w: World, version: string, out: string)
    requires LocalBinPathSpec(w).path.Success? && Exists(w.files, LocalBinPathSpec(w).path.value)
    requires GetOs(w.platform).Success?
    requires LatestVersionFor(w, GetOs(w.platform).value).0 == Success(version)
    requires w.versionOutput == Success(out) && InstalledVersion(out) != Some(version)
    ensures var loc := LocalBinPathSpec(w);
      UpdateSpec(w) == Effects(loc.probes + [LatestVersionFor(w, GetOs(w.platform).value).1]
        + [QueryVersion(loc.path.value)] + [Log(NewerNotice(version))] + (loc.probes + [Log(ALREADY_INSTALLED)]), Done, w.files)
  {
    InstallWhenPresent(w);
    UpdateReinstalls(w, InstallSpec(w), version, out);
  }

  /** Versions equal: "CLI is up to date", whatever the install would do; nothing is
      installed. */
  lemma UpdateWhenCurrent(w: World, reinstall: Effects, version: string, out: string)
    requires LocalBinPathSpec(w).path.Success? && Exists(w.files, LocalBinPathSpec(w).path.value)
    requires GetOs(w.platform).Success?
    requires LatestVersionFor(w, GetOs(w.platform).value).0 == Success(version)
    requires w.versionOutput == Success(out) && InstalledVersion(out) == Some(version)
    ensures var loc := LocalBinPathSpec(w);
      UpdateWith(w, reinstall) == Effects(loc.probes + [LatestVersionFor(w, GetOs(w.platform).value).1]
        + [QueryVersion(loc.path.value)] + [Log(UP_TO_DATE)], Done, w.files)
  {
  }

  /** An output with no space after trimming has no version, which never equals the
      latest one: the install branch is taken. */
  lemma UndefinedVersionReinstalls(out: string, version: string)
    requires ' ' !in Trim(out)
    ensures InstalledVersion(out) != Some(version)
  {
  }

  /** The actions that obtain or start the binary: `IsAcquisition` or `IsSpawn`, spelled
      out on the constructors. */
  predicate Obtains(a: Action) {
    a.BrewInstall? || a.Download? || a.Spawn?
  }

  /** An update's trace is its own notices and queries, none of which obtains or starts
      the binary, followed by the reinstall's trace when it reinstalls; the files are the
      reinstall's then, and unchanged otherwise. */
  lemma UpdateShape(w: World, reinstall: Effects) returns (own: seq<Action>, reinstalls: bool)
    ensures forall i :: 0 <= i < |own| ==> !Obtains(own[i])
    ensures UpdateWith(w, reinstall).trace == if reinstalls then own + reinstall.trace else own
    ensures UpdateWith(w, reinstall).files == if reinstalls then reinstall.files else w.files
    ensures reinstalls ==> LocalBinPathSpec(w).path.Success? && Exists(w.files, LocalBinPathSpec(w).path.value)
  {
    var loc := LocalBinPathSpec(w);
    reinstalls := false;
    assert forall i :: 0 <= i < |loc.probes| ==> !Obtains(loc.probes[i]);
    if loc.path.Failure? || GetOs(w.platform).Failure? {
      own := loc.probes;
    } else if !Exists(w.files, loc.path.value) {
      own := loc.probes + [Log(NOT_INSTALLED)];
      QuietAppend(loc.probes, Log(NOT_INSTALLED));
    } else {
      var (latest, request) := LatestVersionFor(w, GetOs(w.platform).value);
      QuietAppend(loc.probes, request);
      own, reinstalls := CompareShape(loc.probes + [request], latest, loc.path.value, w.versionOutput, w.files, reinstall);
    }
  }

  /** The comparison step adds only notices and the version query before the reinstall. */
  lemma CompareShape(asked: seq<Action>, latest: Result<string, string>, path: string,
                     versionOutput: Result<string, string>, files: set<string>, reinstall: Effects)
    returns (own: seq<Action>, reinstalls: bool)
    requires forall i :: 0 <= i < |asked| ==> !Obtains(asked[i])
    ensures forall i :: 0 <= i < |own| ==> !Obtains(own[i])
    ensures CompareVersions(asked, latest, path, versionOutput, files, reinstall).trace == if reinstalls then own + reinstall.trace else own
    ensures CompareVersions(asked, latest, path, versionOutput, files, reinstall).files == if reinstalls then reinstall.files else files
  {
    var e := CompareVersions(asked, latest, path, versionOutput, files, reinstall);
    var queried := asked + [QueryVersion(path)];
    QuietAppend(asked, QueryVersion(path));
    reinstalls := false;
    if latest.Failure? {
      own := asked;
    } else if versionOutput.Failure? {
      own := queried;
    } else {
      var differ := InstalledVersion(versionOutput.value) != Some(latest.value);
      if differ {
        own := queried + [Log(NewerNotice(latest.value))];
        QuietAppend(queried, Log(NewerNotice(latest.value)));
        reinstalls := true;
        assert e == Effects(own + reinstall.trace, Done, reinstall.files);
      } else {
        own := queried + [Log(UP_TO_DATE)];
        QuietAppend(queried, Log(UP_TO_DATE));
        assert e == Effects(own, Done, files);
      }
    }
  }

  lemma QuietAppend(s: seq<Action>, a: Action)
    requires forall i :: 0 <= i < |s| ==> !Obtains(s[i])
    requires !Obtains(a)
    ensures forall i :: 0 <= i < |s + [a]| ==> !Obtains((s + [a])[i])
  {
  }

  /** An update never obtains the binary: its one reinstall takes the already-installed
      exit, so the update's trace holds no acquisition and no spawn, and the files are
      unchanged, on every input. */
  lemma UpdateNeverAcquires(w: World)
    ensures Count(UpdateSpec(w).trace, IsAcquisition) == 0
    ensures Count(UpdateSpec(w).trace, IsSpawn) == 0
    ensures UpdateSpec(w).files == w.files
  {
    var own, reinstalls := UpdateShape(w, InstallSpec(w));
    CountNone(own, IsAcquisition);
    CountNone(own, IsSpawn);
    if reinstalls {
      InstallWhenPresent(w);
      InstallNeverSpawns(w);
      CountConcat(own, InstallSpec(w).trace, IsAcquisition);
      CountConcat(own, InstallSpec(w).trace, IsSpawn);
    }
  }
}
