/** getLocalBinPath.ts: where the real CLI's binary is, or is to be placed. */
module LocalBinPath {
  import opened Wrappers
  import opened Strings
  import opened Consts
  import opened UserOs
  import opened BrewOperations
  import opened Host

  const BREW_MISSING := "Please install brew to continue: https://brew.sh/"

  /** The path, or what `getLocalBinPath` throws, and its probes in order. */
  datatype Located = Located(path: Result<string, string>, probes: seq<Action>)

  /** The MacOS path: `getCliPathBrew()` in its `try`, with `""` when it throws. */
  function BrewPath(prefixQuery: Result<string, string>): (path: string)
    ensures path == "" <==> prefixQuery.Failure?
    ensures prefixQuery.Success? ==> EndsWith(path, BIN_SUFFIX)
  {
    match GetCliPathBrew(prefixQuery)
    case Success(p) => p
    case Failure(_) => ""
  }

  /** Reference definition of `getLocalBinPath`. */
  function LocalBinPathSpec(w: World): Located {
    match GetOs(w.platform)
    case Failure(e) => Located(Failure(e), [])
    case Success(os) =>
      if os == MacOS then
        if !w.brewOnPath then Located(Failure(BREW_MISSING), [ProbeBrew])
        else
          Located(Success(BrewPath(w.brewPrefix)), [ProbeBrew, QueryBrewPrefix])
      else if os == Windows then Located(Success(w.binDir + "\\" + PNAME + ".exe"), [])
      else Located(Success(w.binDir + "/" + PNAME), [])
  }

  /** `getLocalBinPath`: `path` is left unassigned, then set in each OS branch and in
      the fallback of the brew query. */
  method GetLocalBinPath(w: World) returns (path: Result<string, string>, probes: seq<Action>)
    ensures Located(path, probes) == LocalBinPathSpec(w)
  {
    probes := [];
    var os := GetOs(w.platform);
    if os.Failure? {
      return Failure(os.error), probes;
    }
    var p: string;
    if os.value == MacOS {
      probes := probes + [ProbeBrew];
      if !w.brewOnPath {
        return Failure(BREW_MISSING), probes;
      }
      probes := probes + [QueryBrewPrefix];
      var brewPath := GetCliPathBrew(w.brewPrefix);
      if brewPath.Success? {
        p := brewPath.value;
      } else {
        p := "";
      }
      assert p == BrewPath(w.brewPrefix);
    } else if os.value == Windows {
      p := w.binDir + "\\" + PNAME + ".exe";
    } else {
      p := w.binDir + "/" + PNAME;
    }
    path := Success(p);
    assert LocalBinPathSpec(w) == Located(path, probes);
  }

  /** An unsupported platform: `getOS` throws before anything is probed. */
  lemma PathUnsupported(w: World)
    requires w.platform !in {"darwin", "linux", "win32"}
    ensures LocalBinPathSpec(w) == Located(Failure("Unsupported OS " + w.platform), [])
  {
  }

  /** MacOS without brew: the install hint is thrown and there is no path. */
  lemma PathMacOsWithoutBrew(w: World)
    requires w.platform == "darwin" && !w.brewOnPath
    ensures LocalBinPathSpec(w) == Located(Failure(BREW_MISSING), [ProbeBrew])
  {
  }

  /** MacOS with brew: the path under brew's prefix, or the empty path when the
      prefix query throws. */
  lemma PathMacOsWithBrew(w: World)
    requires w.platform == "darwin" && w.brewOnPath
    ensures LocalBinPathSpec(w).probes == [ProbeBrew, QueryBrewPrefix]
    ensures w.brewPrefix.Success? ==> LocalBinPathSpec(w).path == GetCliPathBrew(w.brewPrefix)
    ensures w.brewPrefix.Success? ==> EndsWith(LocalBinPathSpec(w).path.value, BIN_SUFFIX)
    ensures w.brewPrefix.Failure? ==> LocalBinPathSpec(w).path == Success("")
  {
  }

  lemma PathWindows(w: World)
    requires w.platform == "win32"
    ensures LocalBinPathSpec(w) == Located(Success(w.binDir + "\\" + PNAME + ".exe"), [])
  {
  }

  lemma PathUbuntu(w: World)
    requires w.platform == "linux"
    ensures LocalBinPathSpec(w) == Located(Success(w.binDir + "/" + PNAME), [])
  {
  }

  /** The path does not depend on which files exist. */
  lemma LocatedIgnoresFiles(w: World, files: set<string>)
    ensures LocalBinPathSpec(w.(files := files)) == LocalBinPathSpec(w)
  {
  }

  /** brew is probed only on MacOS, and its prefix queried only when it is there; the
      locator fails only on an unsupported platform or a Mac without brew. */
  lemma BrewProbedOnlyOnMacOs(w: World)
    ensures ProbeBrew in LocalBinPathSpec(w).probes <==> w.platform == "darwin"
    ensures QueryBrewPrefix in LocalBinPathSpec(w).probes <==> w.platform == "darwin" && w.brewOnPath
    ensures LocalBinPathSpec(w).path.Failure? <==>
      w.platform !in {"darwin", "linux", "win32"} || (w.platform == "darwin" && !w.brewOnPath)
  {
  }

  /** The path is empty exactly in the fallback of a failed brew prefix query on a Mac with
      brew; every other path the locator returns names a file. */
  lemma EmptyPathOnlyOnBrewFailure(w: World)
    ensures LocalBinPathSpec(w).path == Success("") <==>
      w.platform == "darwin" && w.brewOnPath && w.brewPrefix.Failure?
  {
    var wp := w.binDir + "\\" + PNAME + ".exe";
    var lp := w.binDir + "/" + PNAME;
    assert wp[|w.binDir|] == '\\';
    assert lp[|w.binDir|] == '/';
  }
}
