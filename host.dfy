/** The host the wrapper runs on, reduced to the facts its code reads, and the
    ordered trace of externally visible actions the code performs. */
module Host {
  import opened Wrappers

  /** How a task ends: normally, or with an error it throws or rejects with. */
  datatype Outcome = Done | Thrown(error: string)

  /** A release object of the GitHub listing; only `tag_name` is read. */
  datatype Release = Release(tagName: string)

  /** Every external fact the wrapper's code consults. */
  datatype World = World(
    platform: string,                      // `os.platform()`
    files: set<string>,                    // the paths present on disk; `existsSync` is `Exists`
    brewOnPath: bool,                      // `which brew` succeeds
    brewPrefix: Result<string, string>,    // output of `brew --prefix aptos`, or what it throws
    brewPrefixAfterInstall: Result<string, string>,  // the same query once `brew install aptos` has succeeded
    binDir: string,                        // `dirname(fileURLToPath(import.meta.url))`
    releases: seq<Release>,                // the whole releases listing, newest first
    brewLatest: Result<string, string>,    // the formula's version from brew's metadata
    openssl: Result<string, string>,       // output of `openssl version`, or what it throws
    versionOutput: Result<string, string>, // output of `<binary> --version`, or what it throws
    acquisition: Outcome)                  // whether the download pipeline or `brew install` succeeds

  datatype Action =
    | Log(text: string)                    // `console.log`
    | ReportError(text: string)            // `console.error` of an uncaught error
    | ProbeBrew                            // `which brew`
    | QueryBrewPrefix                      // `brew --prefix aptos`
    | FetchReleases(url: string)           // the HTTP request for the releases listing
    | QueryBrewLatest                      // brew's metadata query for the latest version
    | QueryOpenSsl                         // `openssl version`
    | QueryVersion(path: string)           // `<path> --version`
    | BrewInstall                          // `brew install aptos`
    | Download(url: string, dest: string)  // download, extract, move the binary to dest
    | Spawn(path: string, args: seq<string>, shell: bool)  // the child process of the real CLI

  /** `existsSync(p)`: the path is on disk, and the empty path never is. */
  predicate Exists(files: set<string>, p: string) {
    p != "" && p in files
  }

  /** The notice of `runCLI` and `updateCli` when the binary is absent. */
  const NOT_INSTALLED := "Aptos CLI not installed, run `npx aptos --install` to install"

  /** A task's trace, how it ended, and the existing files afterwards. */
  datatype Effects = Effects(trace: seq<Action>, outcome: Outcome, files: set<string>)

  /** The actions that obtain the binary. */
  predicate IsAcquisition(a: Action) {
    a.BrewInstall? || a.Download?
  }

  /** The actions that look up the latest version. */
  predicate IsLookup(a: Action) {
    a.FetchReleases? || a.QueryBrewLatest?
  }

  predicate IsSpawn(a: Action) {
    a.Spawn?
  }

  function Count(trace: seq<Action>, p: Action -> bool): nat {
    if trace == [] then 0 else (if p(trace[0]) then 1 else 0) + Count(trace[1..], p)
  }

  lemma {:induction false} CountConcat(a: seq<Action>, b: seq<Action>, p: Action -> bool)
    ensures Count(a + b, p) == Count(a, p) + Count(b, p)
  {
    if a == [] {
      assert a + b == b;
    } else {
      assert (a + b)[0] == a[0] && (a + b)[1..] == a[1..] + b;
      CountConcat(a[1..], b, p);
    }
  }

  lemma {:induction false} CountNone(trace: seq<Action>, p: Action -> bool)
    ensures Count(trace, p) == 0 <==> forall i :: 0 <= i < |trace| ==> !p(trace[i])
  {
    if trace != [] {
      CountNone(trace[1..], p);
      assert forall i :: 1 <= i < |trace| ==> trace[i] == trace[1..][i - 1];
    }
  }

  /** The trace `before` followed by the task `e`. */
  function Prepend(before: seq<Action>, e: Effects): (r: Effects)
    ensures r.outcome == e.outcome && r.files == e.files
    ensures |r.trace| == |before| + |e.trace| && r.trace[|before|..] == e.trace
  {
    Effects(before + e.trace, e.outcome, e.files)
  }
}
