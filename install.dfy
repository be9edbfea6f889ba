/** install.ts: obtain the real CLI when it is absent. */
module Install {
  import opened Wrappers
  import opened Strings
  import opened Consts
  import opened UserOs
  import opened GhOperations
  import opened Versions
  import opened Host
  import opened LocalBinPath

  const ALREADY_INSTALLED := "Aptos CLI is already installed"
  const OPENSSL_FALLBACK := "Could not determine OpenSSL version, assuming older version (1.x.x)"
  /** The OpenSSL version assumed when it cannot be read. */
  const DEFAULT_OPENSSL := "1.0.0"

  /** The archive's architecture part on Linux: the OpenSSL 3 build or the older one. */
  function LinuxArch(openssl: string): (arch: string)
    ensures arch == "22.04-x86_64" <==> StartsWith(openssl, "3.")
    ensures arch == "x86_64" <==> !StartsWith(openssl, "3.")
  {
    if StartsWith(openssl, "3.") then "22.04-x86_64" else "x86_64"
  }

  /** The release archive's URL: `BASE/PNAME-v<version>/PNAME-<version>-<os>-<arch>.zip`;
      the directory is the release tag, `PNAME-v<version>`. */
  function DownloadUrl(version: string, os: Os, arch: string): string {
    GH_CLI_DOWNLOAD_URL + "/" + (Prefix() + version) + "/" + (PNAME + "-" + version + "-" + OsName(os) + "-" + arch + ".zip")
  }

  /** The URL lies in the release directory of the version's tag, and its archive name
      ends with the OS, the architecture and `.zip`. */
  lemma DownloadUrlShape(version: string, os: Os, arch: string)
    ensures StartsWith(DownloadUrl(version, os, arch), GH_CLI_DOWNLOAD_URL + "/" + (Prefix() + version) + "/")
    ensures EndsWith(DownloadUrl(version, os, arch), "-" + OsName(os) + "-" + arch + ".zip")
  {
    var dir := GH_CLI_DOWNLOAD_URL + "/" + (Prefix() + version) + "/";
    var tail := "-" + OsName(os) + "-" + arch + ".zip";
    var file := PNAME + "-" + version + tail;
    assert PNAME + "-" + version + "-" + OsName(os) + "-" + arch + ".zip" == file;
    assert DownloadUrl(version, os, arch) == dir + file;
    assert (dir + file)[..|dir|] == dir;
    assert (dir + file)[|dir + file| - |tail|..] == tail;
  }

  /** The OpenSSL probe of `installCli`'s Linux branch: what `getCurrentOpenSSLVersion` returns or throws. */
  function DetectOpenSsl(query: Result<string, string>): Result<string, string> {
    match query
    case Failure(e) => Failure(e)
    case Success(out) => GetCurrentOpenSslVersion(out)
  }

  /** The step that obtains the binary (the shell command that downloads, extracts and
      moves it, or `brew install aptos`): on success the binary is at `dest`, unless `dest`
      is empty, which names no file. */
  function Acquire(w: World, trace: seq<Action>, dest: string): (e: Effects)
    ensures e.trace == trace && e.outcome == w.acquisition
    ensures e.files == if w.acquisition.Done? && dest != "" then w.files + {dest} else w.files
    ensures Exists(e.files, dest) <==> Exists(w.files, dest) || (w.acquisition.Done? && dest != "")
  {
    match w.acquisition
    case Done => Effects(trace, Done, if dest == "" then w.files else w.files + {dest})
    case Thrown(err) => Effects(trace, Thrown(err), w.files)
  }

  /** Where a successful install leaves the binary: the computed `path` on Windows and
      Linux; on MacOS, under the prefix `brew --prefix aptos` reports once `brew install
      aptos` has run, or nowhere known (`""`) when that query throws. */
  function InstallTarget(w: World, path: string): string {
    if GetOs(w.platform) == Success(MacOS) then BrewPath(w.brewPrefixAfterInstall) else path
  }

  /** The host a task sees after a successful install: the install's files, and brew's
      prefix query answering as it does after `brew install aptos`. */
  function AfterInstall(w: World, files: set<string>): World {
    w.(files := files, brewPrefix := w.brewPrefixAfterInstall)
  }

  /** After an install, `getLocalBinPath` probes as before and finds the install's target. */
  lemma LocatedAfterInstall(w: World, files: set<string>)
    requires LocalBinPathSpec(w).path.Success?
    ensures LocalBinPathSpec(AfterInstall(w, files)).probes == LocalBinPathSpec(w).probes
    ensures LocalBinPathSpec(AfterInstall(w, files)).path == Success(InstallTarget(w, LocalBinPathSpec(w).path.value))
  {
  }

  /** Reference definition of `installCli`. */
  function InstallSpec(w: World): Effects {
    var loc := LocalBinPathSpec(w);
    match loc.path
    case Failure(e) => Effects(loc.probes, Thrown(e), w.files)
    case Success(path) =>
      if Exists(w.files, path) then Effects(loc.probes + [Log(ALREADY_INSTALLED)], Done, w.files)
      else
        var fetched := loc.probes + [FetchReleases(RELEASES_URL)];
        match LatestVersion(FirstPage(w.releases))
        case Failure(e) => Effects(fetched, Thrown(e), w.files)
        case Success(version) =>
          var announced := fetched + [Log("Downloading aptos CLI version " + version)];
          match GetOs(w.platform)
          case Failure(e) => Effects(announced, Thrown(e), w.files)
          case Success(os) => Acquire(w, announced + Obtain(w, os, version, path), InstallTarget(w, path))
  }

  /** The actions of `installCli`'s branch on the OS, for the found version. */
  function Obtain(w: World, os: Os, version: string, path: string): (r: seq<Action>)
    ensures |r| > 0 && IsAcquisition(r[|r| - 1])
    ensures forall i :: 0 <= i < |r| - 1 ==> !IsAcquisition(r[i]) && !IsLookup(r[i])
    ensures forall i :: 0 <= i < |r| ==> !IsSpawn(r[i])
  {
    if os == Windows then [Download(DownloadUrl(version, os, "x86_64"), path)]
    else if os == MacOS then [BrewInstall]
    else ObtainLinux(DetectOpenSsl(w.openssl), version, path)
  }

  /** The Linux branch of `installCli`, given what the OpenSSL probe returned or threw. */
  function ObtainLinux(ssl: Result<string, string>, version: string, path: string): (r: seq<Action>)
    ensures |r| > 0 && IsAcquisition(r[|r| - 1])
    ensures forall i :: 0 <= i < |r| - 1 ==> !IsAcquisition(r[i]) && !IsLookup(r[i])
    ensures forall i :: 0 <= i < |r| ==> !IsSpawn(r[i])
  {
    var arch := LinuxArch(if ssl.Success? then ssl.value else DEFAULT_OPENSSL);
    var told := Log("Downloading CLI binary " + OsName(Ubuntu) + "-" + arch);
    var download := Download(DownloadUrl(version, Ubuntu, arch), path);
    if ssl.Success? then [QueryOpenSsl, told, download]
    else [QueryOpenSsl, Log(OPENSSL_FALLBACK), told, download]
  }

  /** The Linux steps as the method appends them, one action at a time. */
  lemma LinuxSteps(detected: bool, told: Action, download: Action)
    ensures (if detected then [QueryOpenSsl] else [QueryOpenSsl] + [Log(OPENSSL_FALLBACK)]) + [told] + [download]
      == if detected then [QueryOpenSsl, told, download] else [QueryOpenSsl, Log(OPENSSL_FALLBACK), told, download]
  {
  }

  /** `installCli`: an early return when the binary exists, the version lookup, then one
      OS branch; on Linux `osVersion` and `opensSslVersion` are reassigned by the
      OpenSSL probe. */
  method InstallCli(w: World) returns (e: Effects)
    ensures e == InstallSpec(w)
  {
    var path, trace := GetLocalBinPath(w);
    if path.Failure? {
      return Effects(trace, Thrown(path.error), w.files);
    }
    if Exists(w.files, path.value) {
      trace := trace + [Log(ALREADY_INSTALLED)];
      return Effects(trace, Done, w.files);
    }
    trace := trace + [FetchReleases(RELEASES_URL)];
    var latest := GetLatestVersionGh(FirstPage(w.releases));
    if latest.Failure? {
      return Effects(trace, Thrown(latest.error), w.files);
    }
    trace := trace + [Log("Downloading aptos CLI version " + latest.value)];
    var os := GetOs(w.platform);
    if os.Failure? {
      return Effects(trace, Thrown(os.error), w.files);
    }
    var steps: seq<Action>;
    if os.value == Windows {
      var url := DownloadUrl(latest.value, os.value, "x86_64");
      steps := [Download(url, path.value)];
    } else if os.value == MacOS {
      steps := [BrewInstall];
    } else {
      var osVersion := "x86_64";
      var openSslVersion := DEFAULT_OPENSSL;
      steps := [QueryOpenSsl];
      var detected := DetectOpenSsl(w.openssl);
      if detected.Success? {
        openSslVersion := detected.value;
      } else {
        steps := steps + [Log(OPENSSL_FALLBACK)];
      }
      if StartsWith(openSslVersion, "3.") {
        osVersion := "22.04-x86_64";
      }
      var told := Log("Downloading CLI binary " + OsName(os.value) + "-" + osVersion);
      steps := steps + [told];
      var url := DownloadUrl(latest.value, os.value, osVersion);
      var download := Download(url, path.value);
      steps := steps + [download];
      LinuxSteps(detected.Success?, told, download);
    }
    trace := trace + steps;
    var dest := if os.value == MacOS then BrewPath(w.brewPrefixAfterInstall) else path.value;
    e := Acquire(w, trace, dest);
  }

  /** The binary exists: only "already installed" is printed; no lookup, no download. */
  lemma InstallWhenPresent(w: World)
    requires LocalBinPathSpec(w).path.Success? && Exists(w.files, LocalBinPathSpec(w).path.value)
    ensures InstallSpec(w) == Effects(LocalBinPathSpec(w).probes + [Log(ALREADY_INSTALLED)], Done, w.files)
    ensures Count(InstallSpec(w).trace, IsLookup) == 0 && Count(InstallSpec(w).trace, IsAcquisition) == 0
  {
    var t := LocalBinPathSpec(w).probes + [Log(ALREADY_INSTALLED)];
    CountNone(t, IsLookup);
    CountNone(t, IsAcquisition);
  }

  /** The binary is absent: the GitHub lookup comes right after the path probes, on every
      OS, MacOS included; when it finds nothing the install aborts before any branch. */
  lemma InstallLooksUpFirst(w: World)
    requires LocalBinPathSpec(w).path.Success? && !Exists(w.files, LocalBinPathSpec(w).path.value)
    ensures |InstallSpec(w).trace| > |LocalBinPathSpec(w).probes|
    ensures InstallSpec(w).trace[..|LocalBinPathSpec(w).probes| + 1] == LocalBinPathSpec(w).probes + [FetchReleases(RELEASES_URL)]
    ensures LatestVersion(FirstPage(w.releases)).Failure? ==>
      InstallSpec(w) == Effects(LocalBinPathSpec(w).probes + [FetchReleases(RELEASES_URL)], Thrown(NOT_FOUND), w.files)
  {
    var pre := LocalBinPathSpec(w).probes + [FetchReleases(RELEASES_URL)];
    var t := InstallSpec(w).trace;
    assert t[..|pre|] == pre;
  }

  /** Windows: the Windows archive of the found version, moved to the computed path. */
  lemma InstallWindows(w: World, version: string)
    requires GetOs(w.platform) == Success(Windows) && !Exists(w.files, w.binDir + "\\" + PNAME + ".exe")
    requires LatestVersion(FirstPage(w.releases)) == Success(version)
    ensures InstallSpec(w).trace == [FetchReleases(RELEASES_URL), Log("Downloading aptos CLI version " + version),
      Download(DownloadUrl(version, Windows, "x86_64"), w.binDir + "\\" + PNAME + ".exe")]
    ensures InstallSpec(w).outcome == w.acquisition
  {
    var fetch := FetchReleases(RELEASES_URL);
    var told := Log("Downloading aptos CLI version " + version);
    var download := Download(DownloadUrl(version, Windows, "x86_64"), w.binDir + "\\" + PNAME + ".exe");
    assert [] + [fetch] + [told] + [download] == [fetch, told, download];
  }

  /** MacOS: only `brew install aptos`, after the lookup whose result it does not use. */
  lemma InstallMacOs(w: World, version: string)
    requires GetOs(w.platform) == Success(MacOS) && w.brewOnPath
    requires !Exists(w.files, LocalBinPathSpec(w).path.value)
    requires LatestVersion(FirstPage(w.releases)) == Success(version)
    ensures InstallSpec(w).trace == [ProbeBrew, QueryBrewPrefix, FetchReleases(RELEASES_URL),
      Log("Downloading aptos CLI version " + version), BrewInstall]
    ensures InstallSpec(w).outcome == w.acquisition
  {
  }

  /** Linux: the lookup, then the Linux branch, whose archive goes to the computed path. */
  lemma InstallLinux(w: World, version: string)
    requires GetOs(w.platform) == Success(Ubuntu) && !Exists(w.files, w.binDir + "/" + PNAME)
    requires LatestVersion(FirstPage(w.releases)) == Success(version)
    ensures InstallSpec(w).trace == [FetchReleases(RELEASES_URL), Log("Downloading aptos CLI version " + version)]
      + ObtainLinux(DetectOpenSsl(w.openssl), version, w.binDir + "/" + PNAME)
    ensures InstallSpec(w).outcome == w.acquisition
  {
    var path := w.binDir + "/" + PNAME;
    var fetch := FetchReleases(RELEASES_URL);
    var told := Log("Downloading aptos CLI version " + version);
    assert LocalBinPathSpec(w) == Located(Success(path), []);
    assert [] + [fetch] + [told] == [fetch, told];
    assert Obtain(w, Ubuntu, version, path) == ObtainLinux(DetectOpenSsl(w.openssl), version, path);
  }

  /** The Linux archive suffix is the OpenSSL 3 one exactly when the probe read a version
      starting with "3."; a failed probe prints a notice, assumes 1.0.0, and goes on with
      the older build. */
  lemma LinuxSuffix(ssl: Result<string, string>, version: string, path: string)
    ensures var r := ObtainLinux(ssl, version, path);
      var arch := if ssl.Success? && StartsWith(ssl.value, "3.") then "22.04-x86_64" else "x86_64";
      r[|r| - 1] == Download(DownloadUrl(version, Ubuntu, arch), path)
    ensures ssl.Failure? ==> (ObtainLinux(ssl, version, path) ==
      [QueryOpenSsl, Log(OPENSSL_FALLBACK), Log("Downloading CLI binary Ubuntu-x86_64"), Download(DownloadUrl(version, Ubuntu, "x86_64"), path)])
    ensures ssl.Success? ==> Log(OPENSSL_FALLBACK) !in ObtainLinux(ssl, version, path)
    ensures ssl.Success? ==> (ObtainLinux(ssl, version, path) ==
      [QueryOpenSsl, Log("Downloading CLI binary Ubuntu-" + LinuxArch(ssl.value)), Download(DownloadUrl(version, Ubuntu, LinuxArch(ssl.value)), path)])
  {
    assert DEFAULT_OPENSSL[0] == '1';
    assert !StartsWith(DEFAULT_OPENSSL, "3.");
    assert "Downloading CLI binary " + OsName(Ubuntu) + "-" + "x86_64" == "Downloading CLI binary Ubuntu-x86_64";
    if ssl.Success? {
      LinuxDetected(ssl.value, version, path);
    }
  }

  /** A successful probe: the query, the notice naming the chosen archive, the download. */
  lemma LinuxDetected(openssl: string, version: string, path: string)
    ensures ObtainLinux(Success(openssl), version, path) ==
      [QueryOpenSsl, Log("Downloading CLI binary Ubuntu-" + LinuxArch(openssl)), Download(DownloadUrl(version, Ubuntu, LinuxArch(openssl)), path)]
  {
    assert "Downloading CLI binary " + OsName(Ubuntu) + "-" + LinuxArch(openssl) == "Downloading CLI binary Ubuntu-" + LinuxArch(openssl);
  }

  /** The OS branch holds exactly one acquisition, and no lookup or spawn. */
  lemma ObtainCounts(w: World, os: Os, version: string, path: string)
    ensures Count(Obtain(w, os, version, path), IsAcquisition) == 1
    ensures Count(Obtain(w, os, version, path), IsLookup) == 0
  {
    var r := Obtain(w, os, version, path);
    var init := r[..|r| - 1];
    assert r == init + [r[|r| - 1]];
    CountNone(init, IsAcquisition);
    CountConcat(init, [r[|r| - 1]], IsAcquisition);
    CountNone(init, IsLookup);
    CountConcat(init, [r[|r| - 1]], IsLookup);
  }

  /** With the binary absent and a version found, exactly one acquisition action happens,
      and it is the last action; a successful one leaves the binary at the install's target,
      unless that is empty. */
  lemma InstallAcquiresOnce(w: World)
    requires LocalBinPathSpec(w).path.Success? && !Exists(w.files, LocalBinPathSpec(w).path.value)
    requires LatestVersion(FirstPage(w.releases)).Success?
    ensures Count(InstallSpec(w).trace, IsAcquisition) == 1
    ensures IsAcquisition(InstallSpec(w).trace[|InstallSpec(w).trace| - 1])
    ensures InstallSpec(w).outcome == w.acquisition
    ensures var target := InstallTarget(w, LocalBinPathSpec(w).path.value);
      InstallSpec(w).files == if w.acquisition.Done? && target != "" then w.files + {target} else w.files
    ensures var target := InstallTarget(w, LocalBinPathSpec(w).path.value);
      Exists(InstallSpec(w).files, target) <==> Exists(w.files, target) || (w.acquisition.Done? && target != "")
  {
    var loc := LocalBinPathSpec(w);
    var path := loc.path.value;
    var version := LatestVersion(FirstPage(w.releases)).value;
    var os := GetOs(w.platform).value;
    var announced := loc.probes + [FetchReleases(RELEASES_URL)] + [Log("Downloading aptos CLI version " + version)];
    var tail := Obtain(w, os, version, path);
    assert InstallSpec(w) == Acquire(w, announced + tail, InstallTarget(w, path));
    assert forall i :: 0 <= i < |announced| ==> !IsAcquisition(announced[i]);
    CountNone(announced, IsAcquisition);
    ObtainCounts(w, os, version, path);
    CountConcat(announced, tail, IsAcquisition);
  }

  /** The install never starts the real CLI. */
  lemma InstallNeverSpawns(w: World)
    ensures Count(InstallSpec(w).trace, IsSpawn) == 0
  {
    var loc := LocalBinPathSpec(w);
    var t := InstallSpec(w).trace;
    assert forall i :: 0 <= i < |loc.probes| ==> !IsSpawn(loc.probes[i]);
    var own: seq<Action>;
    var tail: seq<Action> := [];
    if loc.path.Failure? {
      own := loc.probes;
    } else if Exists(w.files, loc.path.value) {
      own := loc.probes + [Log(ALREADY_INSTALLED)];
    } else if LatestVersion(FirstPage(w.releases)).Failure? {
      own := loc.probes + [FetchReleases(RELEASES_URL)];
    } else {
      var version := LatestVersion(FirstPage(w.releases)).value;
      own := loc.probes + [FetchReleases(RELEASES_URL)] + [Log("Downloading aptos CLI version " + version)];
      if GetOs(w.platform).Success? {
        tail := Obtain(w, GetOs(w.platform).value, version, loc.path.value);
      }
    }
    assert t == own + tail;
    assert forall i :: 0 <= i < |own| ==> !IsSpawn(own[i]);
    CountNone(own, IsSpawn);
    CountNone(tail, IsSpawn);
    CountConcat(own, tail, IsSpawn);
  }

  /** The archive of `version` lies in the directory of the tag naming that version. */
  lemma UrlInTagDirectory(tag: string, version: string, os: Os, arch: string)
    requires tag == Prefix() + version
    ensures StartsWith(DownloadUrl(version, os, arch), GH_CLI_DOWNLOAD_URL + "/" + tag + "/")
  {
    DownloadUrlShape(version, os, arch);
  }

  /** The downloaded archive lies in the release directory named by the very tag the
      version was read from: the first CLI release of the page. */
  lemma DownloadFromMatchedTag(page: seq<Release>, i: nat, os: Os, arch: string)
    requires i < |page| && IsCliRelease(page[i])
    requires forall j :: 0 <= j < i ==> !IsCliRelease(page[j])
    ensures LatestVersion(page).Success?
    ensures StartsWith(DownloadUrl(LatestVersion(page).value, os, arch), GH_CLI_DOWNLOAD_URL + "/" + page[i].tagName + "/")
  {
    LatestVersionFound(page, i);
    StripPrefix(page[i].tagName);
    UrlInTagDirectory(page[i].tagName, LatestVersion(page).value, os, arch);
  }
}
