# aptos-cli bootstrap wrapper, modelled in Dafny

The `aptos` npm package is a thin launcher for the real Aptos CLI. When run, it:

- works out where the CLI binary lives on this host;
- installs it if it is missing: with `brew` on MacOS, or by downloading a GitHub release
  archive on Linux and Windows;
- updates it on request;
- otherwise starts it with the user's arguments.

There is also a `--help` passthrough. A separate helper merges commander's option lines into
the CLI's own help text.

This project is a model of that decision and string logic. All I/O is abstracted. The host is
a value, `Host.World`, that holds every fact the code consults:

- the platform identifier;
- the set of paths on disk, where `existsSync` is `Host.Exists` and never holds of the empty path;
- whether `brew` is on the `PATH`;
- the output of `brew --prefix aptos`, once before and once after `brew install aptos`;
- the package directory;
- the releases listing;
- brew's latest version;
- the outputs of `openssl version` and `<binary> --version`;
- whether the download or `brew install` succeeds.

Each task (`installCli`, `updateCli`, `runCLI`, `parseCommandOptions`, `main`) is an
imperative method. It appends the externally visible actions it performs to a trace of
`Host.Action`s: messages, probes, the releases request, `brew install`,
`Download(url, dest)` and `Spawn(path, args, shell)`. Each method is proved equal to a
reference function of the world (`InstallSpec`, `UpdateSpec`, `RunSpec`,
`ParseCommandOptionsSpec`, `MainSpec`). The properties are lemmas on those functions:

- which actions happen;
- in what order;
- how many times (`Host.Count`);
- with which arguments.

The pure code becomes functions with contracts, plus lemmas about them:

- the platform switch;
- the tag-prefix stripping;
- the token extraction;
- the path and URL templates;
- the help-text merge.

The ECMAScript string operations the code relies on are modelled in `strings.dfy`:

- `trim`, over the WhiteSpace and LineTerminator code points;
- `startsWith`;
- `split` and `join` on one character;
- `indexOf`;
- `replace` with a string pattern, which replaces only the first occurrence.

`PNAME` and `GH_CLI_DOWNLOAD_URL` come from `consts.js`, which is not part of this model. They
are constants without a value here, so every proof holds for any value they may have.

`getAptosCliLatestVersion.ts` is modelled by `Update.LatestVersionFor`. On MacOS it returns
brew's version, and the GitHub lookup elsewhere. `getLatestVersionBrew` is not defined in the
sources shown, so brew's answer is an input.

## Model

| member | source | states |
|---|---|---|
| Host.Exists | bin/tasks/install.ts:14 | `existsSync(path)`: the path is among the files on disk, and the empty path never is. It is a predicate with no contract. The same test appears at bin/tasks/update.ts:10, bin/tasks/run.ts:9 and bin/utils/parseCommandOptions.ts:24. |
| UserOs.GetOs | bin/utils/getUserOs.ts:6-18 | `"darwin"`, `"linux"` and `"win32"` map to `MacOS`, `Ubuntu` and `Windows`, each as an if-and-only-if. Every other identifier fails, and only those fail, with `"Unsupported OS "` followed by the identifier. |
| UserOs.OsName | bin/tasks/install.ts:24 | The category name put into download URLs is one of `MacOS`, `Ubuntu`, `Windows`. |
| UserOs.UnsupportedNamesPlatform | bin/utils/getUserOs.ts:15-16 | A rejected identifier is exactly the suffix of the error message. |
| GhOperations.Prefix | bin/utils/ghOperations.ts:8 | The tag prefix searched for is exactly `PNAME` followed by `-v`. It has no contract; `GhOperations.LatestVersionSound` and `GhOperations.LatestVersionFound` state what it selects and strips. |
| GhOperations.IsCliRelease | bin/utils/ghOperations.ts:15 | A release belongs to the CLI exactly when its `tag_name` starts with the prefix `PNAME-v`. It is a predicate with no contract; `GhOperations.LatestVersionAbsent` and `GhOperations.LatestVersionSound` state what it selects. |
| GhOperations.FirstPage | bin/utils/ghOperations.ts:9-13 | The one request with `per_page = 100` returns the first 100 releases of the listing, or the whole listing when it is shorter: the page is a prefix of the listing whose length is the smaller of the two. |
| GhOperations.LatestVersion | bin/utils/ghOperations.ts:14-19 | A failure is exactly the "Could not determine latest version of Aptos CLI" error. A found version is such that some release's tag is the prefix `PNAME-v` followed by it. |
| GhOperations.GetLatestVersionGh | bin/utils/ghOperations.ts:7-20 | The loop returns the reference result. It fails with that message if and only if no release on the page carries the prefix. |
| GhOperations.LatestVersionFound | bin/utils/ghOperations.ts:14-17 | The first release whose tag starts with `PNAME-v` decides, with no earlier match. The result is its tag with the leading prefix removed, equal to the first-occurrence `replace` by `""`. |
| GhOperations.LatestVersionAbsent | bin/utils/ghOperations.ts:19 | The lookup fails if and only if no tag on the page has the prefix. |
| GhOperations.LatestVersionSound | bin/utils/ghOperations.ts:14-17 | A found version comes from an index whose release is a CLI release, with none before it. That tag is exactly the prefix followed by the version. |
| GhOperations.OnlyFirstPageSearched | bin/utils/ghOperations.ts:10-13 | With no CLI release among the first 100, the lookup fails whatever follows. There is no pagination. |
| GhOperations.FoundOnFirstPage | bin/utils/ghOperations.ts:10-17 | However long the listing, a CLI release among the first 100, with none before it, is found: the result is its tag with the prefix stripped. |
| GhOperations.LatestVersionExample | bin/utils/ghOperations.ts:15-16 | A non-CLI tag followed by `PNAME-v3.2.1` and `PNAME-v3.2.0` gives `3.2.1`. |
| Versions.GetCurrentOpenSslVersion | bin/utils/versions.ts:6-9 | The call succeeds exactly when the output has a space, so `split(" ")` has an element 1. Otherwise it fails with the `undefined.trim()` TypeError. A result is trimmed and has no space. |
| Versions.SecondWord | bin/utils/versions.ts:8 | For `name version`, with trailing non-space whitespace and any further words, the result is `version`. |
| Versions.DoubleSpaceGivesEmpty | bin/utils/versions.ts:8 | Splitting is on a single space, so two spaces after the first word give the empty version. |
| BrewOperations.GetCliPathBrew | bin/utils/brewOperations.ts:7-12 | A failing prefix query propagates its error and yields no path. Otherwise the path ends with `/bin/aptos` and the part before it is trimmed. |
| BrewOperations.BrewPathOfPadded | bin/utils/brewOperations.ts:8-11 | Whitespace around the prefix output, such as the trailing newline, does not reach the path: the result is the prefix followed by `/bin/aptos`. |
| LocalBinPath.BrewPath | bin/utils/getLocalBinPath.ts:17-21 | The `try` around `getCliPathBrew()` with its `""` fallback: the path is empty if and only if the prefix query throws, and a path from a successful query ends with `/bin/aptos`. |
| LocalBinPath.LocalBinPathSpec | bin/utils/getLocalBinPath.ts:8-28 | The reference locator: the path, or what is thrown, with the probes in order. It has no contract; the `LocalBinPath` lemmas below state its cases. |
| LocalBinPath.GetLocalBinPath | bin/utils/getLocalBinPath.ts:8-28 | The method with its unassigned `path` returns the reference path and probes. |
| LocalBinPath.PathUnsupported | bin/utils/getLocalBinPath.ts:10 | On an unsupported platform, `getOS` throws before anything is probed. |
| LocalBinPath.PathMacOsWithoutBrew | bin/utils/getLocalBinPath.ts:11-16 | MacOS without brew throws the "Please install brew" message after the one probe. There is no path. |
| LocalBinPath.PathMacOsWithBrew | bin/utils/getLocalBinPath.ts:17-21 | MacOS with brew probes, then queries the prefix. The path is the brew-derived one ending in `/bin/aptos`, or `""` when the query throws. |
| LocalBinPath.PathWindows | bin/utils/getLocalBinPath.ts:22-23 | On Windows the path is `dir\PNAME.exe`, with nothing probed. |
| LocalBinPath.PathUbuntu | bin/utils/getLocalBinPath.ts:24-25 | On Linux the path is `dir/PNAME`, with no suffix. |
| LocalBinPath.BrewProbedOnlyOnMacOs | bin/utils/getLocalBinPath.ts:11-13 | brew is probed if and only if the platform is `darwin`. Its prefix is queried if and only if brew is also present. The locator fails exactly on an unsupported platform or a Mac without brew. |
| LocalBinPath.EmptyPathOnlyOnBrewFailure | bin/utils/getLocalBinPath.ts:17-25 | The path is empty if and only if the platform is `darwin`, brew is present and its prefix query throws. The brew, Windows and Linux paths are never empty. |
| LocalBinPath.LocatedIgnoresFiles | bin/utils/getLocalBinPath.ts:8-28 | The computed path and probes do not depend on which files exist. |
| Install.DownloadUrl | bin/tasks/install.ts:49 | The URL template `BASE/PNAME-v<version>/PNAME-<version>-<os>-<arch>.zip`, also the Windows one of bin/tasks/install.ts:24 with arch `x86_64`. It has no contract; its shape is proved in `Install.DownloadUrlShape`. |
| Install.DetectOpenSsl | bin/tasks/install.ts:37-43 | What the `try` around `getCurrentOpenSSLVersion()` yields: the query's error, or the version read from its output. It has no contract; `Install.LinuxSuffix` states its effect. |
| Install.LinuxArch | bin/tasks/install.ts:45-47 | The suffix is `22.04-x86_64` if and only if the version starts with `3.`, and `x86_64` otherwise. |
| Install.DownloadUrlShape | bin/tasks/install.ts:49 | The URL lies in `BASE/PNAME-v<version>/`. The archive name ends with `-<OS>-<arch>.zip`. |
| Install.Acquire | bin/tasks/install.ts:26-31 | The acquisition keeps the trace and has the world's outcome. On success it adds the path to the files, except the empty path; the path then exists if and only if it existed before or was written. The Linux `mv` at bin/tasks/install.ts:51-53 is the same step. |
| Install.Obtain | bin/tasks/install.ts:23-54 | Each OS branch ends with its one acquisition. It has no acquisition or lookup before that and no spawn. |
| Install.ObtainLinux | bin/tasks/install.ts:33-53 | The Linux branch ends with its download. It has no acquisition or lookup before that and no spawn. |
| Install.InstallSpec | bin/tasks/install.ts:12-55 | The reference install: the locator's failure, the "already installed" exit, the releases request and its failure, the notice, then the OS branch and its one acquisition. It has no contract; `Install.InstallCli` is proved equal to it, and the `Install` lemmas state its cases. |
| Install.InstallCli | bin/tasks/install.ts:12-55 | The method, with its reassigned `osVersion` and OpenSSL version, performs exactly the reference install. Its existence check is `existsSync`, so on MacOS the empty fallback path never counts as installed. |
| Install.InstallWhenPresent | bin/tasks/install.ts:13-17 | If the binary exists, only "Aptos CLI is already installed" is printed. There is no lookup, no acquisition, and no change. |
| Install.InstallLooksUpFirst | bin/tasks/install.ts:18-21 | If the binary is absent, the releases request comes right after the path probes on every OS, MacOS included. A failed lookup rejects the whole install with its message. |
| Install.InstallWindows | bin/tasks/install.ts:23-28 | Windows: the request, the "Downloading" notice, then the download of the `Windows-x86_64` archive to the computed path. |
| Install.InstallMacOs | bin/tasks/install.ts:29-31 | MacOS: the probes, the unused lookup, the notice, then only `brew install`. |
| Install.InstallLinux | bin/tasks/install.ts:32-54 | Linux: the request and notice, followed by the Linux branch for the detected OpenSSL version, downloading to the computed path. |
| Install.LinuxSuffix | bin/tasks/install.ts:35-53 | The download uses `22.04-x86_64` exactly when the probe read a `3.` version. A successful probe gives exactly the query, the "Downloading CLI binary Ubuntu-<arch>" notice and the download. A failed probe prints the fallback notice, assumes `1.0.0` (hence `x86_64`), and continues. |
| Install.LinuxDetected | bin/tasks/install.ts:35-53 | When `openssl version` is read, the Linux branch is exactly the query, the "Downloading CLI binary Ubuntu-<arch>" notice for the chosen archive, and the download of that archive to the computed path. |
| Install.ObtainCounts | bin/tasks/install.ts:23-54 | Exactly one acquisition per OS branch, and no lookup. |
| Install.InstallAcquiresOnce | bin/tasks/install.ts:19-54 | If the binary is absent and a version is found, there is exactly one acquisition, as the last action. The outcome is the acquisition's. The install's target is the computed path on Windows and Linux, and on MacOS the path under the prefix brew reports after the install. Afterwards the target exists if and only if it existed or the acquisition succeeded and the target is not empty; the files change by the target alone. |
| Install.InstallTarget | bin/tasks/install.ts:23-54 | Where a successful install leaves the binary: the computed path on Windows and Linux; on MacOS the path `getLocalBinPath` computes from the prefix query answered after `brew install aptos`, or `""` when that query throws. It has no contract; `Install.LocatedAfterInstall` states it. |
| Install.AfterInstall | bin/tasks/run.ts:8 | The host the next task sees after an install: the install's files, and the prefix query answering as it does after `brew install aptos`. It has no contract; `Install.LocatedAfterInstall` states its effect. |
| Install.LocatedAfterInstall | bin/tasks/run.ts:8 | When `getLocalBinPath` is called again after an install, it makes the same probes as before and finds the install's target. On MacOS that target comes from the repeated prefix query. |
| Install.InstallNeverSpawns | bin/tasks/install.ts:12-55 | An install never starts the real CLI. |
| Install.DownloadFromMatchedTag | bin/tasks/install.ts:19-24 | The archive is fetched from the directory named by the very tag the version was read from. |
| Update.LatestVersionFor | bin/utils/getAptosCliLatestVersion.ts:8-14 | brew's version and its metadata query on MacOS, the GitHub lookup and its request elsewhere. It has no contract; `Update.UpdateReinstalls` and `Update.UpdateWhenCurrent` use it. |
| Update.UpdateWith | bin/tasks/update.ts:8-33 | The reference update, given what its `installCli()` call does: the early exits, the OS-dependent lookup, then the comparison. It has no contract; `Update.UpdateShape`, `Update.UpdateReinstalls` and `Update.UpdateWhenCurrent` state its cases. |
| Update.CompareVersions | bin/tasks/update.ts:17-32 | From the lookup on: a failed lookup or `--version` query rejects; differing versions print the notice and run the install; equal ones print "CLI is up to date". It has no contract; `Update.CompareShape` states its shape. |
| Update.InstalledVersion | bin/tasks/update.ts:19-23 | The version is element 1 of the trimmed output split on `" "`. It exists exactly when the trimmed output has a space, and has no space itself. |
| Update.InstalledVersionOf | bin/tasks/update.ts:19-23 | Output of the form `aptos 3.2.1`, with any surrounding whitespace, reads as `3.2.1`. So does `aptos 3.2.1 (abc)`: words after the version are ignored. |
| Update.UpdateSpec | bin/tasks/update.ts:8-33 | The reference update, with its `installCli()` call being the reference install of bin/tasks/install.ts:12-55. It has no contract; `Update.UpdateCli` is proved equal to it, and `Update.UpdateWhenOutdated` and `Update.UpdateNeverAcquires` state its cases. |
| Update.UpdateCli | bin/tasks/update.ts:8-33 | The method, including its call of the install, performs exactly the reference update. |
| Update.UpdateWhenAbsent | bin/tasks/update.ts:9-15 | If the binary is absent, only the "not installed" notice is printed, whatever the install would do. There is no lookup. |
| Update.UpdateReinstalls | bin/tasks/update.ts:25-29 | If the versions differ, an unreadable one included, the steps are: the lookup, the `--version` query, the "newer version" notice, then the install's actions once. |
| Update.UpdateWhenOutdated | bin/tasks/update.ts:25-29 | That install takes its "already installed" exit, because the path exists. |
| Update.UpdateWhenCurrent | bin/tasks/update.ts:30-31 | If the versions are equal, "CLI is up to date" is printed and the install is not run. |
| Update.UndefinedVersionReinstalls | bin/tasks/update.ts:23-25 | Output without a space gives an undefined version, never equal to the latest one. |
| Update.UpdateShape | bin/tasks/update.ts:8-33 | An update is its own notices and queries, none of which obtains or starts the binary. It is followed by the install's trace exactly when it installs, and this happens only when the binary exists. |
| Update.UpdateNeverAcquires | bin/tasks/update.ts:10-29 | An update never downloads, brew-installs or spawns, and never changes the files. |
| Run.RunSpec | bin/tasks/run.ts:7-23 | The reference run: the locator's failure, the "not installed" notice when the binary is absent, else one spawn with the arguments, through a shell on Windows. It has no contract; `Run.RunCli` is proved equal to it, and the `Run` lemmas state its cases. |
| Run.RunCli | bin/tasks/run.ts:7-23 | The method performs exactly the reference run, with `args` defaulting to `[]`. |
| Run.RunWhenAbsent | bin/tasks/run.ts:8-14 | If the binary is absent, only the notice is printed. No process is started and there is no error. |
| Run.RunWhenPresent | bin/tasks/run.ts:15-22 | If the binary is present, exactly one spawn happens, as the last action, with the computed path and the arguments unchanged. The shell is used exactly on `win32`. |
| Run.RunWithoutArgs | bin/tasks/run.ts:7 | Without arguments, the binary is started with the empty list. |
| Run.RunNeverAcquires | bin/tasks/run.ts:7-23 | A run looks nothing up, obtains nothing and changes no file. |
| CommandOptions.DefaultSpec | bin/utils/parseCommandOptions.ts:22-27 | The reference no-flag branch: install when the binary is absent, then run in the host the install left. It has no contract; `CommandOptions.DefaultWhenPresent`, `CommandOptions.DefaultWhenAbsent` and `CommandOptions.DefaultInstallThenRun` state its cases. |
| CommandOptions.ParseCommandOptionsSpec | bin/utils/parseCommandOptions.ts:7-28 | The reference dispatch: the install flag gives the install, else the update flag gives the update, else the no-flag branch. It has no contract; `CommandOptions.ParseCommandOptions` is proved equal to it, and the `CommandOptions` lemmas state its cases. |
| CommandOptions.ParseCommandOptions | bin/utils/parseCommandOptions.ts:7-28 | The method, with its awaited calls and early returns, performs exactly the reference dispatch. Its existence checks are `existsSync`. |
| CommandOptions.InstallFlagFirst | bin/utils/parseCommandOptions.ts:12-15 | With the install flag, whatever the update flag, the call is one install and starts nothing. |
| CommandOptions.UpdateFlagOnly | bin/utils/parseCommandOptions.ts:17-20 | With only the update flag, the call is one update. It obtains nothing and starts nothing. |
| CommandOptions.DefaultWhenPresent | bin/utils/parseCommandOptions.ts:23-27 | With no flag and the binary present, there is only the run: no acquisition, and one spawn, last, with the unknown options unchanged. |
| CommandOptions.DefaultWhenAbsent | bin/utils/parseCommandOptions.ts:23-27 | With no flag and the binary absent, the install's actions come first. A rejected install ends the call. Otherwise the run's actions follow, in the host the install left: its files, in which the empty path never exists, and brew's prefix as reported after the install. |
| CommandOptions.InstallThenRun | bin/utils/parseCommandOptions.ts:23-27 | With no flag, the binary absent and a version found, there is exactly one acquisition. There is exactly one spawn if and only if the acquisition succeeded and the install's target is not empty. That spawn is last, starts the target and carries the unknown options. Otherwise there is none. |
| CommandOptions.DefaultInstallThenRun | bin/utils/parseCommandOptions.ts:23-27 | The same, for the no-flag branch on its own. In addition, after a successful install whose target is empty, the call ends normally with the "not installed" notice last and no spawn. |
| CommandOptions.BrewFallbackRequeries | bin/utils/parseCommandOptions.ts:23-27 | On a Mac with brew whose first prefix query throws, with no flag, a version found and a successful `brew install`: the install happens once and the call ends normally. If the prefix query `runCLI` repeats still throws, the "not installed" notice of bin/tasks/run.ts:9-13 is last and nothing is started. If it answers, the binary under that prefix is started once, last, without a shell. |
| Aptos.Caught | bin/aptos.ts:42 | A rejection is reported with its message as the last action and the task then ends normally. A normal end is left as it is. |
| Aptos.MainSpec | bin/aptos.ts:26-42 | The reference `main` with its `catch`: `--help` among the raw arguments gives the run with `program.args`, else the dispatch with the parsed flags. It has no contract; `Aptos.Launch` is proved equal to it, and the `Aptos` lemmas state its cases. |
| Aptos.Launch | bin/aptos.ts:26-42 | The entry method performs exactly the reference `main` with its `catch`, which dispatches to the reference run or `parseCommandOptions`. |
| Aptos.HelpShortCircuits | bin/aptos.ts:34-37 | With `--help` among the raw arguments, the run gets the unrecognised arguments, whatever the flags say. Nothing is looked up, installed or updated. |
| Aptos.NoHelpDispatches | bin/aptos.ts:27-39 | Without `--help`, the dispatcher gets the parsed flags and `program.args` unchanged. |
| Aptos.HelpLookAlikes | bin/aptos.ts:34 | Help detection is exact element membership: `--help=all` and `-h` are not help. |
| Aptos.HelpForwardsArgs | bin/aptos.ts:31-36 | With `--help` and the binary present, the last action is the spawn with exactly `program.args`. |
| Aptos.MainReportsFailures | bin/aptos.ts:42 | `main` never rejects. Its trace is the task's trace, followed by the error report if and only if the task rejected. |
| HelpOptions.HandleHelpOptions | bin/utils/handleHelpOptions.ts:11-38 | The merged help text: the first `Options:` of the CLI's help followed by a newline and the trimmed commander lines. It has no contract; the lemmas below state its properties. |
| HelpOptions.CommanderOptionsOnly | bin/utils/handleHelpOptions.ts:24-27 | Split on newlines, keep the lines `KeepLine` accepts, join on newlines. It has no contract; `HelpOptions.NothingDropped` and `HelpOptions.FilterMembers` state its effect. |
| HelpOptions.FilterLines | bin/utils/handleHelpOptions.ts:26 | No surviving line starts with `Usage` or `Options`, and there are no more lines than before. |
| HelpOptions.FilterConcat | bin/utils/handleHelpOptions.ts:24-27 | The filter works line by line: a concatenation filters part by part, so the kept lines stay in their original order. |
| HelpOptions.FilterMembers | bin/utils/handleHelpOptions.ts:26 | A line survives if and only if it is an input line that starts with neither word. |
| HelpOptions.FilterAllKept | bin/utils/handleHelpOptions.ts:26 | If every line is kept, the filter is the identity. |
| HelpOptions.NothingDropped | bin/utils/handleHelpOptions.ts:24-27 | If no commander line starts with those words, the split, filter and join give the text back unchanged. |
| HelpOptions.InsertedBlock | bin/utils/handleHelpOptions.ts:32 | The inserted block has no leading or trailing whitespace, and trimming it again changes nothing. |
| HelpOptions.NoOptionsHeading | bin/utils/handleHelpOptions.ts:30-33 | If the CLI help has no `Options:`, the combined text is the CLI help. |
| HelpOptions.SpliceAtFirstHeading | bin/utils/handleHelpOptions.ts:30-33 | At the first `Options:` the result is: the text up to and including it, a newline, the trimmed commander lines, then the rest untouched, later `Options:` included. |
| Strings.StartsWith | bin/utils/ghOperations.ts:15 | `startsWith`: the prefix is no longer than the text and equals its first characters. It is a predicate, with no contract. |
| Strings.Join | bin/utils/handleHelpOptions.ts:27 | `join` on one character. It has no contract; `Strings.SplitJoin` and `Strings.JoinSplit` relate it to `split`. |
| Strings.IndexOf | bin/utils/handleHelpOptions.ts:30 | `indexOf` from position 0, with `None` for -1. It has no contract; it is `Strings.IndexFrom` from 0. |
| Strings.ReplaceFirst | bin/utils/handleHelpOptions.ts:30-33 | `replace` with a string pattern: the text unchanged when the pattern is absent, else the first occurrence replaced. It has no contract; `Strings.ReplaceFirstAt` states it. |
| Strings.Trim | bin/utils/brewOperations.ts:10 | `trim` leaves neither a leading nor a trailing whitespace character and never lengthens. |
| Strings.TrimOfPadded | bin/utils/brewOperations.ts:10 | `trim` removes exactly the surrounding whitespace of a text that has none of its own. |
| Strings.Split | bin/utils/versions.ts:8 | `split` gives at least one piece, and no piece holds the separator. |
| Strings.SplitJoin | bin/utils/handleHelpOptions.ts:24-27 | Joining the pieces of a split gives the text back. |
| Strings.JoinSplit | bin/utils/handleHelpOptions.ts:24-27 | Splitting the join of separator-free lines gives the lines back. |
| Strings.SplitHasSecond | bin/tasks/update.ts:23 | A split has an element 1 if and only if the separator occurs. |
| Strings.IndexFrom | bin/utils/handleHelpOptions.ts:30 | The search finds an occurrence and none before it, or reports that there is none. |
| Strings.ReplaceFirstAt | bin/utils/handleHelpOptions.ts:30 | `replace` with a string pattern rewrites exactly the first occurrence and preserves both sides. |
| Strings.ReplaceFirstPrefix | bin/utils/ghOperations.ts:16 | When the text starts with the pattern, replacing it with `""` strips that prefix. |

## Left out

- Child processes are not executed. This covers `execSyncShell.ts`, `execSync`, `spawn` and `spawnSync`, and `stdio: "inherit"`. A command's output, or what it throws, is a field of `World`; `spawn` is one `Spawn` action. The process's own exit status is not modelled.
- `aptosExecutableIsAvailable.ts` is a `which` probe. It is the boolean `World.brewOnPath`.
- The shell commands of the downloads (powershell, curl, unzip, mv) and `brew install` are each one action with one outcome, `World.acquisition`. A download that succeeds but fails to move the file is not distinguished. On success the install's target exists afterwards. On Windows and Linux that is the computed path. For `brew install` it is brew's prefix, as the prefix query reports it after the install, followed by `/bin/aptos`. When that query throws, the target is the empty fallback: the model then records no new file, so `existsSync` stays false, as in Node.
- Each external query has one answer per invocation, whenever it is asked. The one exception is `brew --prefix aptos`, which has a second answer, `World.brewPrefixAfterInstall`, for the queries made after `brew install aptos` has succeeded. `which brew`, the releases listing, `openssl version` and `<binary> --version` are not changed by anything the wrapper does before it asks them again.
- The HTTP request and JSON decoding of the releases listing are not modelled. The listing is always obtained; network and JSON errors are not modelled. A release is just its `tag_name`, and a release object without one (a TypeError in `startsWith`) is not modelled.
- `getLatestVersionBrew` is not part of this model: its result is the input `World.brewLatest`.
- `consts.js` is not part of this model. `PNAME` and `GH_CLI_DOWNLOAD_URL` have no value here.
- commander is not modelled: argument parsing, `allowUnknownOption`, and `helpInformation()`. The parsed flags, `program.args`, the raw argument list and both help texts are inputs.
- In `handleHelpOptions`, the `spawnSync` capture and the final `console.log` are left out. The merged text is the function's result.
- Strings.ReplaceFirst: the replacement is taken literally. ECMAScript `$` substitution patterns (GetSubstitution) are not interpreted, so the model matches the code only when the commander text has no `$`.
- Strings are sequences of Unicode scalar values, while JavaScript strings are UTF-16 code units. Every constant and pattern here is ASCII.
- Asynchrony is not modelled. The unawaited `installCli()` of `updateCli` is appended to the trace in order. A rejection of it would be unhandled in Node rather than reaching `main`'s `catch`; the model drops its outcome. Its outcome is `Done` anyway, by `Update.UpdateWhenOutdated`.
- `runCLI` is one step; the spawned child runs on after it.
- `getOS` is called again after the path was found, in `installCli`, `runCLI`, and `getLatestVersion` (bin/utils/getAptosCliLatestVersion.ts:9) inside `updateCli`. A failure there cannot follow a found path, but the throw is modelled anyway, as in the code.
- `Update.UpdateWhenOutdated` speaks of the update's own `installCli()` call only. Installs that run in other invocations are out of scope.
- Caught: an error is its message string, and `ReportError` carries only that. `console.error` of an `Error` object, such as the `new Error` of bin/utils/getUserOs.ts:16 or an `execSync` failure, also prints the error's name and stack. Thrown strings, such as those of bin/utils/getLocalBinPath.ts:15 and bin/utils/ghOperations.ts:19, print as they are.
