/** getUserOs.ts: the host platform identifier mapped to an OS category. */
module UserOs {
  import opened Wrappers

  datatype Os = MacOS | Ubuntu | Windows

  /** The category's name as the source spells it (it appears in download URLs). */
  function OsName(os: Os): (name: string)
    ensures name in {"MacOS", "Ubuntu", "Windows"}
  {
    match os
    case MacOS => "MacOS"
    case Ubuntu => "Ubuntu"
    case Windows => "Windows"
  }

  /** `getOS`: a switch on `os.platform()` whose default throws. */
  function GetOs(platform: string): (r: Result<Os, string>)
    ensures r == Success(MacOS) <==> platform == "darwin"
    ensures r == Success(Ubuntu) <==> platform == "linux"
    ensures r == Success(Windows) <==> platform == "win32"
    ensures r.Failure? <==> platform !in {"darwin", "linux", "win32"}
    ensures r.Failure? ==> r.error == "Unsupported OS " + platform
  {
    match platform
    case "darwin" => Success(MacOS)
    case "linux" => Success(Ubuntu)
    case "win32" => Success(Windows)
    case _ => Failure("Unsupported OS " + platform)
  }

  /** The error names the rejected identifier: it is the message's suffix. */
  lemma UnsupportedNamesPlatform(platform: string)
    requires GetOs(platform).Failure?
    ensures GetOs(platform).error[|"Unsupported OS "|..] == platform
  {
  }
}
