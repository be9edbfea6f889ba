/** The package constants the wrapper imports from `consts.js`. That file is not part of
    this model, so both are opaque: the proofs hold for every value. */
module Consts {
  /** `PNAME`, the name of the wrapped tool's package and release tags. */
  const PNAME: string

  /** `GH_CLI_DOWNLOAD_URL`, the base of the release archive downloads. */
  const GH_CLI_DOWNLOAD_URL: string
}
