/** brewOperations.ts: the binary's path under the Homebrew prefix of the `aptos` formula. */
module BrewOperations {
  import opened Wrappers
  import opened Strings

  const BIN_SUFFIX := "/bin/aptos"

  /** `getCliPathBrew`, given the outcome of `brew --prefix aptos` (its output, or the
      error the command threw): the trimmed prefix followed by `/bin/aptos`. */
  function GetCliPathBrew(prefixQuery: Result<string, string>): (r: Result<string, string>)
    ensures prefixQuery.Failure? ==> r == Failure(prefixQuery.error)
    ensures prefixQuery.Success? ==> r.Success? && EndsWith(r.value, BIN_SUFFIX)
    ensures prefixQuery.Success? ==> Trimmed(r.value[..|r.value| - |BIN_SUFFIX|])
  {
    match prefixQuery
    case Failure(e) => Failure(e)
    case Success(out) =>
      var directory := Trim(out);
      assert (directory + BIN_SUFFIX)[..|directory|] == directory;
      Success(directory + BIN_SUFFIX)
  }

  /** Whitespace around the prefix (the trailing newline of the command's output) does
      not reach the path. */
  lemma BrewPathOfPadded(lead: string, directory: string, trail: string)
    requires AllWhitespace(lead) && AllWhitespace(trail) && Trimmed(directory)
    ensures GetCliPathBrew(Success(lead + directory + trail)) == Success(directory + BIN_SUFFIX)
  {
    TrimOfPadded(lead, directory, trail);
  }
}
