/** handleHelpOptions.ts: merge commander's option lines into the real CLI's help text.
    Both texts are inputs: the CLI's is the captured output of the child process, and
    commander's is what `program.helpInformation()` generates. */
module HelpOptions {
  import opened Strings

  const OPTIONS := "Options:"

  /** A commander line survives unless it starts with `Usage` or `Options`. */
  predicate KeepLine(line: string) {
    !StartsWith(line, "Usage") && !StartsWith(line, "Options")
  }

  /** `Array.prototype.filter` with `KeepLine`. */
  function FilterLines(lines: seq<string>): (r: seq<string>)
    ensures |r| <= |lines|
    ensures forall i :: 0 <= i < |r| ==> KeepLine(r[i])
  {
    if lines == [] then []
    else if KeepLine(lines[0]) then [lines[0]] + FilterLines(lines[1..])
    else FilterLines(lines[1..])
  }

  /** Commander's help text without its `Usage` and `Options` lines. */
  function CommanderOptionsOnly(commanderHelp: string): string {
    Join(FilterLines(Split(commanderHelp, '\n')), '\n')
  }

  /** Reference definition of `handleHelpOptions`, less the spawn and the print: the CLI's
      first `Options:` gains a newline and the trimmed commander lines after it. */
  function HandleHelpOptions(cliHelp: string, commanderHelp: string): string {
    ReplaceFirst(cliHelp, OPTIONS, OPTIONS + "\n" + Trim(CommanderOptionsOnly(commanderHelp)))
  }

  /** The filter works line by line: filtering a concatenation filters each part, so the
      surviving lines keep their order. */
  lemma {:induction false} FilterConcat(a: seq<string>, b: seq<string>)
    ensures FilterLines(a + b) == FilterLines(a) + FilterLines(b)
  {
    if a == [] {
      assert a + b == b;
    } else {
      assert (a + b)[0] == a[0] && (a + b)[1..] == a[1..] + b;
      FilterConcat(a[1..], b);
    }
  }

  /** A line survives exactly when it is one of the input lines and is kept. */
  lemma {:induction false} FilterMembers(lines: seq<string>, line: string)
    ensures line in FilterLines(lines) <==> line in lines && KeepLine(line)
  {
    if lines != [] {
      FilterMembers(lines[1..], line);
      assert lines == [lines[0]] + lines[1..];
    }
  }

  /** When every line is kept, the filter changes nothing. */
  lemma {:induction false} FilterAllKept(lines: seq<string>)
    requires forall i :: 0 <= i < |lines| ==> KeepLine(lines[i])
    ensures FilterLines(lines) == lines
  {
    if lines != [] {
      FilterAllKept(lines[1..]);
    }
  }

  /** No line of commander's text starts with `Usage` or `Options`: the split, filter and
      join give the text back unchanged. */
  lemma NothingDropped(commanderHelp: string)
    requires forall i :: 0 <= i < |Split(commanderHelp, '\n')| ==> KeepLine(Split(commanderHelp, '\n')[i])
    ensures CommanderOptionsOnly(commanderHelp) == commanderHelp
  {
    FilterAllKept(Split(commanderHelp, '\n'));
    SplitJoin(commanderHelp, '\n');
  }

  /** The inserted block has no leading or trailing whitespace, and trimming it again
      changes nothing. */
  lemma InsertedBlock(commanderHelp: string)
    ensures Trimmed(Trim(CommanderOptionsOnly(commanderHelp)))
    ensures Trim(Trim(CommanderOptionsOnly(commanderHelp))) == Trim(CommanderOptionsOnly(commanderHelp))
  {
    TrimIdempotent(CommanderOptionsOnly(commanderHelp));
  }

  /** A CLI help text without `Options:` is printed as it is. */
  lemma NoOptionsHeading(cliHelp: string, commanderHelp: string)
    requires forall k :: 0 <= k ==> !OccursAt(cliHelp, OPTIONS, k)
    ensures HandleHelpOptions(cliHelp, commanderHelp) == cliHelp
  {
    ReplaceFirstAbsent(cliHelp, OPTIONS, OPTIONS + "\n" + Trim(CommanderOptionsOnly(commanderHelp)));
  }

  /** Replacing the first `Options:` by itself, a newline and `block`. */
  lemma SpliceBlock(cliHelp: string, block: string, i: nat)
    requires OccursAt(cliHelp, OPTIONS, i)
    requires forall k :: 0 <= k < i ==> !OccursAt(cliHelp, OPTIONS, k)
    ensures ReplaceFirst(cliHelp, OPTIONS, OPTIONS + "\n" + block) ==
      cliHelp[..i + |OPTIONS|] + "\n" + block + cliHelp[i + |OPTIONS|..]
  {
    ReplaceFirstAt(cliHelp, OPTIONS, OPTIONS + "\n" + block, i);
    assert cliHelp[..i + |OPTIONS|] == cliHelp[..i] + OPTIONS;
  }

  /** At the first `Options:`, at index `i`: the text up to and including it, then a
      newline and the trimmed commander lines, then the rest of the text unchanged, later
      `Options:` headings included. */
  lemma SpliceAtFirstHeading(cliHelp: string, commanderHelp: string, i: nat)
    requires OccursAt(cliHelp, OPTIONS, i)
    requires forall k :: 0 <= k < i ==> !OccursAt(cliHelp, OPTIONS, k)
    ensures HandleHelpOptions(cliHelp, commanderHelp) ==
      cliHelp[..i + |OPTIONS|] + "\n" + Trim(CommanderOptionsOnly(commanderHelp)) + cliHelp[i + |OPTIONS|..]
  {
    SpliceBlock(cliHelp, Trim(CommanderOptionsOnly(commanderHelp)), i);
  }
}
