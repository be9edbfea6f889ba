/** versions.ts: the OpenSSL version from the output of `openssl version`. */
module Versions {
  import opened Wrappers
  import opened Strings

  /** What Node throws for `undefined.trim()`. */
  const UNDEFINED_TRIM := "TypeError: Cannot read properties of undefined (reading 'trim')"

  /** `getCurrentOpenSSLVersion`, given the command's output: element 1 of the output
      split on one space, trimmed. The output itself is not trimmed first. */
  function GetCurrentOpenSslVersion(out: string): (r: Result<string, string>)
    ensures r.Success? <==> ' ' in out
    ensures r.Failure? ==> r.error == UNDEFINED_TRIM
    ensures r.Success? ==> Trimmed(r.value) && ' ' !in r.value
  {
    var tokens := Split(out, ' ');
    SplitHasSecond(out, ' ');
    if |tokens| < 2 then Failure(UNDEFINED_TRIM) else Success(Trim(tokens[1]))
  }

  /** Element 1 of the split is the word after the first space, up to the next space. */
  lemma {:induction false} SecondPiece(name: string, word: string, after: string)
    requires ' ' !in name && ' ' !in word
    requires after == [] || after[0] == ' '
    ensures |Split(name + [' '] + word + after, ' ')| >= 2
    ensures Split(name + [' '] + word + after, ' ')[1] == word
  {
    assert name + [' '] + word + after == name + [' '] + (word + after);
    SplitAfterFirst(name, ' ', word + after);
    if after == [] {
      assert word + after == word;
      SplitWithoutSeparator(word, ' ');
    } else {
      assert word + after == word + [' '] + after[1..];
      SplitAfterFirst(word, ' ', after[1..]);
    }
  }

  /** The version is the second word, whatever follows it and whatever whitespace
      other than a space (a newline, say) ends it. */
  lemma SecondWord(name: string, version: string, pad: string, rest: string)
    requires ' ' !in name && ' ' !in version && ' ' !in pad
    requires Trimmed(version) && AllWhitespace(pad)
    ensures GetCurrentOpenSslVersion(name + " " + version + pad) == Success(version)
    ensures GetCurrentOpenSslVersion(name + " " + version + pad + " " + rest) == Success(version)
  {
    var word := version + pad;
    assert ' ' !in word;
    assert [] + version + pad == word;
    TrimOfPadded([], version, pad);
    assert name + " " + version + pad == name + [' '] + word + [];
    SecondPiece(name, word, []);
    assert name + " " + version + pad + " " + rest == name + [' '] + word + ([' '] + rest);
    SecondPiece(name, word, [' '] + rest);
  }

  /** Splitting is on a single space: two spaces after the first word make element 1
      the empty token, so the version read is empty. */
  lemma DoubleSpaceGivesEmpty(name: string, rest: string)
    requires ' ' !in name
    ensures GetCurrentOpenSslVersion(name + "  " + rest) == Success("")
  {
    assert name + "  " + rest == name + [' '] + ("" + [' '] + rest);
    SplitAfterFirst(name, ' ', "" + [' '] + rest);
    SplitAfterFirst("", ' ', rest);
  }
}
