/** ghOperations.ts: the latest version of the wrapped tool from the GitHub releases
    listing. The HTTP request is not modelled: the listing is an input, of which the
    one request sees the first page. */
module GhOperations {
  import opened Wrappers
  import opened Strings
  import opened Consts
  import opened Host

  const RELEASES_URL := "https://api.github.com/repos/aptos-labs/aptos-core/releases?per_page=100"
  /** The `per_page` of that request; no further page is requested. */
  const PER_PAGE := 100
  const NOT_FOUND := "Could not determine latest version of Aptos CLI"

  /** The tag prefix of the wrapped tool's releases. */
  function Prefix(): string {
    PNAME + "-v"
  }

  predicate IsCliRelease(release: Release) {
    StartsWith(release.tagName, Prefix())
  }

  /** What the one request returns of the whole listing, newest first: its first
      hundred releases, or all of them when there are fewer. */
  function FirstPage(releases: seq<Release>): (page: seq<Release>)
    ensures page <= releases
    ensures |page| == if |releases| <= PER_PAGE then |releases| else PER_PAGE
  {
    if |releases| <= PER_PAGE then releases else releases[..PER_PAGE]
  }

  /** Reference definition: the first CLI release of the page, with its first
      occurrence of the prefix replaced by nothing. */
  function LatestVersion(page: seq<Release>): (r: Result<string, string>)
    ensures r.Failure? ==> r == Failure(NOT_FOUND)
    ensures r.Success? ==> exists i :: 0 <= i < |page| && page[i].tagName == Prefix() + r.value
  {
    if page == [] then Failure(NOT_FOUND)
    else if IsCliRelease(page[0]) then Success(ReplaceFirst(page[0].tagName, Prefix(), ""))
    else LatestVersion(page[1..])
  }

  /** `getLatestVersionGh`: a `for...of` scan with an early return and a throw after the loop. */
  method GetLatestVersionGh(page: seq<Release>) returns (r: Result<string, string>)
    ensures r == LatestVersion(page)
    ensures r.Failure? <==> forall i :: 0 <= i < |page| ==> !IsCliRelease(page[i])
    ensures r.Failure? ==> r.error == NOT_FOUND
  {
    var i := 0;
    while i < |page|
      invariant 0 <= i <= |page|
      invariant forall j :: 0 <= j < i ==> !IsCliRelease(page[j])
      invariant LatestVersion(page[i..]) == LatestVersion(page)
    {
      var release := page[i];
      if StartsWith(release.tagName, Prefix()) {
        LatestVersionFound(page, i);
        return Success(ReplaceFirst(release.tagName, Prefix(), ""));
      }
      assert page[i..][1..] == page[i + 1..];
      i := i + 1;
    }
    LatestVersionAbsent(page);
    return Failure(NOT_FOUND);
  }

  /** First match wins: the version is the first CLI release's tag with the prefix
      stripped from its front. */
  lemma {:induction false} LatestVersionFound(page: seq<Release>, i: nat)
    requires i < |page| && IsCliRelease(page[i])
    requires forall j :: 0 <= j < i ==> !IsCliRelease(page[j])
    ensures LatestVersion(page) == Success(page[i].tagName[|Prefix()|..])
    ensures LatestVersion(page) == Success(ReplaceFirst(page[i].tagName, Prefix(), ""))
  {
    ReplaceFirstPrefix(page[i].tagName, Prefix());
    if i > 0 {
      LatestVersionFound(page[1..], i - 1);
    }
  }

  /** A CLI release's tag is the prefix followed by the rest of the tag. */
  lemma StripPrefix(tag: string)
    requires StartsWith(tag, Prefix())
    ensures tag == Prefix() + tag[|Prefix()|..]
  {
    assert tag == tag[..|Prefix()|] + tag[|Prefix()|..];
  }

  /** No CLI release on the page: the lookup fails with the fixed message. */
  lemma {:induction false} LatestVersionAbsent(page: seq<Release>)
    ensures LatestVersion(page) == Failure(NOT_FOUND) <==> forall i :: 0 <= i < |page| ==> !IsCliRelease(page[i])
  {
    if page != [] {
      LatestVersionAbsent(page[1..]);
      assert forall i :: 1 <= i < |page| ==> page[i] == page[1..][i - 1];
    }
  }

  /** A found version comes from a CLI release on the page, at index `i`, with no CLI
      release before it, and its tag is exactly the prefix followed by the version. */
  lemma {:induction false} LatestVersionSound(page: seq<Release>) returns (i: nat)
    requires LatestVersion(page).Success?
    ensures i < |page| && IsCliRelease(page[i])
    ensures forall j :: 0 <= j < i ==> !IsCliRelease(page[j])
    ensures page[i].tagName == Prefix() + LatestVersion(page).value
  {
    if IsCliRelease(page[0]) {
      i := 0;
      LatestVersionFound(page, 0);
      var tag := page[0].tagName;
      assert tag == tag[..|Prefix()|] + tag[|Prefix()|..];
    } else {
      var k := LatestVersionSound(page[1..]);
      i := k + 1;
      assert page[i] == page[1..][k];
      assert forall j :: 1 <= j < i ==> page[j] == page[1..][j - 1];
    }
  }

  /** The single page bounds the search: a CLI release beyond the first hundred is never
      found, whatever the listing holds. */
  lemma OnlyFirstPageSearched(releases: seq<Release>)
    requires forall i :: 0 <= i < |releases| && i < PER_PAGE ==> !IsCliRelease(releases[i])
    ensures LatestVersion(FirstPage(releases)) == Failure(NOT_FOUND)
  {
    LatestVersionAbsent(FirstPage(releases));
  }

  /** The single page is enough when a CLI release is among the first hundred, however
      long the listing: the first such release decides, with its prefix stripped. */
  lemma FoundOnFirstPage(releases: seq<Release>, i: nat)
    requires i < |releases| && i < PER_PAGE && IsCliRelease(releases[i])
    requires forall j :: 0 <= j < i ==> !IsCliRelease(releases[j])
    ensures LatestVersion(FirstPage(releases)) == Success(releases[i].tagName[|Prefix()|..])
  {
    var page := FirstPage(releases);
    assert page[i] == releases[i];
    assert forall j :: 0 <= j < i ==> page[j] == releases[j];
    LatestVersionFound(page, i);
  }

  /** The example tag: the prefix followed by 3.2.1 gives version 3.2.1. */
  lemma LatestVersionExample(other: string)
    requires !StartsWith(other, Prefix())
    ensures LatestVersion([Release(other), Release(Prefix() + "3.2.1"), Release(Prefix() + "3.2.0")]) == Success("3.2.1")
  {
    var page := [Release(other), Release(Prefix() + "3.2.1"), Release(Prefix() + "3.2.0")];
    assert (Prefix() + "3.2.1")[..|Prefix()|] == Prefix();
    LatestVersionFound(page, 1);
    assert (Prefix() + "3.2.1")[|Prefix()|..] == "3.2.1";
  }
}
