/**
 * The host scheme of a client hostname: the longest leading run of ASCII
 * letters, so that `devvm001.lla1.facebook.com` becomes `devvm`.
 *
 * Rust's `str::find` yields a byte offset and `truncate` cuts at one; every
 * character before the cut is an ASCII letter, one byte each, so the byte
 * offset is the character index used here.
 */
module Hostname {
  import opened Wrappers

  predicate IsAsciiAlphabetic(c: char) {
    'a' <= c <= 'z' || 'A' <= c <= 'Z'
  }

  predicate AllAlphabetic(s: string) {
    forall i :: 0 <= i < |s| ==> IsAsciiAlphabetic(s[i])
  }

  /** The index of the first character that is not an ASCII letter, if any. */
  function FindNonAlphabetic(s: string): (r: Option<nat>)
    ensures r.None? <==> AllAlphabetic(s)
    ensures r.Some? ==> r.value < |s| && !IsAsciiAlphabetic(s[r.value]) && AllAlphabetic(s[..r.value])
    decreases |s|
  {
    if s == [] then None
    else if !IsAsciiAlphabetic(s[0]) then Some(0)
    else match FindNonAlphabetic(s[1..])
      case None => None
      case Some(i) =>
        assert s[..i + 1] == [s[0]] + s[1..][..i];
        Some(i + 1)
  }

  function HostnameScheme(hostname: string): (scheme: string)
    ensures |scheme| <= |hostname| && scheme == hostname[..|scheme|]
    ensures AllAlphabetic(scheme)
    ensures |scheme| < |hostname| ==> !IsAsciiAlphabetic(hostname[|scheme|])
  {
    match FindNonAlphabetic(hostname)
    case Some(index) => hostname[..index]
    case None => hostname
  }

  /** A hostname made only of ASCII letters, the empty one included, is its own scheme. */
  lemma AllLettersUnchanged(hostname: string)
    requires AllAlphabetic(hostname)
    ensures HostnameScheme(hostname) == hostname
  {
  }

  /** The scheme is the unique longest alphabetic prefix. */
  lemma SchemeIsLongestAlphabeticPrefix(hostname: string, k: nat)
    requires k <= |hostname| && AllAlphabetic(hostname[..k])
    requires k < |hostname| ==> !IsAsciiAlphabetic(hostname[k])
    ensures HostnameScheme(hostname) == hostname[..k]
  {
  }

  /** Taking the scheme of a scheme changes nothing. */
  lemma SchemeIdempotent(hostname: string)
    ensures HostnameScheme(HostnameScheme(hostname)) == HostnameScheme(hostname)
  {
    AllLettersUnchanged(HostnameScheme(hostname));
  }

  /** The first example of the documentation comment. */
  lemma DevvmExample()
    ensures HostnameScheme("devvm001.lla1.facebook.com") == "devvm"
  {
    var h := "devvm001.lla1.facebook.com";
    assert h[..5] == "devvm" && h[5] == '0';
    SchemeIsLongestAlphabeticPrefix(h, 5);
  }

  /** The second example of the documentation comment. */
  lemma HgExample()
    ensures HostnameScheme("hg001.lla1.facebook.com") == "hg"
  {
    var h := "hg001.lla1.facebook.com";
    assert h[..2] == "hg" && h[2] == '0';
    SchemeIsLongestAlphabeticPrefix(h, 2);
  }
}
