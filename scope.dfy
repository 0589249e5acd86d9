/** The test `check_url` applies before parsing a fetched page: the page's
    URL must begin with the start URL and, in single-page mode, must be the
    start URL itself.

    The source tests the first part with `re.match(start_url, url)`, which
    reads the start URL as a regular expression. `RegexPrefixMatch` models
    that reading for a start URL whose only metacharacter is `.`, which
    matches any character but a line break; every other character is
    literal. The engine uses this test as written. `InScope` is the
    literal-prefix test the source evidently means. */
module Scope {

  /** One pattern character against one URL character under `re.match`. */
  predicate CharMatches(p: char, c: char)
  {
    if p == '.' then c != '\n' else p == c
  }

  /** `re.match(pattern, url)` succeeds, for a pattern whose only
      metacharacter is `.`. */
  predicate RegexPrefixMatch(pattern: string, url: string)
  {
    |pattern| <= |url| && forall i :: 0 <= i < |pattern| ==> CharMatches(pattern[i], url[i])
  }

  /** The scope test as the source writes it. */
  predicate InScopeAsWritten(startUrl: string, url: string, single: bool)
  {
    RegexPrefixMatch(startUrl, url) && (!single || url == startUrl)
  }

  /** The scope test as the source means it: a literal prefix. */
  predicate InScope(startUrl: string, url: string, single: bool)
  {
    startUrl <= url && (!single || url == startUrl)
  }

  /** In single-page mode exactly the start URL is parsed, under either
      test. */
  lemma SingleModeParsesOnlySeed(startUrl: string, url: string)
    ensures InScopeAsWritten(startUrl, url, true) <==> url == startUrl
    ensures InScope(startUrl, url, true) <==> url == startUrl
  {
    if url == startUrl {
      InScopeWithinAsWritten(startUrl, url, true);
    }
  }

  /** Outside single-page mode a URL is in scope exactly when it is the start
      URL followed by some suffix. */
  lemma InScopeIsExtension(startUrl: string, url: string)
    ensures InScope(startUrl, url, false) <==> exists suffix :: url == startUrl + suffix
  {
    if startUrl <= url {
      assert url == startUrl + url[|startUrl|..];
    }
  }

  /** The literal test never admits a page the source's test refuses. */
  lemma InScopeWithinAsWritten(startUrl: string, url: string, single: bool)
    requires InScope(startUrl, url, single)
    ensures InScopeAsWritten(startUrl, url, single)
  {
    assert forall i :: 0 <= i < |startUrl| ==> url[i] == startUrl[i];
  }

  /** For a start URL without a `.`, the two tests agree. */
  lemma AsWrittenAgreesWithoutDot(startUrl: string, url: string, single: bool)
    requires '.' !in startUrl
    ensures InScopeAsWritten(startUrl, url, single) <==> InScope(startUrl, url, single)
  {
    if RegexPrefixMatch(startUrl, url) {
      forall i | 0 <= i < |startUrl|
        ensures url[i] == startUrl[i]
      {
        assert startUrl[i] in startUrl;
      }
      assert url[..|startUrl|] == startUrl;
    }
    if InScope(startUrl, url, single) {
      InScopeWithinAsWritten(startUrl, url, single);
    }
  }

  /** The source's test lets a page on another host through: the dots of the
      start URL match any character. */
  lemma AsWrittenAdmitsOtherHost()
    ensures InScopeAsWritten("http://a.com/", "http://abcom/x", false)
    ensures !InScope("http://a.com/", "http://abcom/x", false)
  {
    var p, u := "http://a.com/", "http://abcom/x";
    assert u[8] != p[8];
  }
}
