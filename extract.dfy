/** The link extractor of `parse_link`: the set of all non-overlapping
    matches of an `href="..."` pattern in a page body, scanned left to right
    as Python's `re.findall` does.

    The source's pattern is `href="([^#].*?)"`: one character that is not
    `#` (a line break or a double quote included), then the shortest run of
    characters that are neither a line break nor a double quote, ended by a
    double quote. Because its first character may be the closing quote of
    an empty `href=""`, such a match runs on to the next quote and swallows
    the link written after it. The corrected pattern `href="([^#"].*?)"`
    also refuses a double quote as the first character. The engine uses
    the source's pattern; the corrected one is here to state what the
    source evidently intends. */
module Extract {
  import opened Types

  /** Which of the two patterns a scan uses. */
  datatype Pattern = AsWritten | Corrected

  /** The literal text that opens every match. */
  const Opening: string := "href=\""

  datatype Match = Match(link: string, end: nat)

  /** The first character of the group: never `#`, and under the corrected
      pattern never a double quote. */
  predicate FirstAllowed(p: Pattern, c: char)
  {
    c != '#' && (p == AsWritten || c != '"')
  }

  /** No character of `s` in [i, k) is a double quote or a line break. */
  ghost predicate PlainBetween(s: string, i: int, k: int)
    requires 0 <= i <= k <= |s|
  {
    forall j :: i <= j < k ==> s[j] != '"' && s[j] != '\n'
  }

  /** A string the group of pattern `p` can capture. */
  ghost predicate IsLink(p: Pattern, g: string)
  {
    |g| > 0 && FirstAllowed(p, g[0]) && PlainBetween(g, 1, |g|)
  }

  /** `t` is written in `s` starting at index `i`. */
  ghost predicate OccursAt(t: string, s: string, i: int)
  {
    0 <= i <= |s| - |t| && s[i..i + |t|] == t
  }

  /** `t` occurs somewhere inside `s`. */
  ghost predicate Occurs(t: string, s: string)
  {
    exists i :: OccursAt(t, s, i)
  }

  /** The text a match of the link `g` spans. */
  function Written(g: string): string
  {
    Opening + g + "\""
  }

  /** Where the lazy run `.*?` that starts at `i` stops: the first double
      quote at or after `i`, or nothing when a line break or the end of the
      text comes first. */
  function CloseAt(s: string, i: nat): (r: Option<nat>)
    requires i <= |s|
    ensures r.Some? ==> i <= r.value < |s| && s[r.value] == '"' && PlainBetween(s, i, r.value)
    ensures r.None? ==> forall k :: i <= k < |s| && PlainBetween(s, i, k) ==> s[k] != '"'
    decreases |s| - i
  {
    if i == |s| then None
    else if s[i] == '"' then Some(i)
    else if s[i] == '\n' then None
    else CloseAt(s, i + 1)
  }

  /** The match of pattern `p` that starts at the first character of `s`,
      if any. */
  function MatchAt(p: Pattern, s: string): (r: Option<Match>)
    ensures r.Some? ==> r.value.end <= |s| && s[..r.value.end] == Written(r.value.link) && IsLink(p, r.value.link)
  {
    if |s| > |Opening| && s[..|Opening|] == Opening && FirstAllowed(p, s[|Opening|]) then
      match CloseAt(s, |Opening| + 1)
      case None => None
      case Some(k) =>
        var g := s[|Opening|..k];
        assert s[..k + 1] == s[..|Opening|] + g + [s[k]];
        Some(Match(g, k + 1))
    else
      None
  }

  /** All matches of pattern `p` in `s`, in the order `re.findall` returns
      them. */
  function FindAll(p: Pattern, s: string): (r: seq<string>)
    ensures forall l :: l in r ==> IsLink(p, l)
    decreases |s|
  {
    if s == [] then []
    else
      match MatchAt(p, s)
      case Some(m) => [m.link] + FindAll(p, s[m.end..])
      case None => FindAll(p, s[1..])
  }

  /** Every match is written in the text it was found in. */
  lemma {:induction false} FindAllOccurs(p: Pattern, s: string)
    ensures forall l :: l in FindAll(p, s) ==> Occurs(Written(l), s)
    decreases |s|
  {
    if s != [] {
      var skip := match MatchAt(p, s) case Some(m) => m.end case None => 1;
      var rest := s[skip..];
      FindAllOccurs(p, rest);
      forall l | l in FindAll(p, s)
        ensures Occurs(Written(l), s)
      {
        var t := Written(l);
        if MatchAt(p, s).Some? && l == MatchAt(p, s).value.link {
          assert OccursAt(t, s, 0);
        } else {
          assert l in FindAll(p, rest);
          var j :| OccursAt(t, rest, j);
          assert s[skip + j..skip + j + |t|] == rest[j..j + |t|];
          assert OccursAt(t, s, skip + j);
        }
      }
    }
  }

  /** The run that starts after the first character of a link stops exactly
      at the quote written after it. */
  lemma {:induction false} CloseAtWritten(s: string, i: nat, k: nat)
    requires i <= k < |s| && s[k] == '"' && PlainBetween(s, i, k)
    ensures CloseAt(s, i) == Some(k)
    decreases k - i
  {
    if i < k {
      CloseAtWritten(s, i + 1, k);
    }
  }

  /** A text that begins with a written link matches exactly that link, and
      the scan then goes on right after its closing quote. */
  lemma MatchAtWritten(p: Pattern, g: string, rest: string)
    requires IsLink(p, g)
    ensures MatchAt(p, Written(g) + rest) == Some(Match(g, |g| + 7))
  {
    var s := Written(g) + rest;
    assert s[..|Opening|] == Opening;
    assert s[|Opening|] == g[0];
    assert forall j :: 1 <= j < |g| ==> s[|Opening| + j] == g[j];
    CloseAtWritten(s, |Opening| + 1, |Opening| + |g|);
    assert s[|Opening|..|Opening| + |g|] == g;
  }

  /** The scan is complete at the front: a written link is found, and the
      rest of the text is scanned on its own. */
  lemma FindAllWritten(p: Pattern, g: string, rest: string)
    requires IsLink(p, g)
    ensures FindAll(p, Written(g) + rest) == [g] + FindAll(p, rest)
  {
    var s := Written(g) + rest;
    MatchAtWritten(p, g, rest);
    assert s[|g| + 7..] == rest;
  }

  /** No match starts at a character other than `h`. */
  lemma FindAllSkip(p: Pattern, s: string)
    requires s != [] && s[0] != 'h'
    ensures FindAll(p, s) == FindAll(p, s[1..])
  {
    if |s| > |Opening| {
      assert s[..|Opening|][0] != Opening[0];
    }
  }

  /** Under the corrected pattern an empty `href=""` contributes no link and
      hides none: the scan of what follows it is unchanged. */
  lemma CorrectedSkipsEmptyHref(rest: string)
    ensures FindAll(Corrected, Written("") + rest) == FindAll(Corrected, rest)
  {
    var s := Written("") + rest;
    assert MatchAt(Corrected, s) == None by {
      assert s[|Opening|] == '"';
    }
    assert FindAll(Corrected, s) == FindAll(Corrected, s[1..]);
    var i := 1;
    while i < 7
      invariant 1 <= i <= 7
      invariant FindAll(Corrected, s) == FindAll(Corrected, s[i..])
    {
      assert s[i..][0] == s[i] != 'h';
      FindAllSkip(Corrected, s[i..]);
      assert s[i..][1..] == s[i + 1..];
      i := i + 1;
    }
    assert s[7..] == rest;
  }

  /** Under the corrected pattern no captured link holds a double quote. */
  lemma CorrectedLinksHaveNoQuote(s: string)
    ensures forall l :: l in FindAll(Corrected, s) ==> '"' !in l
  {
    forall l | l in FindAll(Corrected, s)
      ensures '"' !in l
    {
      assert IsLink(Corrected, l);
      forall j | 0 <= j < |l| ensures l[j] != '"' {
      }
    }
  }

  /** An empty `href=""`, a space, then the link `link` written out. */
  function EmptyHrefThen(link: string): string
  {
    Written("") + " " + Written(link)
  }

  /** The source's pattern on an empty `href=""` followed by a link on the
      same line: the match runs from the empty value's closing quote to the
      next link's opening quote, the garbage link `" href=` is returned and
      the real link is lost. */
  lemma AsWrittenSwallowsLinkAfterEmptyHref(link: string)
    requires IsLink(Corrected, link)
    ensures "\" href=" in FindAll(AsWritten, EmptyHrefThen(link))
    ensures link !in FindAll(AsWritten, EmptyHrefThen(link))
  {
    var g := "\" href=";
    var tail := link + "\"";
    assert IsLink(AsWritten, g);
    assert EmptyHrefThen(link) == Written(g) + tail by {
      assert Written("") + " " == Opening + g[..2];
      assert Opening + g[..2] + Written(link) == Opening + g + "\"" + tail;
    }
    FindAllWritten(AsWritten, g, tail);
    forall l | l in FindAll(AsWritten, tail)
      ensures l != link
    {
      FindAllOccurs(AsWritten, tail);
      var i :| OccursAt(Written(l), tail, i);
    }
  }

  /** The corrected pattern on the same text finds exactly the real link. */
  lemma CorrectedFindsLinkAfterEmptyHref(link: string)
    requires IsLink(Corrected, link)
    ensures FindAll(Corrected, EmptyHrefThen(link)) == [link]
  {
    var r := " " + Written(link);
    assert EmptyHrefThen(link) == Written("") + r;
    CorrectedSkipsEmptyHref(r);
    FindAllSkip(Corrected, r);
    assert r[1..] == Written(link) + [];
    FindAllWritten(Corrected, link, []);
    assert FindAll(Corrected, []) == [];
  }

  /** The set `parse_link` stores for a body: the matches of the source's
      own pattern, duplicates dropped. */
  function Links(body: string): set<Url>
  {
    set l | l in FindAll(AsWritten, body)
  }

  /** Each link `parse_link` stores is one the source's pattern can capture,
      and is written, quotes and all, in the body. */
  lemma LinksAreWritten(body: string)
    ensures forall l :: l in Links(body) ==> IsLink(AsWritten, l) && Occurs(Written(l), body)
  {
    FindAllOccurs(AsWritten, body);
  }
}
