/** The crawl engine's state as values: the claim table `link_stat`, the
    parsed-page table `link_data` and the frontier queue `q`. A step of
    `check_url` is a relation between two such states; the invariants the
    engine keeps, and what a drained crawl has claimed, are proved here. */
module CrawlSpec {
  import opened Types
  import Extract
  import Scope

  /** A page whose fetch returned a response and whose URL is in scope gets
      its links extracted. */
  predicate Expands(startUrl: Url, single: bool, url: Url, fetched: FetchOutcome)
  {
    fetched.Response? && Scope.InScopeAsWritten(startUrl, url, single)
  }

  /** `after` is `before` with the elements of `items` appended, each once,
      in some order. */
  ghost predicate Appended(before: seq<Url>, after: seq<Url>, items: set<Url>)
  {
    |before| <= |after| && after[..|before|] == before && multiset(after[|before|..]) == multiset(items)
  }

  /** One call of `check_url` for `url` whose fetch gives `fetched`, taking
      the tables and the queue from the first state to the second. A URL
      already in the claim table changes nothing. A fresh URL gets exactly
      one new entry, the outcome of its fetch; then, if the page expands,
      its links are stored and each unclaimed one is queued. */
  ghost predicate CheckStep(startUrl: Url, single: bool, url: Url, fetched: FetchOutcome,
                            stat: map<Url, Status>, data: map<Url, set<Url>>, queue: seq<Url>,
                            stat': map<Url, Status>, data': map<Url, set<Url>>, queue': seq<Url>)
  {
    if url in stat then
      stat' == stat && data' == data && queue' == queue
    else
      stat' == stat[url := Recorded(fetched)]
      && if Expands(startUrl, single, url, fetched) then
           data' == data[url := Extract.Links(fetched.body)]
           && Appended(queue, queue', Extract.Links(fetched.body) - stat'.Keys)
         else
           data' == data && queue' == queue
  }

  /** Every claim is resolved, and every parsed page was claimed and its
      fetch returned a response. */
  ghost predicate Resolved(stat: map<Url, Status>, data: map<Url, set<Url>>)
  {
    (forall k :: k in stat ==> stat[k] != Claimed)
    && (forall k :: k in data ==> k in stat && stat[k].Http?)
  }

  /** The tables hold what the network returned: each claimed URL the status
      of its fetch, each parsed page the links of its body, and every
      claimed page whose fetch expands has been parsed. */
  ghost predicate FaithfulTo(web: Url -> FetchOutcome, startUrl: Url, single: bool,
                             stat: map<Url, Status>, data: map<Url, set<Url>>)
  {
    (forall k :: k in stat ==> stat[k] == Recorded(web(k)))
    && (forall k :: k in data ==> web(k).Response? && data[k] == Extract.Links(web(k).body))
    && (forall k :: k in stat && Expands(startUrl, single, k, web(k)) ==> k in data)
  }

  /** Every link found on a parsed page has been claimed or is waiting in
      the queue. */
  ghost predicate ClosedUnder(stat: map<Url, Status>, data: map<Url, set<Url>>, queue: seq<Url>)
  {
    forall k, l :: k in data && l in data[k] ==> l in stat || l in queue
  }

  /** `u` is the start URL, or a link on a page, reachable within `n - 1`
      steps, whose fetch expands. */
  ghost predicate ReachableIn(web: Url -> FetchOutcome, startUrl: Url, single: bool, n: nat, u: Url)
    decreases n
  {
    u == startUrl
    || (n > 0 && exists p ::
          ReachableIn(web, startUrl, single, n - 1, p)
          && Expands(startUrl, single, p, web(p))
          && u in Extract.Links(web(p).body))
  }

  ghost predicate Reachable(web: Url -> FetchOutcome, startUrl: Url, single: bool, u: Url)
  {
    exists n: nat :: ReachableIn(web, startUrl, single, n, u)
  }

  /** Every claimed or queued URL is reachable from the start URL. */
  ghost predicate AllReachable(web: Url -> FetchOutcome, startUrl: Url, single: bool,
                               stat: map<Url, Status>, queue: seq<Url>)
  {
    (forall u :: u in stat ==> Reachable(web, startUrl, single, u))
    && (forall i :: 0 <= i < |queue| ==> Reachable(web, startUrl, single, queue[i]))
  }

  /** A step never rewrites or drops an entry: claimed URLs keep their
      status and parsed pages keep their links. */
  lemma CheckStepMonotone(startUrl: Url, single: bool, url: Url, fetched: FetchOutcome,
                          stat: map<Url, Status>, data: map<Url, set<Url>>, queue: seq<Url>,
                          stat': map<Url, Status>, data': map<Url, set<Url>>, queue': seq<Url>)
    requires Resolved(stat, data)
    requires CheckStep(startUrl, single, url, fetched, stat, data, queue, stat', data', queue')
    ensures url in stat'
    ensures forall k :: k in stat ==> k in stat' && stat'[k] == stat[k]
    ensures forall k :: k in data ==> k in data' && data'[k] == data[k]
    ensures stat'.Keys == stat.Keys + {url}
  {
  }

  /** A step keeps claims resolved and parses only pages it has resolved
      with a response. */
  lemma CheckStepKeepsResolved(startUrl: Url, single: bool, url: Url, fetched: FetchOutcome,
                               stat: map<Url, Status>, data: map<Url, set<Url>>, queue: seq<Url>,
                               stat': map<Url, Status>, data': map<Url, set<Url>>, queue': seq<Url>)
    requires Resolved(stat, data)
    requires CheckStep(startUrl, single, url, fetched, stat, data, queue, stat', data', queue')
    ensures Resolved(stat', data')
  {
  }

  /** A step that fetches from `web` keeps the tables faithful to it. */
  lemma CheckStepKeepsFaithful(web: Url -> FetchOutcome, startUrl: Url, single: bool, url: Url,
                               stat: map<Url, Status>, data: map<Url, set<Url>>, queue: seq<Url>,
                               stat': map<Url, Status>, data': map<Url, set<Url>>, queue': seq<Url>)
    requires Resolved(stat, data)
    requires FaithfulTo(web, startUrl, single, stat, data)
    requires CheckStep(startUrl, single, url, web(url), stat, data, queue, stat', data', queue')
    ensures FaithfulTo(web, startUrl, single, stat', data')
  {
  }

  /** What `Appended` keeps and adds: the old queue stays a prefix, and
      every appended element is one of the items, and conversely. */
  lemma AppendedMembers(before: seq<Url>, after: seq<Url>, items: set<Url>)
    requires Appended(before, after, items)
    ensures forall i :: 0 <= i < |before| ==> after[i] == before[i]
    ensures forall i :: |before| <= i < |after| ==> after[i] in items
    ensures forall x :: x in items ==> x in after
  {
    var added := after[|before|..];
    forall i | |before| <= i < |after|
      ensures after[i] in items
    {
      assert after[i] == added[i - |before|];
      assert after[i] in multiset(added);
    }
    forall x | x in items
      ensures x in after
    {
      assert x in multiset(added);
      var j :| 0 <= j < |added| && added[j] == x;
      assert after[|before| + j] == x;
    }
  }

  /** Popping `url` and checking it keeps every found link claimed or
      queued. */
  lemma CheckStepKeepsClosed(startUrl: Url, single: bool, url: Url, fetched: FetchOutcome,
                             stat: map<Url, Status>, data: map<Url, set<Url>>, rest: seq<Url>,
                             stat': map<Url, Status>, data': map<Url, set<Url>>, queue': seq<Url>)
    requires Resolved(stat, data)
    requires ClosedUnder(stat, data, [url] + rest)
    requires CheckStep(startUrl, single, url, fetched, stat, data, rest, stat', data', queue')
    ensures ClosedUnder(stat', data', queue')
  {
    if url in stat || !Expands(startUrl, single, url, fetched) {
      forall k, l | k in data' && l in data'[k]
        ensures l in stat' || l in queue'
      {
        assert l in stat || l in [url] + rest;
      }
    } else {
      var found := Extract.Links(fetched.body);
      AppendedMembers(rest, queue', found - stat'.Keys);
      forall k, l | k in data' && l in data'[k]
        ensures l in stat' || l in queue'
      {
        if k == url {
          assert l in found;
        } else {
          assert l in stat || l in [url] + rest;
          if l in rest {
            var i :| 0 <= i < |rest| && rest[i] == l;
            assert queue'[i] == l;
          }
        }
      }
    }
  }

  /** One more step of reach: a link on a reachable page that expands. */
  lemma ReachStep(web: Url -> FetchOutcome, startUrl: Url, single: bool, n: nat, p: Url, u: Url)
    requires ReachableIn(web, startUrl, single, n, p)
    requires Expands(startUrl, single, p, web(p)) && u in Extract.Links(web(p).body)
    ensures ReachableIn(web, startUrl, single, n + 1, u)
  {
  }

  /** Checking a reachable URL claims and queues only reachable URLs: the
      crawl never leaves the link graph of the start URL. */
  lemma CheckStepKeepsReachable(web: Url -> FetchOutcome, startUrl: Url, single: bool, url: Url, n: nat,
                                stat: map<Url, Status>, data: map<Url, set<Url>>, rest: seq<Url>,
                                stat': map<Url, Status>, data': map<Url, set<Url>>, queue': seq<Url>)
    requires ReachableIn(web, startUrl, single, n, url)
    requires AllReachable(web, startUrl, single, stat, rest)
    requires CheckStep(startUrl, single, url, web(url), stat, data, rest, stat', data', queue')
    ensures AllReachable(web, startUrl, single, stat', queue')
  {
    if url !in stat && Expands(startUrl, single, url, web(url)) {
      AppendedMembers(rest, queue', Extract.Links(web(url).body) - stat'.Keys);
      forall i | 0 <= i < |queue'|
        ensures Reachable(web, startUrl, single, queue'[i])
      {
        if i < |rest| {
          assert queue'[i] == rest[i];
        } else {
          ReachStep(web, startUrl, single, n, url, queue'[i]);
        }
      }
    }
  }

  /** A crawl whose queue has drained has claimed every URL reachable from
      the start URL. */
  lemma {:induction false} ReachableIsClaimed(web: Url -> FetchOutcome, startUrl: Url, single: bool,
                                              stat: map<Url, Status>, data: map<Url, set<Url>>,
                                              n: nat, u: Url)
    requires startUrl in stat
    requires FaithfulTo(web, startUrl, single, stat, data)
    requires ClosedUnder(stat, data, [])
    requires ReachableIn(web, startUrl, single, n, u)
    ensures u in stat
    decreases n
  {
    if u != startUrl {
      var p :| ReachableIn(web, startUrl, single, n - 1, p)
               && Expands(startUrl, single, p, web(p))
               && u in Extract.Links(web(p).body);
      ReachableIsClaimed(web, startUrl, single, stat, data, n - 1, p);
      assert p in data;
      assert u in data[p];
    }
  }
}
