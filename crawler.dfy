/** The crawl engine as the source runs it: three shared tables updated in
    place by `check_url` and `parse_link`, and the loop of `main` that feeds
    them from the queue. Each `with mutex:` block and each pool task runs to
    completion before the next begins. */
module Engine {
  import opened Types
  import Extract
  import Scope
  import opened CrawlSpec
  import CrawlReport

  class Crawler {
    /** `args.url` and `args.single`, which `main` passes to every task. */
    const startUrl: Url
    const single: bool
    /** `link_stat`: every URL claimed so far and its status. */
    var linkStat: map<Url, Status>
    /** `link_data`: every parsed page and the set of links found on it. */
    var linkData: map<Url, set<Url>>
    /** `q`: the frontier, oldest first. */
    var queue: seq<Url>
    /** The URLs fetched so far, in order. */
    ghost var fetchLog: seq<Url>

    /** Between steps: no claim is left unresolved, only fetched pages are
        parsed and only in scope, and each claimed URL was fetched exactly
        once. */
    ghost predicate Valid()
      reads this
    {
      && Resolved(linkStat, linkData)
      && (forall k :: k in linkData ==> Scope.InScopeAsWritten(startUrl, k, single))
      && (forall i, j :: 0 <= i < j < |fetchLog| ==> fetchLog[i] != fetchLog[j])
      && (forall u :: u in fetchLog <==> u in linkStat)
    }

    constructor (startUrl: Url, single: bool)
      ensures Valid()
      ensures this.startUrl == startUrl && this.single == single
      ensures linkStat == map[] && linkData == map[] && queue == [] && fetchLog == []
    {
      this.startUrl := startUrl;
      this.single := single;
      linkStat := map[];
      linkData := map[];
      queue := [];
      fetchLog := [];
    }

    /** `parse_link`: store the set of links found in the body, then queue
        each one that nobody has claimed. */
    method ParseLink(url: Url, body: string)
      requires Valid()
      requires url in linkStat && linkStat[url].Http? && Scope.InScopeAsWritten(startUrl, url, single)
      modifies this
      ensures Valid()
      ensures linkStat == old(linkStat) && fetchLog == old(fetchLog)
      ensures linkData == old(linkData)[url := Extract.Links(body)]
      ensures Appended(old(queue), queue, Extract.Links(body) - linkStat.Keys)
    {
      var urlset := Extract.Links(body);
      linkData := linkData[url := urlset];
      QueueUnclaimed(urlset);
    }

    /** The loop of `parse_link`: walk the links in some order and queue each
        one that is not a key of the claim table. */
    method QueueUnclaimed(urlset: set<Url>)
      modifies this`queue
      ensures Appended(old(queue), queue, urlset - linkStat.Keys)
    {
      var rest := urlset;
      ghost var added: seq<Url> := [];
      ghost var done: set<Url> := {};
      while rest != {}
        invariant rest <= urlset
        invariant forall x :: x in done <==> x in urlset && x !in rest && x !in linkStat
        invariant queue == old(queue) + added && multiset(added) == multiset(done)
        decreases rest
      {
        var it :| it in rest;
        rest := rest - {it};
        if it !in linkStat {
          assert it !in done;
          queue := queue + [it];
          assert multiset(done + {it}) == multiset(done) + multiset{it};
          added, done := added + [it], done + {it};
        }
      }
      assert done == urlset - linkStat.Keys;
      assert queue[|old(queue)|..] == added;
    }

    /** `check_url`: claim the URL if nobody has, record the outcome of its
        fetch, and parse the page when the fetch returned a response and the
        URL is in scope. The fetch happens only for a URL this call claimed. */
    method CheckUrl(url: Url, fetched: FetchOutcome)
      requires Valid()
      modifies this
      ensures Valid()
      ensures CheckStep(startUrl, single, url, fetched, old(linkStat), old(linkData), old(queue),
                        linkStat, linkData, queue)
      ensures fetchLog == if url in old(linkStat) then old(fetchLog) else old(fetchLog) + [url]
    {
      if url in linkStat {
        return;
      }
      linkStat := linkStat[url := Claimed];
      fetchLog := fetchLog + [url];
      match fetched
      case Raised(text) =>
        linkStat := linkStat[url := Failed(text)];
      case Response(code, body) =>
        linkStat := linkStat[url := Http(code)];
        if Scope.InScopeAsWritten(startUrl, url, single) {
          ParseLink(url, body);
        }
    }

    /** The report `main` writes after the crawl: every parsed page once,
        with its own status, which is an HTTP status, and the list of its
        links whose status is missing or not 200. The `link_stat[k]` lookup
        cannot fail, since every parsed page has been claimed. */
    method Report() returns (pages: seq<CrawlReport.PageReport>)
      requires Valid()
      ensures (set p | p in pages :: p.page) == linkData.Keys
      ensures forall i, j :: 0 <= i < j < |pages| ==> pages[i].page != pages[j].page
      ensures forall p :: p in pages ==>
        p.page in linkData && p.status == linkStat[p.page] && p.status.Http?
        && CrawlReport.ErrorListOf(p.errors, linkData[p.page], linkStat)
    {
      pages := CrawlReport.PageReports(linkData, linkStat);
    }

    /** The loop of `main`: put the start URL in the queue, then pop URLs
        and check each until the queue is empty or `fuel` steps are done.
        `web` gives the outcome of fetching each URL; since no URL is
        fetched twice, one fixed outcome per URL loses nothing. */
    method Crawl(web: Url -> FetchOutcome, fuel: nat) returns (quiescent: bool)
      requires Valid()
      requires linkStat == map[] && linkData == map[] && queue == []
      modifies this
      ensures Valid()
      ensures FaithfulTo(web, startUrl, single, linkStat, linkData)
      ensures ClosedUnder(linkStat, linkData, queue)
      ensures AllReachable(web, startUrl, single, linkStat, queue)
      ensures quiescent <==> queue == []
      ensures quiescent ==> forall n: nat, u :: ReachableIn(web, startUrl, single, n, u) ==> u in linkStat
    {
      queue := queue + [startUrl];
      assert ReachableIn(web, startUrl, single, 0, startUrl);
      var steps := 0;
      while queue != [] && steps < fuel
        invariant Valid()
        invariant FaithfulTo(web, startUrl, single, linkStat, linkData)
        invariant ClosedUnder(linkStat, linkData, queue)
        invariant startUrl in linkStat || startUrl in queue
        invariant AllReachable(web, startUrl, single, linkStat, queue)
        decreases fuel - steps
      {
        var url := queue[0];
        var rest := queue[1..];
        ghost var stat0, data0 := linkStat, linkData;
        assert queue == [url] + rest;
        assert Reachable(web, startUrl, single, url);
        ghost var n: nat :| ReachableIn(web, startUrl, single, n, url);
        assert AllReachable(web, startUrl, single, stat0, rest) by {
          assert forall i :: 0 <= i < |rest| ==> rest[i] == queue[i + 1];
        }
        queue := rest;
        CheckUrl(url, web(url));
        CheckStepMonotone(startUrl, single, url, web(url), stat0, data0, rest, linkStat, linkData, queue);
        CheckStepKeepsFaithful(web, startUrl, single, url, stat0, data0, rest, linkStat, linkData, queue);
        CheckStepKeepsClosed(startUrl, single, url, web(url), stat0, data0, rest, linkStat, linkData, queue);
        CheckStepKeepsReachable(web, startUrl, single, url, n, stat0, data0, rest, linkStat, linkData, queue);
        steps := steps + 1;
      }
      quiescent := queue == [];
      if quiescent {
        forall n: nat, u | ReachableIn(web, startUrl, single, n, u)
          ensures u in linkStat
        {
          ReachableIsClaimed(web, startUrl, single, linkStat, linkData, n, u);
        }
      }
    }
  }
}
