/** The result `main` computes once the crawl is over: for each parsed page,
    its own status and the list of its links that did not answer 200. The
    model builds the values that `main` writes; the file write is left
    out. */
module CrawlReport {
  import opened Types

  /** One entry of `err_list`: a link and its status, `None` when the link
      was never claimed (the `KeyError` branch). Python writes both `None`
      and `Some(Http(None))`, a response without a status code, as `None`. */
  datatype Entry = Entry(link: Url, status: Option<Status>)

  /** What the report file holds for one parsed page. */
  datatype PageReport = PageReport(page: Url, status: Status, errors: seq<Entry>)

  /** The status of `l` as the report shows it. */
  function Lookup(stat: map<Url, Status>, l: Url): Option<Status>
  {
    if l in stat then Some(stat[l]) else None
  }

  /** `l` is reported: it was never claimed, or its status is not 200. */
  predicate Broken(stat: map<Url, Status>, l: Url)
  {
    l !in stat || stat[l] != Http(Some(200))
  }

  /** `errs` lists each broken link of `links` exactly once, with its
      status, and nothing else. */
  ghost predicate ErrorListOf(errs: seq<Entry>, links: set<Url>, stat: map<Url, Status>)
  {
    (forall e :: e in errs ==> e.link in links && Broken(stat, e.link) && e.status == Lookup(stat, e.link))
    && (forall l :: l in links && Broken(stat, l) ==> Entry(l, Lookup(stat, l)) in errs)
    && (forall i, j :: 0 <= i < j < |errs| ==> errs[i].link != errs[j].link)
  }

  /** The inner loop of the report: walk the links of one page and collect
      those whose status is missing or not 200. */
  method ErrorList(links: set<Url>, stat: map<Url, Status>) returns (errs: seq<Entry>)
    ensures ErrorListOf(errs, links, stat)
  {
    errs := [];
    var rest := links;
    while rest != {}
      invariant rest <= links
      invariant forall e :: e in errs ==> e.link in links - rest && Broken(stat, e.link) && e.status == Lookup(stat, e.link)
      invariant forall l :: l in links - rest && Broken(stat, l) ==> Entry(l, Lookup(stat, l)) in errs
      invariant forall i, j :: 0 <= i < j < |errs| ==> errs[i].link != errs[j].link
      decreases rest
    {
      var link :| link in rest;
      rest := rest - {link};
      if link in stat {
        if stat[link] != Http(Some(200)) {
          errs := errs + [Entry(link, Some(stat[link]))];
        }
      } else {
        errs := errs + [Entry(link, None)];
      }
    }
  }

  /** Two lists that both satisfy `ErrorListOf` hold the same entries: the
      report is determined by the tables up to order. */
  lemma ErrorListUnique(a: seq<Entry>, b: seq<Entry>, links: set<Url>, stat: map<Url, Status>)
    requires ErrorListOf(a, links, stat) && ErrorListOf(b, links, stat)
    ensures multiset(a) == multiset(b)
  {
    var sa := set e | e in a;
    var sb := set e | e in b;
    assert sa == sb;
    DistinctMultiset(a);
    DistinctMultiset(b);
  }

  /** A list whose entries have distinct links holds each entry once. */
  lemma {:induction false} DistinctMultiset(errs: seq<Entry>)
    requires forall i, j :: 0 <= i < j < |errs| ==> errs[i].link != errs[j].link
    ensures multiset(errs) == multiset(set e | e in errs)
  {
    if errs != [] {
      var tail := errs[1..];
      DistinctMultiset(tail);
      assert errs == [errs[0]] + tail;
      assert errs[0] !in tail;
      assert (set e | e in errs) == {errs[0]} + (set e | e in tail);
    }
  }

  /** The outer loop of the report: one entry per parsed page, in some
      order, with the page's own status and its error list. Reading
      `link_stat[k]` needs every parsed page to be claimed. */
  method PageReports(data: map<Url, set<Url>>, stat: map<Url, Status>) returns (pages: seq<PageReport>)
    requires forall k :: k in data ==> k in stat
    ensures forall p :: p in pages ==>
      p.page in data && p.status == stat[p.page] && ErrorListOf(p.errors, data[p.page], stat)
    ensures (set p | p in pages :: p.page) == data.Keys
    ensures forall i, j :: 0 <= i < j < |pages| ==> pages[i].page != pages[j].page
  {
    pages := [];
    var rest := data.Keys;
    while rest != {}
      invariant rest <= data.Keys
      invariant forall p :: p in pages ==>
        p.page in data.Keys - rest && p.status == stat[p.page] && ErrorListOf(p.errors, data[p.page], stat)
      invariant (set p | p in pages :: p.page) == data.Keys - rest
      invariant forall i, j :: 0 <= i < j < |pages| ==> pages[i].page != pages[j].page
      decreases rest
    {
      var k :| k in rest;
      rest := rest - {k};
      var errs := ErrorList(data[k], stat);
      ghost var before := pages;
      pages := pages + [PageReport(k, stat[k], errs)];
      assert (set p | p in pages :: p.page) == (set p | p in before :: p.page) + {k};
    }
  }
}
