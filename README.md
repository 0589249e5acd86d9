# lina crawl engine in Dafny

This project models the crawl engine of lina, a small multi-threaded web
crawler, as a sequential state machine. The engine has three pieces of
shared state:

- the claim table `link_stat`: URL → unresolved (`None`), HTTP status, or error text;
- the parsed-page table `link_data`: page URL → set of links found on the page;
- the frontier queue `q`.

`check_url` claims a URL by inserting it into the claim table only if it is
absent. It then records the outcome of fetching it. If the page is in scope,
`parse_link` extracts its `href="..."` links, stores them, and queues the
ones nobody has claimed. `main` pops the queue until it is empty and then
lists, for each parsed page, the links that did not answer 200.

Each `with mutex:` block and each pool task runs to completion before the
next one starts. The network is an input: `CheckUrl` takes the outcome of one
fetch, and `Crawl` takes a function from URL to outcome. The claim-once
discipline means no URL is fetched twice, so one fixed outcome per URL loses
no generality.

Modules:

- `Types` (types.dfy): URL, status and fetch-outcome values.
- `Extract` (extract.dfy): the `re.findall` link scanner, as a pure function.
- `Scope` (scope.dfy): the scope test, as a pure predicate.
- `CrawlSpec` (crawl_spec.dfy): the engine state as values; one `check_url`
  step as a relation; the invariants that step keeps; what a drained crawl
  has claimed.
- `Engine` (crawler.dfy): the class `Crawler`, whose fields are the three
  tables. `CheckUrl`, `ParseLink` and `Crawl` update those fields in place.
  Each method's `ensures` ties the new state to `CrawlSpec`.
- `CrawlReport` (report.dfy): the `err_list` computation of `main`.

What lina.py does that a reader might not expect:

- lina.py queues every unclaimed extracted link, in scope or not, and
  fetches it. Scope decides only which pages are parsed.
- lina.py parses a page whatever status `urlopen` returned. There is no 2xx
  test. `urlopen` raises on HTTP error statuses, so those arrive as error
  text.
- A response to a `data:`, `file:` or `ftp:` link has no status code.
  lina.py then stores `None` as its status, and the report lists it with
  `None`.
- lina.py has no `src=` extraction, no resource/page classification, no
  exclusion filter and no persistent store or resume. `sqlite3` is imported
  but never used.

## Model

| member | source | states |
|---|---|---|
| Types.Recorded | lina.py:93-97 | A raised fetch is recorded as its error text and a response as its status, which is absent when the response carries no status code. The result is never the claim marker `None` of line 90. |
| Extract.CloseAt | lina.py:76 | The lazy run `.*?"` stops at the first double quote with no line break before it. The result is absent exactly when a line break or the end of the text comes before any quote. |
| Extract.MatchAt | lina.py:76 | A match at the front of the text spans `href="` + link + `"`. Its link is one the pattern can capture: first character allowed, the rest free of quotes and line breaks. |
| Extract.FindAll | lina.py:76 | Every string `re.findall` returns is a link the pattern can capture. |
| Extract.FindAllOccurs | lina.py:76 | Every returned link is written, as `href="` + link + `"`, somewhere in the scanned text. |
| Extract.CloseAtWritten | lina.py:76 | If a quote follows a run with no quote or line break, the lazy run stops exactly at that quote. |
| Extract.MatchAtWritten | lina.py:76 | Converse of MatchAt: a capturable link written at the front of the text is matched exactly, ending right after its closing quote. |
| Extract.FindAllWritten | lina.py:76 | A text that starts with a written link yields that link first. Scanning then resumes after its closing quote, so matches do not overlap. |
| Extract.FindAllSkip | lina.py:76 | No match starts at a character other than `h`. The scan just moves one character on. |
| Extract.CorrectedSkipsEmptyHref | lina.py:76 | Under the corrected pattern, an empty `href=""` yields no link and hides none. |
| Extract.CorrectedLinksHaveNoQuote | lina.py:76 | Under the corrected pattern, no extracted link contains a double quote. |
| Extract.AsWrittenSwallowsLinkAfterEmptyHref | lina.py:76 | Under the source's pattern, `href=""` then a space then a link yields the garbage link `" href=` and loses the real link. |
| Extract.CorrectedFindsLinkAfterEmptyHref | lina.py:76 | Under the corrected pattern, the same text yields exactly the real link and nothing else. |
| Extract.LinksAreWritten | lina.py:76-77 | Every element of the set stored in `link_data` is a capture of the source's pattern: non-empty, not starting with `#` (it may start with a quote). After its first character it has no quote or line break. It occurs as `href="` + link + `"` in the body. |
| Scope.SingleModeParsesOnlySeed | lina.py:100-103 | In single-page mode, a page is in scope exactly when it is the start URL, under the source's test and under the literal one. |
| Scope.InScopeIsExtension | lina.py:100 | Under the literal test lina.py evidently means, outside single-page mode, a URL is in scope exactly when it is the start URL followed by some suffix. |
| Scope.InScopeWithinAsWritten | lina.py:100-105 | The literal-prefix scope test never admits a page that the source's `re.match` test refuses. |
| Scope.AsWrittenAgreesWithoutDot | lina.py:100-105 | If the start URL contains no `.`, the source's test and the literal-prefix test agree on every URL. |
| Scope.AsWrittenAdmitsOtherHost | lina.py:100 | With start URL `http://a.com/`, the source's test admits `http://abcom/x` and the literal test refuses it. |
| CrawlSpec.CheckStepMonotone | lina.py:86-97 | After a `check_url` step, the checked URL is claimed. The claimed keys are exactly the old ones plus that URL. No existing status or parsed page is rewritten. |
| CrawlSpec.CheckStepKeepsResolved | lina.py:85-105 | A step leaves no claim unresolved. Every key of `link_data` stays a key of `link_stat`, with the status of a response. |
| CrawlSpec.CheckStepKeepsFaithful | lina.py:92-105 | A step that fetches from the network keeps each status equal to the outcome of that URL's fetch. Each parsed page keeps exactly its body's links. Every claimed page whose fetch expands stays parsed. |
| CrawlSpec.CheckStepKeepsClosed | lina.py:78-82 | Popping a URL and checking it keeps every link of every parsed page either claimed or in the queue. |
| CrawlSpec.CheckStepKeepsReachable | lina.py:78-82 | Checking a reachable URL claims and queues only URLs reachable from the start URL through parsed pages. |
| CrawlSpec.ReachableIsClaimed | lina.py:122-130 | Once the queue is empty, every URL reachable from the start URL through parsed pages has been claimed. |
| Engine.Crawler.constructor | lina.py:16-18 | The engine starts with an empty claim table, an empty parsed-page table and an empty queue. |
| Engine.Crawler.QueueUnclaimed | lina.py:78-82 | The queue grows by exactly the given links that are not keys of `link_stat`, each once, in some order. Nothing already queued changes. |
| Engine.Crawler.ParseLink | lina.py:74-82 | `link_data[url]` becomes exactly the extracted set. The queue gains exactly the extracted links not yet claimed. `link_stat` is unchanged. |
| Engine.Crawler.CheckUrl | lina.py:85-105 | An already claimed URL changes nothing and is not fetched. A fresh URL is fetched once and gets exactly one new entry, holding its outcome. If the fetch raised, nothing is parsed or queued. The page is parsed only if the fetch returned a response and the URL is in scope. |
| Engine.Crawler.Crawl | lina.py:120-130 | Starting from the start URL and popping until the queue is empty or the fuel runs out, the crawl keeps these invariants: tables faithful to the network, found links claimed or queued, only reachable URLs claimed, each URL fetched once. If the queue empties, every reachable URL has been claimed. |
| Engine.Crawler.Report | lina.py:133-141 | Gives one report per parsed page, each page once, with the page's own HTTP status. The `link_stat[k]` lookup cannot fail. Each report carries the error list of its page. |
| CrawlReport.ErrorList | lina.py:134-140 | The error list holds every link of the page that is missing from `link_stat` or whose status is not 200, each once, with its status (`None` if missing), and nothing else. |
| CrawlReport.PageReports | lina.py:133-141 | Every parsed page appears once, with its status and its exact error list, and no other page appears. |
| CrawlReport.ErrorListUnique | lina.py:134-140 | Two lists that meet the error-list contract hold the same entries: the report is determined by the tables, up to order. |

## Findings

| source | as written | input that shows it | evidently intended | confidence | as-written member | corrected member |
|---|---|---|---|---|---|---|
| lina.py:76 | `href="([^#].*?)"` lets the first character of the link be the closing quote of an empty `href=""`; the match then runs to the next quote | `href="" href="/x"` yields `" href=` and never `/x` | `href="([^#"].*?)"`: an empty href yields nothing and hides nothing | medium, not executed | Extract.AsWrittenSwallowsLinkAfterEmptyHref | Extract.CorrectedFindsLinkAfterEmptyHref |
| lina.py:100 | `re.match(start_url, url)` reads the start URL as a regular expression, so each `.` matches any character | start `http://a.com/`, page `http://abcom/x` is parsed as in scope | literal-prefix test `url.startswith(start_url)` | medium, not executed | Scope.AsWrittenAdmitsOtherHost | Scope.InScopeIsExtension |

`Extract.Links`, and with it `ParseLink`, `CheckUrl` and `Crawl`, scans with
the pattern as written, so the engine stores and queues `" href=` where
lina.py does. The corrected pattern only states what lina.py evidently
intends. Likewise `CheckUrl` tests scope with `Scope.InScopeAsWritten`, the
`re.match` reading of lina.py:100. The literal-prefix test `Scope.InScope`
only states the intended scope.

## Left out

- Threading: `ThreadPoolExecutor`, `threading.Lock`, `threading.active_count` and the blocking `queue.Queue` are left out. Each `with mutex:` block and each pool task is one atomic step, and the tasks run one after another.
- Quiescence by timeout: `q.get(timeout=GET2SUBMIT_TIMEOUT)` becomes "the queue is empty". The run that stops early while tasks are still fetching cannot happen in a sequential model.
- Network I/O: `urllib.request.urlopen` and `REQUEST_TIMEOUT` are left out. The fetch outcome (error text, or status and body) is a parameter, and `Crawl` takes it as a function of the URL.
- Body reading and decoding: `res.read().decode()` is left out; the body arrives already read and decoded. A read error (`socket.timeout`, `http.client.IncompleteRead`) or a decode error raised inside `parse_link` would be dropped by the pool and leave `link_data[url]` unset after the status was recorded. The model does not represent it.
- Console output: `cprint` colours and `_print` progress lines are left out.
- Command line and result file: `argparse`, the timestamped file name and the file writes are left out. The report is computed as values.
- Engine.Crawler.Crawl: the loop is bounded by a `fuel` count because the set of reachable URLs may be infinite. A run that stops on fuel gives no quiescence guarantee. It still keeps every other invariant.
- Scope.RegexPrefixMatch: models `re.match` only for start URLs whose one metacharacter is `.`. Every other regex metacharacter (`?`, `+`, `*`, `[`, `(`, `|`, `^`, `$`, `\`) is taken literally, so for a start URL holding one of them the engine's scope test can differ from lina.py's.
- CrawlReport.ErrorList: Python prints three values as `None`: a missing key, a claimed URL whose fetch never finished, and a response without a status code. The model keeps them apart, as `None`, `Some(Claimed)` and `Some(Http(None))`. Between steps no claim is left as `Claimed`, so the report holds only the first and the last.
- Types.FetchOutcome: the model follows Python 3.9 and later, where `res.status` of a status-less response is `None`. Before 3.9 the attribute is missing. Line 97 then raises inside the pool task, the claim marker `None` stays in `link_stat`, and the page is not parsed. The model does not represent that run.
- Iteration order: loops over sets pick their elements in an arbitrary order. The report's page order, which in lina.py:133 is the insertion order of `link_data`, is also left free. Every contract holds for every order and fixes the result up to order.
- Classification by file extension, `src=` extraction, exclusion filters, a persistent store and resume do not occur in lina.py and are not modelled.
