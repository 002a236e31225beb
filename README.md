# Subdirectory crawler — Dafny model

The script `crawler.py` crawls a web site from a seed URL and writes every
"subdirectory" it finds to a text file. `crawl_subdirectories` truncates the
output file, fetches the seed page directly and hands its anchors to
`crawl_links` with an empty `visited_urls` set. For each href, in page order,
`crawl_links` does the following:

1. It skips the href when it starts with `#` or `http`. This is a raw prefix test.
2. It resolves the href against the base URL of the current call with `urljoin`.
3. It skips the URL when it is already in `visited_urls`. Otherwise it adds it.
4. It writes the URL when the URL contains `/` and differs from the current base URL.
5. It fetches the page and recurses with that URL as the new base. A request
   error is printed and swallowed.

This model covers that traversal.

- `web.dfy` (module `Web`) holds the collaborators as values. `Oracle.join`
  stands for `urljoin` and is left uninterpreted. `Oracle.fetch` maps a URL to
  `Page(hrefs)` or `RequestError`; this is the request plus anchor extraction.
  `Oracle.universe` is a finite set of URLs that every join lands in.
- `traversal.dfy` (module `Traversal`) specifies the traversal as functions.
  `Step` is one loop iteration and `Process` is one `crawl_links` call.
  `Crawl` is one `crawl_subdirectories` call. The state is the visited set, the
  lines written and a log of visits. Each `Visit` records the URL, the base URL
  of the call that reached it, and the href it came from. `Written` gives the
  lines a visit log writes.
- `crawler.dfy` (module `Crawler`) is the imperative crawler. Class
  `LinkCrawler` has the fields `visited` and `out`, plus a ghost log `trace`.
  `CrawlLinks` is a `for` loop over the links that calls itself recursively, as
  the script does. Both methods are proved equal to the specification functions.
- `properties.dfy` (module `Properties`) proves what a crawl guarantees. It
  gives the invariant of a crawl and proves that every step keeps it. It also
  holds lemmas about writes, the seed and errors.

The output file is the sequence `out`. Its text is each element followed by
`"\n"`.

The script has no URL canonicalisation, no depth or page limit, no
concurrency and no delay between requests. Its subdirectory test is loose:
a URL passes when it contains a slash and is not the base URL of the current
call. In recursive calls that base URL is the parent page's URL, not the seed.
The traversal is depth-first: each reached URL's page is crawled before the
next link of the current page is looked at.

## Model

| member | source | states |
|---|---|---|
| `Traversal.Dropped` | crawler.py:41-42 | An href is dropped exactly when its first character is `#` or its first four characters are `http`. |
| `Traversal.IsSubdirectory` | crawler.py:54 | A URL passes the write test exactly when some character of it is `/` and it differs from the base URL of the current call. |
| `Traversal.Reach` | crawler.py:51-55 | Reaching a URL adds it to the visited set and appends its request to the log. It appends the URL to the output exactly when the URL passes the subdirectory test, and otherwise leaves the output unchanged. |
| `Traversal.Step` | crawler.py:37-64 | A dropped href (`#` or `http` prefix) leaves the state unchanged. So does an href that resolves to a visited URL. Otherwise the resolved URL becomes visited and is the next URL requested. The visited set only grows. The output and the request log are only appended to. |
| `Traversal.Process` | crawler.py:27-64 | A `crawl_links` call only grows the visited set. It only appends to the output and to the request log. |
| `Traversal.Crawl` | crawler.py:5-25 | A crawl completes exactly when the seed request returns a page, and then it runs `crawl_links` on the seed's hrefs from an empty state. Its other properties are stated by `Properties.CrawlGuarantees` and `Properties.CrawlCovers`. |
| `Crawler.LinkCrawler.CrawlLinks` | crawler.py:27-64 | Looping over the links and recursing on each newly reached URL leaves `visited`, `out` and `trace` as `Process` gives them. |
| `Crawler.LinkCrawler.CrawlSubdirectories` | crawler.py:5-25 | It succeeds exactly when the seed fetch succeeds, and then the state is `Crawl`'s final state. It starts from an empty visited set. A seed request error is not caught: the crawl stops, the truncated output is empty, and the visited set and log are unchanged. |
| `Crawler.LinkCrawler.constructor` | crawler.py:13-22 | A new crawler has an empty visited set, output and log. |
| `Properties.EmptyInv` | crawler.py:22 | The empty starting state satisfies the crawl invariant. |
| `Properties.ReachKeepsInv` | crawler.py:45-55 | Adding an unvisited URL keeps the invariant. The invariant has five parts. The visited set equals the set of requested URLs. No URL is requested twice. The output is what the log writes. Every request comes from a kept href on a fetched page. That page is the seed's, or its URL was requested earlier. |
| `Properties.StepKeepsInv` | crawler.py:37-64 | One loop iteration keeps the invariant. This includes the recursive crawl of the fetched page. |
| `Properties.StepCovers` | crawler.py:37-64 | Every URL that one loop iteration newly visits and fetches as a page has all the kept hrefs of that page resolved to visited URLs. |
| `Properties.ProcessCovers` | crawler.py:27-64 | After a `crawl_links` call, every kept href in its links resolves to a visited URL. Every URL the call newly visits has the kept hrefs of its fetched page resolved to visited URLs. |
| `Properties.CrawlCovers` | crawler.py:5-64 | In a completed crawl, every kept href on the seed's page, and on the fetched page of every visited URL, resolves to a visited URL. |
| `Properties.WrittenPrefix` | crawler.py:55 | The lines written by an earlier part of the request log are a prefix of the lines the whole log writes. |
| `Properties.ParentWrittenFirst` | crawler.py:55-62 | In a log with distinct URLs, each found on the seed's page or on an earlier request's page: when a page other than the seed is written, its line precedes the line of any URL found on it. |
| `Properties.RecordBeforeChildRecords` | crawler.py:55-62 | In a completed crawl, when a page other than the seed is written, its record precedes the record of every URL found on it. The seed is excluded: a child of the seed's page can be written before a later visit writes the seed. |
| `Properties.ProcessKeepsInv` | crawler.py:27-64 | A `crawl_links` call on links of a page already reached keeps the invariant. |
| `Properties.WrittenExactly` | crawler.py:54-55 | A URL is written if and only if some visit to it passed the subdirectory test. That test is "contains `/` and differs from the base URL of the call that reached it". |
| `Properties.WrittenNoDup` | crawler.py:48-55 | When no URL is requested twice, no line is written twice. |
| `Properties.CrawlGuarantees` | crawler.py:5-64 | In a completed crawl, `crawl_links` requests each URL at most once. The visited set is exactly the requested URLs. The output has no duplicates and holds only visited URLs that contain `/`. A URL is written iff it contains `/` and differs from the base URL of the call that reached it. Every request comes from a kept href on a fetched page, which is the seed's page or the page of an earlier request. Conversely, every kept href on the seed's page, and on the fetched page of every visited URL, resolves to a visited URL. |
| `Properties.SeedRequestedAgain` | crawler.py:15-25 | The seed is not put in `visited_urls`. When any kept href on the seed's page resolves to the seed, the crawl ends with the seed visited. `crawl_links` requests it exactly once, on top of the direct seed request. |
| `Properties.RequestErrorSwallowed` | crawler.py:58-64 | A request error leaves the URL visited, and written if it passed the test. The loop goes on with the remaining links. |
| `Properties.DroppedByPrefix` | crawler.py:41-42 | The drop test is a raw prefix test. `#top`, `http://…` and the relative `httpdocs/x` are dropped. `/a` and `docs/http` are kept. |
| `Properties.SeedWrittenFromChild` | crawler.py:22-62 | On a concrete two-page site where a child links back to the seed, the seed is requested again. It is also written as a subdirectory, because the child is that call's base URL. |

## Left out

- HTTP transport (`requests.get`) is replaced by `Oracle.fetch`. A response with any status code counts as a page. Only a request exception is `RequestError`, as in `requests`.
- HTML parsing (`BeautifulSoup`, `find_all("a", href=True)`) is folded into `Oracle.fetch` as an order-preserving href sequence.
- `urllib.parse.urljoin` is the uninterpreted `Oracle.join`. Resolution per section 5.2 of RFC 3986 is not modelled.
- Opening and writing the output file is modelled as the appended sequence `out`. Each line's trailing newline is implicit.
- The error `print` in `crawl_links` and the module-level example run are left out. They have no effect on the traversal.
- Termination is assumed, not proved of the code. The model requires every joined URL to lie in the finite set `Oracle.universe`. The script itself has no depth or page bound.
- Exceptions other than a request error are not modelled. This includes Python's recursion limit on long link chains and errors raised while parsing.
- `Oracle.fetch` is a function, so every request for a URL gets the same response. The script requests the seed twice when a link leads back to it, at crawler.py:15 and again at crawler.py:59. The two real responses can differ; the model cannot express that.
- The request log `trace` is ghost instrumentation. The script keeps no such log. It records the requests that `crawl_links` makes, not the seed request.
