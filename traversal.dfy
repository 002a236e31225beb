/** The link traversal of crawl_links as functions on values: the
  * specification that the imperative crawler is proved against. */
module Traversal {
  import opened Web

  /** One visit of crawl_links: `url` was resolved from `href`, an href found
    * on the page at `from`, then added to the visited set and requested. */
  datatype Visit = Visit(url: string, from: string, href: string)

  /** The state threaded through the recursion: the visited set, the lines
    * written to the output file (each without its trailing newline), and the
    * log of visits in the order they happened. */
  datatype State = State(visited: set<string>, out: seq<string>, trace: seq<Visit>)

  const Empty := State({}, [], [])

  predicate StartsWith(s: string, prefix: string)
  {
    |prefix| <= |s| && s[..|prefix|] == prefix
  }

  /** The raw prefix test that skips an href: a fragment anchor or anything
    * beginning with "http". */
  predicate Dropped(href: string)
    ensures Dropped(href) <==>
      (|href| >= 1 && href[0] == '#') ||
      (|href| >= 4 && href[0] == 'h' && href[1] == 't' && href[2] == 't' && href[3] == 'p')
  {
    StartsWith(href, "#") || StartsWith(href, "http")
  }

  /** The subdirectory test: the URL contains a slash and is not the base URL
    * of the current call. */
  predicate IsSubdirectory(url: string, base: string)
    ensures IsSubdirectory(url, base) <==> url != base && exists i :: 0 <= i < |url| && url[i] == '/'
  {
    '/' in url && url != base
  }

  /** The effect of reaching an unvisited URL: mark it visited, write it when
    * it passes the subdirectory test, and log the request. */
  function Reach(st: State, url: string, base: string, href: string): (r: State)
    ensures r.visited == st.visited + {url}
    ensures r.trace == st.trace + [Visit(url, base, href)]
    ensures st.out <= r.out && (r.out == st.out + [url] <==> IsSubdirectory(url, base))
    ensures !IsSubdirectory(url, base) ==> r.out == st.out
  {
    State(st.visited + {url},
          if IsSubdirectory(url, base) then st.out + [url] else st.out,
          st.trace + [Visit(url, base, href)])
  }

  /** The lines a log of visits writes, in order. */
  function Written(t: seq<Visit>): seq<string>
  {
    if t == [] then []
    else
      var v := t[|t| - 1];
      Written(t[..|t| - 1]) + (if IsSubdirectory(v.url, v.from) then [v.url] else [])
  }

  /** crawl_links(base, links, ...) run from state `st`. */
  function Process(w: Oracle, base: string, links: seq<string>, st: State): (r: State)
    requires w.Closed()
    decreases w.universe - st.visited, |links|
    ensures st.visited <= r.visited
    ensures st.out <= r.out && st.trace <= r.trace
  {
    if links == [] then st
    else Process(w, base, links[1..], Step(w, base, links[0], st))
  }

  /** One iteration of crawl_links' loop, for the href `href`. */
  function Step(w: Oracle, base: string, href: string, st: State): (r: State)
    requires w.Closed()
    decreases w.universe - st.visited, 0
    ensures st.visited <= r.visited
    ensures st.out <= r.out && st.trace <= r.trace
    ensures Dropped(href) ==> r == st
    ensures !Dropped(href) && w.join(base, href) in st.visited ==> r == st
    ensures !Dropped(href) && w.join(base, href) !in st.visited ==>
              w.join(base, href) in r.visited && |st.trace| < |r.trace| &&
              r.trace[|st.trace|] == Visit(w.join(base, href), base, href)
  {
    if Dropped(href) then st
    else
      var url := w.join(base, href);
      if url in st.visited then st
      else
        var st1 := Reach(st, url, base, href);
        match w.fetch(url)
        case Page(hrefs) => Process(w, url, hrefs, st1)
        case RequestError => st1
  }

  /** How a whole crawl ends: the seed request failed (the exception leaves
    * crawl_subdirectories with the output file truncated and empty), or the
    * traversal completed in `final`. */
  datatype Outcome = SeedRequestFailed | Completed(final: State)

  /** crawl_subdirectories(seed, ...): fetch the seed directly, then traverse
    * its links from an empty visited set and an empty output. */
  function Crawl(w: Oracle, seed: string): (r: Outcome)
    requires w.Closed()
    ensures r.Completed? <==> w.fetch(seed).Page?
  {
    match w.fetch(seed)
    case RequestError => SeedRequestFailed
    case Page(links) => Completed(Process(w, seed, links, Empty))
  }
}
