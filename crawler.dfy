/** The crawler as the script runs it: a visited set mutated in place, an
  * output file appended to, and a loop over each page's links that recurses
  * on every newly reached URL. */
module Crawler {
  import opened Web
  import opened Traversal

  class LinkCrawler {
    const web: Oracle
    /** visited_urls */
    var visited: set<string>
    /** The lines written to the output file so far. */
    var out: seq<string>
    /** The URLs requested by crawl_links so far, with where they came from. */
    ghost var trace: seq<Visit>

    ghost function Snapshot(): State
      reads this
    {
      State(visited, out, trace)
    }

    constructor (w: Oracle)
      requires w.Closed()
      ensures web == w && Snapshot() == Empty
    {
      web := w;
      visited := {};
      out := [];
      trace := [];
    }

    /** crawl_links(base, links, visited_urls, file). */
    method CrawlLinks(base: string, links: seq<string>)
      requires web.Closed()
      modifies this
      decreases web.universe - visited
      ensures Snapshot() == Process(web, base, links, old(Snapshot()))
    {
      for i := 0 to |links|
        invariant old(visited) <= visited
        invariant Process(web, base, links[i..], Snapshot()) == Process(web, base, links, old(Snapshot()))
      {
        assert links[i..][1..] == links[i + 1..];
        var href := links[i];
        if Dropped(href) {
          continue;
        }
        var url := web.join(base, href);
        if url in visited {
          continue;
        }
        visited := visited + {url};
        if IsSubdirectory(url, base) {
          out := out + [url];
        }
        trace := trace + [Visit(url, base, href)];
        // A request error is reported and swallowed; the loop goes on.
        var response := web.fetch(url);
        match response
        case Page(hrefs) => CrawlLinks(url, hrefs);
        case RequestError =>
      }
    }

    /** crawl_subdirectories(seed, output_file): truncate the output, fetch
      * the seed (an error here is not caught: ok is false), then crawl its
      * links with a fresh, empty visited set. */
    method CrawlSubdirectories(seed: string) returns (ok: bool)
      requires web.Closed()
      modifies this
      ensures ok <==> web.fetch(seed).Page?
      ensures ok ==> Crawl(web, seed) == Completed(Snapshot())
      ensures !ok ==> Crawl(web, seed) == SeedRequestFailed && out == [] && visited == old(visited) && trace == old(trace)
    {
      out := [];
      var response := web.fetch(seed);
      match response
      case RequestError =>
        ok := false;
      case Page(links) =>
        visited := {};
        trace := [];
        CrawlLinks(seed, links);
        ok := true;
    }
  }
}
