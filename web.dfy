/** The crawler's collaborators: the URL joiner and the page fetcher.
  * Both are left uninterpreted and passed in as function values. */
module Web {
  /** What fetching a URL and extracting its anchors yields: the href values
    * of the page's `a` elements, in document order, or a request error. */
  datatype Response = Page(hrefs: seq<string>) | RequestError

  /** `join` stands for urljoin, `fetch` for an HTTP GET followed by anchor
    * extraction. `universe` is a finite set of URLs that every join lands in:
    * the assumption under which the traversal terminates. */
  datatype Oracle = Oracle(
    join: (string, string) -> string,
    fetch: string -> Response,
    universe: set<string>)
  {
    /** Every URL that joining can produce lies in the finite universe. */
    ghost predicate Closed()
    {
      forall base, href :: join(base, href) in universe
    }
  }
}
