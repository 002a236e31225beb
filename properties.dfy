/** What the traversal guarantees about visits, writes and order. */
module Properties {
  import opened Web
  import opened Traversal

  ghost predicate NoDup(s: seq<string>)
  {
    forall i, j :: 0 <= i < j < |s| ==> s[i] != s[j]
  }

  /** No URL was requested twice. */
  ghost predicate NoDupUrls(t: seq<Visit>)
  {
    forall i, j :: 0 <= i < j < |t| ==> t[i].url != t[j].url
  }

  function Urls(t: seq<Visit>): set<string>
  {
    set k | 0 <= k < |t| :: t[k].url
  }

  /** A visit came from a link that was kept: its href is not dropped, it was
    * on the page fetched from `from`, and the URL is its resolution. */
  ghost predicate Resolved(w: Oracle, v: Visit)
  {
    !Dropped(v.href) && v.url == w.join(v.from, v.href) &&
    w.fetch(v.from).Page? && v.href in w.fetch(v.from).hrefs
  }

  /** Every visit was discovered on the seed's page or on the page of an
    * earlier visit. */
  ghost predicate Ordered(seed: string, t: seq<Visit>)
  {
    forall k :: 0 <= k < |t| ==> t[k].from == seed || exists j :: 0 <= j < k && t[j].url == t[k].from
  }

  /** The invariant of a crawl started from the empty state. */
  ghost predicate Inv(w: Oracle, seed: string, st: State)
  {
    && st.visited == Urls(st.trace)
    && NoDupUrls(st.trace)
    && st.out == Written(st.trace)
    && (forall k :: 0 <= k < |st.trace| ==> Resolved(w, st.trace[k]))
    && Ordered(seed, st.trace)
  }

  lemma EmptyInv(w: Oracle, seed: string)
    ensures Inv(w, seed, Empty)
  {
  }

  /** Reaching an unvisited URL keeps the invariant. */
  lemma ReachKeepsInv(w: Oracle, seed: string, base: string, href: string, st: State)
    requires Inv(w, seed, st)
    requires base == seed || base in st.visited
    requires !Dropped(href) && w.fetch(base).Page? && href in w.fetch(base).hrefs
    requires w.join(base, href) !in st.visited
    ensures Inv(w, seed, Reach(st, w.join(base, href), base, href))
  {
    var url := w.join(base, href);
    var r := Reach(st, url, base, href);
    var t := st.trace;
    assert r.trace[..|t|] == t;
    assert Urls(r.trace) == Urls(t) + {url} by {
      forall u | u in Urls(r.trace) ensures u in Urls(t) + {url} {
        var k :| 0 <= k < |r.trace| && r.trace[k].url == u;
        if k < |t| { assert t[k].url == u; }
      }
      forall u | u in Urls(t) ensures u in Urls(r.trace) {
        var k :| 0 <= k < |t| && t[k].url == u;
        assert r.trace[k].url == u;
      }
      assert r.trace[|t|].url == url;
    }
    forall i, j | 0 <= i < j < |r.trace| ensures r.trace[i].url != r.trace[j].url {
      if j == |t| { assert t[i].url in Urls(t); }
    }
    if base != seed {
      var j :| 0 <= j < |t| && t[j].url == base;
      assert r.trace[j].url == r.trace[|t|].from;
    }
  }

  /** One iteration of the loop keeps the invariant. */
  lemma {:induction false} StepKeepsInv(w: Oracle, seed: string, base: string, href: string, st: State)
    requires w.Closed() && Inv(w, seed, st)
    requires base == seed || base in st.visited
    requires w.fetch(base).Page? && href in w.fetch(base).hrefs
    decreases w.universe - st.visited, 0
    ensures Inv(w, seed, Step(w, base, href, st))
  {
    if !Dropped(href) {
      var url := w.join(base, href);
      if url !in st.visited {
        ReachKeepsInv(w, seed, base, href, st);
        var st1 := Reach(st, url, base, href);
        match w.fetch(url)
        case Page(hrefs) =>
          forall h | h in hrefs ensures h in w.fetch(url).hrefs { }
          ProcessKeepsInv(w, seed, url, hrefs, st1);
        case RequestError =>
      }
    }
  }

  /** A call of crawl_links on links of an already reached page keeps the
    * invariant. */
  lemma {:induction false} ProcessKeepsInv(w: Oracle, seed: string, base: string, links: seq<string>, st: State)
    requires w.Closed() && Inv(w, seed, st)
    requires base == seed || base in st.visited
    requires w.fetch(base).Page? && forall h :: h in links ==> h in w.fetch(base).hrefs
    decreases w.universe - st.visited, |links|
    ensures Inv(w, seed, Process(w, base, links, st))
  {
    if links != [] {
      StepKeepsInv(w, seed, base, links[0], st);
      var st1 := Step(w, base, links[0], st);
      forall h | h in links[1..] ensures h in w.fetch(base).hrefs {
        assert h in links;
      }
      ProcessKeepsInv(w, seed, base, links[1..], st1);
    }
  }

  /** The written lines are exactly the URLs of the visits that passed the
    * subdirectory test against the base URL of the call that reached them. */
  lemma {:induction false} WrittenExactly(t: seq<Visit>)
    ensures forall u :: u in Written(t) <==>
              exists k :: 0 <= k < |t| && t[k].url == u && IsSubdirectory(u, t[k].from)
  {
    if t != [] {
      var p := t[..|t| - 1];
      WrittenExactly(p);
      forall u | u in Written(t)
        ensures exists k :: 0 <= k < |t| && t[k].url == u && IsSubdirectory(u, t[k].from)
      {
        if u in Written(p) {
          var k :| 0 <= k < |p| && p[k].url == u && IsSubdirectory(u, p[k].from);
          assert t[k] == p[k];
        }
      }
      forall k | 0 <= k < |t| && IsSubdirectory(t[k].url, t[k].from)
        ensures t[k].url in Written(t)
      {
        if k < |p| { assert p[k] == t[k]; }
      }
    }
  }

  /** Distinct visits write distinct lines. */
  lemma {:induction false} WrittenNoDup(t: seq<Visit>)
    requires NoDupUrls(t)
    ensures NoDup(Written(t))
  {
    if t != [] {
      var p := t[..|t| - 1];
      WrittenNoDup(p);
      WrittenExactly(p);
      var v := t[|t| - 1];
      if IsSubdirectory(v.url, v.from) {
        forall k | 0 <= k < |p| ensures p[k].url != v.url {
          assert p[k] == t[k];
        }
        assert v.url !in Written(p);
        var w := Written(p);
        assert Written(t) == w + [v.url];
        forall i, j | 0 <= i < j < |w| + 1 ensures (w + [v.url])[i] != (w + [v.url])[j] {
          if j == |w| { assert w[i] in w; }
        }
      }
    }
  }

  /** Every kept href on the page at `p`, when that page is fetched, resolves
    * to a URL in `visited`. */
  ghost predicate Covered(w: Oracle, p: string, visited: set<string>)
  {
    w.fetch(p).Page? ==>
      forall h :: h in w.fetch(p).hrefs && !Dropped(h) ==> w.join(p, h) in visited
  }

  /** Coverage survives visiting more URLs. */
  lemma CoveredMono(w: Oracle, p: string, v: set<string>, v': set<string>)
    requires v <= v' && Covered(w, p, v)
    ensures Covered(w, p, v')
  {
  }

  /** Every URL that one iteration newly visits has its page's kept links
    * visited too. */
  lemma {:induction false} StepCovers(w: Oracle, base: string, href: string, st: State)
    requires w.Closed()
    decreases w.universe - st.visited, 0
    ensures forall u :: u in Step(w, base, href, st).visited && u !in st.visited ==>
              Covered(w, u, Step(w, base, href, st).visited)
  {
    if !Dropped(href) {
      var url := w.join(base, href);
      if url !in st.visited {
        var st1 := Reach(st, url, base, href);
        match w.fetch(url)
        case Page(hrefs) =>
          ProcessCovers(w, url, hrefs, st1);
          var r := Process(w, url, hrefs, st1);
          forall u | u in r.visited && u !in st.visited ensures Covered(w, u, r.visited) {
            if u != url {
              assert u in r.visited - st1.visited;
            }
          }
        case RequestError =>
      }
    }
  }

  /** A crawl_links call visits the resolution of every kept href in its
    * links, and every URL it newly visits has its page's kept links visited. */
  lemma {:induction false} ProcessCovers(w: Oracle, base: string, links: seq<string>, st: State)
    requires w.Closed()
    decreases w.universe - st.visited, |links|
    ensures var r := Process(w, base, links, st);
      && (forall h :: h in links && !Dropped(h) ==> w.join(base, h) in r.visited)
      && (forall u :: u in r.visited - st.visited ==> Covered(w, u, r.visited))
  {
    if links != [] {
      StepCovers(w, base, links[0], st);
      var st1 := Step(w, base, links[0], st);
      ProcessCovers(w, base, links[1..], st1);
      var r := Process(w, base, links[1..], st1);
      forall h | h in links && !Dropped(h) ensures w.join(base, h) in r.visited {
        if h != links[0] {
          assert h in links[1..];
        }
      }
      forall u | u in r.visited - st.visited ensures Covered(w, u, r.visited) {
        if u in st1.visited {
          CoveredMono(w, u, st1.visited, r.visited);
        }
      }
    }
  }

  /** A completed crawl has visited the resolution of every kept href on the
    * seed's page and on the page of every URL it visited. */
  lemma CrawlCovers(w: Oracle, seed: string)
    requires w.Closed()
    ensures Crawl(w, seed).Completed? ==>
      var st := Crawl(w, seed).final;
      Covered(w, seed, st.visited) && forall u :: u in st.visited ==> Covered(w, u, st.visited)
  {
    match w.fetch(seed)
    case RequestError =>
    case Page(links) =>
      ProcessCovers(w, seed, links, Empty);
      var st := Crawl(w, seed).final;
      assert st == Process(w, seed, links, Empty);
      forall u | u in st.visited ensures Covered(w, u, st.visited) {
        assert u in st.visited - Empty.visited;
      }
  }

  /** What a completed crawl guarantees: each URL is requested by crawl_links
    * at most once and is in the visited set exactly when it was requested;
    * each line written is a distinct visited URL containing a slash; a URL is
    * written exactly when it contains a slash and differed from the base URL
    * of the call that reached it; every request comes from a kept href on a fetched page that
    * is the seed's or was requested earlier; and every kept href on the
    * seed's page and on the page of every visited URL leads to a visited URL,
    * so the visited set is closed under following kept links. */
  lemma CrawlGuarantees(w: Oracle, seed: string)
    requires w.Closed()
    ensures Crawl(w, seed).Completed? ==>
      var st := Crawl(w, seed).final;
      && Inv(w, seed, st)
      && NoDup(st.out)
      && (forall u :: u in st.out ==> u in st.visited && '/' in u)
      && (forall u :: u in st.out <==>
            exists k :: 0 <= k < |st.trace| && st.trace[k].url == u && IsSubdirectory(u, st.trace[k].from))
      && Covered(w, seed, st.visited)
      && (forall u :: u in st.visited ==> Covered(w, u, st.visited))
  {
    match w.fetch(seed)
    case RequestError =>
    case Page(links) =>
      ProcessKeepsInv(w, seed, seed, links, Empty);
      CrawlCovers(w, seed);
      var st := Crawl(w, seed).final;
      WrittenExactly(st.trace);
      WrittenNoDup(st.trace);
      forall u | u in st.out ensures u in st.visited {
        var k :| 0 <= k < |st.trace| && st.trace[k].url == u && IsSubdirectory(u, st.trace[k].from);
      }
  }

  /** The lines an earlier part of the log writes come first. */
  lemma {:induction false} WrittenPrefix(t: seq<Visit>, k: nat)
    requires k <= |t|
    ensures Written(t[..k]) <= Written(t)
  {
    if k < |t| {
      var p := t[..|t| - 1];
      WrittenPrefix(p, k);
      assert p[..k] == t[..k];
    } else {
      assert t[..k] == t;
    }
  }

  /** In a log whose visits are distinct and discovered in order, the line
    * of a page other than the seed precedes the line of a visit found on it. */
  lemma ParentWrittenFirst(seed: string, t: seq<Visit>, i: nat, i': nat, k: nat)
    requires NoDupUrls(t) && Ordered(seed, t)
    requires i < |Written(t)| && i' < |Written(t)| && k < |t|
    requires t[k].url == Written(t)[i'] && t[k].from == Written(t)[i] && Written(t)[i] != seed
    ensures i < i'
  {
    var out := Written(t);
    WrittenExactly(t);
    WrittenNoDup(t);
    var parent := out[i];
    assert parent in out;
    var j :| 0 <= j < k && t[j].url == parent;
    var m :| 0 <= m < |t| && t[m].url == parent && IsSubdirectory(parent, t[m].from);
    assert m == j;
    var pre := t[..k];
    WrittenExactly(pre);
    WrittenPrefix(t, k);
    var w0 := Written(pre);
    assert pre[j] == t[j];
    assert parent in w0;
    forall x | 0 <= x < |pre| ensures pre[x].url != t[k].url {
      assert pre[x] == t[x];
    }
    assert out[i'] !in w0;
    var i0 :| 0 <= i0 < |w0| && w0[i0] == parent;
    assert out[i0] == parent;
    assert i0 == i;
    forall x | 0 <= x < |w0| ensures out[x] != out[i'] {
      assert out[x] == w0[x];
    }
  }

  /** In a completed crawl, the record of a page other than the seed comes
    * before the record of any URL discovered on that page. */
  lemma RecordBeforeChildRecords(w: Oracle, seed: string)
    requires w.Closed()
    ensures Crawl(w, seed).Completed? ==>
      var st := Crawl(w, seed).final;
      forall i, i', k ::
        0 <= i < |st.out| && 0 <= i' < |st.out| && 0 <= k < |st.trace| &&
        st.trace[k].url == st.out[i'] && st.trace[k].from == st.out[i] && st.out[i] != seed
        ==> i < i'
  {
    if Crawl(w, seed).Completed? {
      CrawlGuarantees(w, seed);
      var st := Crawl(w, seed).final;
      forall i, i', k |
        0 <= i < |st.out| && 0 <= i' < |st.out| && 0 <= k < |st.trace| &&
        st.trace[k].url == st.out[i'] && st.trace[k].from == st.out[i] && st.out[i] != seed
        ensures i < i'
      {
        ParentWrittenFirst(seed, st.trace, i, i', k);
      }
    }
  }

  /** The seed is not in the initial visited set: when any kept href on its
    * page resolves back to it, crawl_links requests it once more, exactly
    * once. */
  lemma SeedRequestedAgain(w: Oracle, seed: string, href: string)
    requires w.Closed()
    requires w.fetch(seed).Page? && href in w.fetch(seed).hrefs
    requires !Dropped(href) && w.join(seed, href) == seed
    ensures Crawl(w, seed).Completed?
    ensures seed in Crawl(w, seed).final.visited
    ensures var t := Crawl(w, seed).final.trace;
      exists k :: 0 <= k < |t| && t[k].url == seed && forall j :: 0 <= j < |t| && t[j].url == seed ==> j == k
  {
    CrawlGuarantees(w, seed);
    var st := Crawl(w, seed).final;
    assert seed in Urls(st.trace);
  }

  /** A request error for one link leaves it visited (and written, if it
    * passed the subdirectory test) and the loop goes on with the rest. */
  lemma RequestErrorSwallowed(w: Oracle, base: string, href: string, rest: seq<string>, st: State)
    requires w.Closed()
    requires !Dropped(href) && w.join(base, href) !in st.visited
    requires w.fetch(w.join(base, href)) == RequestError
    ensures Process(w, base, [href] + rest, st) ==
            Process(w, base, rest, Reach(st, w.join(base, href), base, href))
  {
  }

  /** The drop test is a raw prefix test. */
  lemma DroppedByPrefix()
    ensures Dropped("#top") && Dropped("http://other.example/x")
    ensures Dropped("httpdocs/x") && !Dropped("/a") && !Dropped("docs/http")
  {
  }

  /** A two-page site: the seed "e.com/" links to "a", which resolves to
    * "e.com/a"; that page links to "up", which resolves back to the seed. */
  function LoopSite(): Oracle
  {
    Oracle((base: string, href: string) => if href == "up" then "e.com/" else "e.com/a",
           (url: string) => if url == "e.com/" then Page(["a"]) else Page(["up"]),
           {"e.com/", "e.com/a"})
  }

  /** The states of the crawl of LoopSite after its first and second visit. */
  function LoopSiteFirst(): State
  {
    State({"e.com/a"}, ["e.com/a"], [Visit("e.com/a", "e.com/", "a")])
  }

  function LoopSiteSecond(): State
  {
    State({"e.com/", "e.com/a"}, ["e.com/a", "e.com/"],
          [Visit("e.com/a", "e.com/", "a"), Visit("e.com/", "e.com/a", "up")])
  }

  /** Neither href of LoopSite is dropped, and both URLs pass the
    * subdirectory test against the other. */
  lemma LoopSiteTests()
    ensures LoopSite().Closed()
    ensures !Dropped("a") && !Dropped("up")
    ensures IsSubdirectory("e.com/a", "e.com/") && IsSubdirectory("e.com/", "e.com/a")
    ensures LoopSite().join("e.com/", "a") == "e.com/a" && LoopSite().join("e.com/a", "up") == "e.com/"
    ensures LoopSite().fetch("e.com/") == Page(["a"]) && LoopSite().fetch("e.com/a") == Page(["up"])
  {
    assert "e.com/a"[5] == '/' && "e.com/"[5] == '/';
  }

  /** Back on the seed's page, its only link now leads to a visited URL. */
  lemma LoopSiteRevisit()
    ensures LoopSite().Closed()
    ensures Process(LoopSite(), "e.com/", ["a"], LoopSiteSecond()) == LoopSiteSecond()
  {
    LoopSiteTests();
    var w := LoopSite();
    assert Step(w, "e.com/", "a", LoopSiteSecond()) == LoopSiteSecond();
  }

  /** The crawl of "e.com/a" reaches the seed, writes it and crawls its page. */
  lemma LoopSiteChild()
    ensures LoopSite().Closed()
    ensures Process(LoopSite(), "e.com/a", ["up"], LoopSiteFirst()) == LoopSiteSecond()
  {
    LoopSiteTests();
    LoopSiteRevisit();
    var w := LoopSite();
    assert Reach(LoopSiteFirst(), "e.com/", "e.com/a", "up") == LoopSiteSecond();
    assert Step(w, "e.com/a", "up", LoopSiteFirst()) == LoopSiteSecond();
  }

  /** The first link of the seed's page reaches "e.com/a" and, through its
    * page, everything else. */
  lemma LoopSiteSeedLink()
    ensures LoopSite().Closed()
    ensures Step(LoopSite(), "e.com/", "a", Empty) == LoopSiteSecond()
  {
    LoopSiteTests();
    LoopSiteChild();
    assert Reach(Empty, "e.com/a", "e.com/", "a") == LoopSiteFirst();
  }

  /** On that site the seed is requested again and written as a subdirectory:
    * in the recursive call its base URL is "e.com/a", not the seed. */
  lemma SeedWrittenFromChild()
    ensures LoopSite().Closed()
    ensures Crawl(LoopSite(), "e.com/") == Completed(LoopSiteSecond())
  {
    LoopSiteTests();
    LoopSiteSeedLink();
    var w := LoopSite();
    assert Process(w, "e.com/", ["a"], Empty) == Process(w, "e.com/", [], LoopSiteSecond());
  }
}
