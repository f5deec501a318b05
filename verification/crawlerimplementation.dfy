/** crawlerimplementation.js: the recursive crawl engine.

    `crawlPage` marks a URL as visited, fetches it, collects the page's links through
    `discoverProductUrls`, and recurses into every path-absolute href (one that starts with `/`),
    resolved against the base URL; its result is the page's own list followed by the children's lists.

    The model is a sequential depth-first traversal. The network and the HTML parser are one abstract
    page map, `Web.fetch`, which gives the href attribute of every anchor of a page, in document order
    (`""` for an anchor without one), or `None` when `fetchPage` returned `null` or an empty body.
    URL resolution (`new URL(href, base).href`) is the uninterpreted, total `Web.resolve`. */
module CrawlerImplementation {
  import opened Wrappers
  import opened Seqs
  import opened Patterns

  // ---------------------------------------------------------------------------------------------
  // The classifier

  /** `PRODUCT_PATTERNS`, in table order. */
  const ProductPatterns: seq<string> := ["/product/", "/item/", "/p/", "product-", "item-"]

  /** What the promise returned by the `async` function `isProductUrl` resolves to. */
  predicate IsProductUrl(url: string) {
    MatchesAny(ProductPatterns, url)
  }

  /** The table, spelled out: a URL is a product URL exactly when one of the five literals occurs in it. */
  lemma {:induction false} IsProductUrlIff(url: string)
    ensures IsProductUrl(url) <==>
      Contains(url, "/product/") || Contains(url, "/item/") || Contains(url, "/p/") ||
      Contains(url, "product-") || Contains(url, "item-")
  {
    if IsProductUrl(url) {
      var k :| 0 <= k < |ProductPatterns| && Contains(url, ProductPatterns[k]);
      assert k == 0 || k == 1 || k == 2 || k == 3 || k == 4;
    }
    if Contains(url, "/product/") { assert Contains(url, ProductPatterns[0]); }
    if Contains(url, "/item/") { assert Contains(url, ProductPatterns[1]); }
    if Contains(url, "/p/") { assert Contains(url, ProductPatterns[2]); }
    if Contains(url, "product-") { assert Contains(url, ProductPatterns[3]); }
    if Contains(url, "item-") { assert Contains(url, ProductPatterns[4]); }
  }

  /** The body of `isProductUrl`: the patterns are tried in table order and the first match answers
      `true`. The source wraps the answer in a promise, which nothing in the file awaits. */
  method ClassifyUrl(url: string) returns (isProduct: bool)
    ensures isProduct <==> IsProductUrl(url)
  {
    ghost var first: nat;
    isProduct, first := TestPatterns(ProductPatterns, url);
  }

  // ---------------------------------------------------------------------------------------------
  // The web, as the engine sees it

  /** `fetch(url)`: the hrefs of the page's anchors, `None` for a `null` or empty body.
      `resolve(href, base)`: the absolute URL `new URL(href, base).href`. */
  datatype Web = Web(fetch: string -> Option<seq<string>>, resolve: (string, string) -> string)

  /** The guard `url && isProductUrl(url)`: `isProductUrl` is `async`, so it returns a promise, and a
      promise is always truthy; only a missing or empty href is rejected. */
  predicate HasHref(href: string) {
    href != ""
  }

  /** The guard `link && link.startsWith('/')`. */
  predicate IsInternal(href: string) {
    href != "" && href[0] == '/'
  }

  /** The guard of the internal-link loop, with the visited set it consults. */
  function UnvisitedInternal(visited: set<string>): string -> bool {
    href => IsInternal(href) && href !in visited
  }

  function ResolveAgainst(resolve: (string, string) -> string, base: string): string -> string {
    href => resolve(href, base)
  }

  /** What `discoverProductUrls(htmlContent, baseUrl)` returns for a page with these anchors. */
  function ProductUrlsOf(resolve: (string, string) -> string, anchors: seq<string>, base: string): seq<string> {
    Map(Filter(anchors, HasHref), ResolveAgainst(resolve, base))
  }

  /** What the internal-link loop collects into `internalLinks`. */
  function InternalLinks(web: Web, anchors: seq<string>, visited: set<string>, base: string): seq<string> {
    Map(Filter(anchors, UnvisitedInternal(visited)), ResolveAgainst(web.resolve, base))
  }

  /** One more anchor adds its resolution exactly when its href is non-empty. */
  lemma ProductUrlsOfSnoc(resolve: (string, string) -> string, anchors: seq<string>, href: string, base: string)
    ensures ProductUrlsOf(resolve, anchors + [href], base) ==
      ProductUrlsOf(resolve, anchors, base) + (if href != "" then [resolve(href, base)] else [])
  {
    FilterAppend(anchors, [href], HasHref);
    assert Filter([href], HasHref) == if href != "" then [href] else [];
    MapAppend(Filter(anchors, HasHref), Filter([href], HasHref), ResolveAgainst(resolve, base));
  }

  /** One more anchor adds its resolution exactly when it is an unvisited internal href. */
  lemma InternalLinksSnoc(web: Web, anchors: seq<string>, href: string, visited: set<string>, base: string)
    ensures InternalLinks(web, anchors + [href], visited, base) ==
      InternalLinks(web, anchors, visited, base) +
      (if IsInternal(href) && href !in visited then [web.resolve(href, base)] else [])
  {
    var p := UnvisitedInternal(visited);
    FilterAppend(anchors, [href], p);
    assert Filter([href], p) == if IsInternal(href) && href !in visited then [href] else [];
    MapAppend(Filter(anchors, p), Filter([href], p), ResolveAgainst(web.resolve, base));
  }

  /** `discoverProductUrls` keeps one URL per non-empty href, in anchor order: the `k`-th result is the
      resolution of the `k`-th non-empty href, so the results are as many as the non-empty hrefs, and a
      URL is among them exactly when it is the resolution of some non-empty href of the page. */
  lemma ProductUrlsOfSpec(resolve: (string, string) -> string, anchors: seq<string>, base: string)
    ensures var hrefs := Filter(anchors, HasHref);
      |ProductUrlsOf(resolve, anchors, base)| == |hrefs| <= |anchors| &&
      IsSubsequence(hrefs, anchors) &&
      (forall k :: 0 <= k < |hrefs| ==> hrefs[k] != "" && ProductUrlsOf(resolve, anchors, base)[k] == resolve(hrefs[k], base))
    ensures forall u :: u in ProductUrlsOf(resolve, anchors, base) <==> exists h :: h in anchors && h != "" && u == resolve(h, base)
  {
    var hrefs := Filter(anchors, HasHref);
    var r := ProductUrlsOf(resolve, anchors, base);
    FilterSpec(anchors, HasHref);
    MapSpec(hrefs, ResolveAgainst(resolve, base));
    FilterIsSubsequence(anchors, HasHref);
    forall k | 0 <= k < |hrefs| ensures hrefs[k] != "" {
      assert hrefs[k] in hrefs;
    }
    forall u ensures u in r <==> exists h :: h in anchors && h != "" && u == resolve(h, base) {
      if u in r {
        var k :| 0 <= k < |r| && r[k] == u;
        assert hrefs[k] in hrefs;
      }
      if h :| h in anchors && h != "" && u == resolve(h, base) {
        assert h in hrefs;
        var k :| 0 <= k < |hrefs| && hrefs[k] == h;
        assert r[k] == u;
      }
    }
  }

  /** The guard at line 59 never consults the patterns: an anchor that no pattern matches still
      contributes its resolution. */
  lemma ClassifierIsIgnored(resolve: (string, string) -> string, base: string)
    ensures !IsProductUrl("/about-us")
    ensures ProductUrlsOf(resolve, ["/about-us"], base) == [resolve("/about-us", base)]
  {
    var s := "/about-us";
    AbsentCharacter(s, "/product/", 1);
    AbsentCharacter(s, "/item/", 1);
    AbsentCharacter(s, "/p/", 1);
    AbsentCharacter(s, "product-", 0);
    AbsentCharacter(s, "item-", 0);
    IsProductUrlIff(s);
    ProductUrlsOfSnoc(resolve, [], s, base);
    assert [] + [s] == [s];
  }

  /** No duplicate is removed, although the comment on `crawlPage` (line 71) promises unique URLs: a page
      that links the same href twice yields its resolution twice. */
  lemma DuplicatesAreKept(resolve: (string, string) -> string, base: string)
    ensures ProductUrlsOf(resolve, ["/x", "/x"], base) == [resolve("/x", base), resolve("/x", base)]
    ensures !NoDuplicates(ProductUrlsOf(resolve, ["/x", "/x"], base))
  {
    ProductUrlsOfSnoc(resolve, [], "/x", base);
    assert [] + ["/x"] == ["/x"];
    ProductUrlsOfSnoc(resolve, ["/x"], "/x", base);
    assert ["/x"] + ["/x"] == ["/x", "/x"];
    var r := ProductUrlsOf(resolve, ["/x", "/x"], base);
    assert r[0] == r[1];
  }

  /** Every URL the engine recurses into is the resolution of an href of the page that is non-empty,
      starts with `/` and, as a raw string, is not in the visited set; and every such href is recursed
      into, in anchor order: the `k`-th link is the resolution of the `k`-th such href. */
  lemma InternalLinksSpec(web: Web, anchors: seq<string>, visited: set<string>, base: string)
    ensures var hrefs := Filter(anchors, UnvisitedInternal(visited));
      |InternalLinks(web, anchors, visited, base)| == |hrefs| <= |anchors| &&
      IsSubsequence(hrefs, anchors) &&
      (forall k :: 0 <= k < |hrefs| ==>
        IsInternal(hrefs[k]) && hrefs[k] !in visited &&
        InternalLinks(web, anchors, visited, base)[k] == web.resolve(hrefs[k], base))
    ensures forall u :: u in InternalLinks(web, anchors, visited, base) <==>
      exists h :: h in anchors && IsInternal(h) && h !in visited && u == web.resolve(h, base)
  {
    var p := UnvisitedInternal(visited);
    var hrefs := Filter(anchors, p);
    var r := InternalLinks(web, anchors, visited, base);
    FilterSpec(anchors, p);
    MapSpec(hrefs, ResolveAgainst(web.resolve, base));
    FilterIsSubsequence(anchors, p);
    forall k | 0 <= k < |hrefs| ensures IsInternal(hrefs[k]) && hrefs[k] !in visited {
      assert hrefs[k] in hrefs;
      assert p(hrefs[k]);
    }
    forall u ensures u in r <==> exists h :: h in anchors && IsInternal(h) && h !in visited && u == web.resolve(h, base) {
      if u in r {
        var k :| 0 <= k < |r| && r[k] == u;
        assert hrefs[k] in hrefs;
      }
      if h :| h in anchors && IsInternal(h) && h !in visited && u == web.resolve(h, base) {
        assert p(h);
        assert h in hrefs;
        var k :| 0 <= k < |hrefs| && hrefs[k] == h;
        assert r[k] == u;
      }
    }
  }

  /** The loop of `discoverProductUrls` (lines 57-64). */
  method DiscoverProductUrls(resolve: (string, string) -> string, anchors: seq<string>, baseUrl: string)
    returns (productUrls: seq<string>)
    ensures productUrls == ProductUrlsOf(resolve, anchors, baseUrl)
  {
    productUrls := [];
    for i := 0 to |anchors|
      invariant productUrls == ProductUrlsOf(resolve, anchors[..i], baseUrl)
    {
      var url := anchors[i];
      if url != "" {
        productUrls := productUrls + [resolve(url, baseUrl)];
      }
      ProductUrlsOfSnoc(resolve, anchors[..i], url, baseUrl);
      assert anchors[..i + 1] == anchors[..i] + [url];
    }
    assert anchors[..|anchors|] == anchors;
  }

  // ---------------------------------------------------------------------------------------------
  // The traversal, as a function of the visited set

  /** What one call of `crawlPage` leaves behind: the list it returns, the visited set afterwards and,
      in order, the URLs it fetched (a ghost log: the source keeps none). */
  datatype Outcome = Outcome(found: seq<string>, visited: set<string>, fetched: seq<string>)

  /** The source puts no bound on the crawl. To reason about it at all, the model fixes a finite set of
      URLs, containing the start URL, that every resolved internal link of every page in it stays in. */
  ghost predicate Closed(web: Web, universe: set<string>, base: string) {
    forall page, h :: page in universe && web.fetch(page).Some? && h in web.fetch(page).value && IsInternal(h)
      ==> web.resolve(h, base) in universe
  }

  /** The links a fetched page contributes: the resolution of each of its non-empty hrefs. */
  ghost function PageLinks(web: Web, page: string, base: string): set<string> {
    match web.fetch(page)
    case None => {}
    case Some(anchors) => set h | h in anchors && h != "" :: web.resolve(h, base)
  }

  /** The links contributed by a sequence of fetched pages. */
  ghost function Harvest(web: Web, base: string, pages: seq<string>): set<string> {
    if pages == [] then {} else PageLinks(web, pages[0], base) + Harvest(web, base, pages[1..])
  }

  lemma {:induction false} HarvestAppend(web: Web, base: string, a: seq<string>, b: seq<string>)
    ensures Harvest(web, base, a + b) == Harvest(web, base, a) + Harvest(web, base, b)
  {
    if a == [] {
      assert a + b == b;
    } else {
      assert (a + b)[0] == a[0];
      assert (a + b)[1..] == a[1..] + b;
      HarvestAppend(web, base, a[1..], b);
    }
  }

  /** The page's own list has exactly the page's links as its elements. */
  lemma ProductUrlsOfElements(web: Web, page: string, anchors: seq<string>, base: string)
    requires web.fetch(page) == Some(anchors)
    ensures Elements(ProductUrlsOf(web.resolve, anchors, base)) == PageLinks(web, page, base)
  {
    ProductUrlsOfSpec(web.resolve, anchors, base);
  }

  /** Adding visited URLs never increases the number of unvisited URLs of the universe, and adding one
      of them decreases it. */
  lemma UnvisitedShrinks(universe: set<string>, before: set<string>, after: set<string>, url: string)
    requires before <= after
    ensures |universe - after| <= |universe - before|
    ensures url in universe && url !in before && url in after ==> |universe - after| < |universe - before|
  {
    var small, large := universe - after, universe - before;
    assert large == small + (large - small) && small * (large - small) == {};
    if url in universe && url !in before && url in after {
      assert url in large - small;
    }
  }

  /** Every URL the engine recurses into from a page of the universe is in the universe. */
  lemma InternalLinksStayInside(web: Web, universe: set<string>, base: string, page: string,
                                anchors: seq<string>, visited: set<string>)
    requires Closed(web, universe, base) && page in universe && web.fetch(page) == Some(anchors)
    ensures forall k :: 0 <= k < |InternalLinks(web, anchors, visited, base)| ==>
      InternalLinks(web, anchors, visited, base)[k] in universe
  {
    InternalLinksSpec(web, anchors, visited, base);
    var links := InternalLinks(web, anchors, visited, base);
    forall k | 0 <= k < |links| ensures links[k] in universe {
      assert links[k] in links;
    }
  }

  /** `crawlPage(url, base, visited)`, run to completion with no other crawl interleaved: the list it
      returns, the visited set it leaves and the pages it fetched. The visited set only grows. */
  ghost function Crawl(web: Web, universe: set<string>, base: string, visited: set<string>, url: string): (o: Outcome)
    requires Closed(web, universe, base) && url in universe
    ensures visited <= o.visited
    decreases |universe - visited|, 0, 0
  {
    if url in visited then Outcome([], visited, [])
    else
      var marked := visited + {url};
      match web.fetch(url)
      case None => Outcome([], marked, [url])
      case Some(anchors) =>
        var links := InternalLinks(web, anchors, marked, base);
        InternalLinksStayInside(web, universe, base, url, anchors, marked);
        UnvisitedShrinks(universe, visited, marked, url);
        var children := CrawlAll(web, universe, base, marked, links, 0);
        Outcome(ProductUrlsOf(web.resolve, anchors, base) + children.found, children.visited, [url] + children.fetched)
  }

  /** The children `links[i..]`, crawled one after another, each seeing the visited set its elder
      siblings left behind; their lists are concatenated in link order. */
  ghost function CrawlAll(web: Web, universe: set<string>, base: string, visited: set<string>,
                          links: seq<string>, i: nat): (o: Outcome)
    requires Closed(web, universe, base) && i <= |links|
    requires forall k :: 0 <= k < |links| ==> links[k] in universe
    ensures visited <= o.visited
    decreases |universe - visited|, 1, |links| - i
  {
    if i == |links| then Outcome([], visited, [])
    else
      var first := Crawl(web, universe, base, visited, links[i]);
      UnvisitedShrinks(universe, visited, first.visited, links[i]);
      var rest := CrawlAll(web, universe, base, first.visited, links, i + 1);
      Outcome(first.found + rest.found, rest.visited, first.fetched + rest.fetched)
  }

  /** Lines 87 and 100-103: a fresh URL whose page was fetched returns the page's own list followed by
      the lists of its children, which are the page's unvisited internal links in anchor order, crawled
      after the URL itself was marked visited. */
  lemma CrawlExpands(web: Web, universe: set<string>, base: string, visited: set<string>, url: string,
                     anchors: seq<string>)
    requires Closed(web, universe, base) && url in universe && url !in visited
    requires web.fetch(url) == Some(anchors)
    ensures forall k :: 0 <= k < |InternalLinks(web, anchors, visited + {url}, base)| ==>
      InternalLinks(web, anchors, visited + {url}, base)[k] in universe
    ensures Crawl(web, universe, base, visited, url) ==
      Outcome(ProductUrlsOf(web.resolve, anchors, base) +
                CrawlAll(web, universe, base, visited + {url}, InternalLinks(web, anchors, visited + {url}, base), 0).found,
              CrawlAll(web, universe, base, visited + {url}, InternalLinks(web, anchors, visited + {url}, base), 0).visited,
              [url] + CrawlAll(web, universe, base, visited + {url}, InternalLinks(web, anchors, visited + {url}, base), 0).fetched)
  {
    InternalLinksStayInside(web, universe, base, url, anchors, visited + {url});
  }

  /** One step of `CrawlAll`: the first sibling, then the rest from where it left the visited set. */
  lemma CrawlAllStep(web: Web, universe: set<string>, base: string, visited: set<string>, links: seq<string>, i: nat)
    requires Closed(web, universe, base) && i < |links|
    requires forall k :: 0 <= k < |links| ==> links[k] in universe
    ensures var first := Crawl(web, universe, base, visited, links[i]);
      var rest := CrawlAll(web, universe, base, first.visited, links, i + 1);
      CrawlAll(web, universe, base, visited, links, i) ==
        Outcome(first.found + rest.found, rest.visited, first.fetched + rest.fetched)
  {
  }

  /** What a crawl that started from `before` and ended in `o` guarantees: the visited set grows only
      by URLs of the universe, the fetched URLs are exactly the newly visited ones, and none of them is
      fetched twice. */
  ghost predicate FetchesOnce(universe: set<string>, before: set<string>, o: Outcome) {
    && o.visited - before <= universe
    && (forall x :: x in o.fetched <==> x in o.visited && x !in before)
    && NoDuplicates(o.fetched)
  }

  /** Lines 78-84 and 100: within one top-level call no URL is fetched twice. */
  lemma {:induction false} CrawlFetchesOnce(web: Web, universe: set<string>, base: string, visited: set<string>, url: string)
    requires Closed(web, universe, base) && url in universe
    ensures FetchesOnce(universe, visited, Crawl(web, universe, base, visited, url))
    decreases |universe - visited|, 0, 0
  {
    if url !in visited {
      var marked := visited + {url};
      match web.fetch(url)
      case None =>
      case Some(anchors) =>
        var links := InternalLinks(web, anchors, marked, base);
        InternalLinksStayInside(web, universe, base, url, anchors, marked);
        UnvisitedShrinks(universe, visited, marked, url);
        var children := CrawlAll(web, universe, base, marked, links, 0);
        CrawlAllFetchesOnce(web, universe, base, marked, links, 0);
        NoDuplicatesAppend([url], children.fetched);
    }
  }

  /** The same guarantee for a run of siblings. */
  lemma {:induction false} CrawlAllFetchesOnce(web: Web, universe: set<string>, base: string, visited: set<string>,
                                               links: seq<string>, i: nat)
    requires Closed(web, universe, base) && i <= |links|
    requires forall k :: 0 <= k < |links| ==> links[k] in universe
    ensures FetchesOnce(universe, visited, CrawlAll(web, universe, base, visited, links, i))
    decreases |universe - visited|, 1, |links| - i
  {
    if i < |links| {
      var first := Crawl(web, universe, base, visited, links[i]);
      CrawlFetchesOnce(web, universe, base, visited, links[i]);
      UnvisitedShrinks(universe, visited, first.visited, links[i]);
      var rest := CrawlAll(web, universe, base, first.visited, links, i + 1);
      CrawlAllFetchesOnce(web, universe, base, first.visited, links, i + 1);
      NoDuplicatesAppend(first.fetched, rest.fetched);
    }
  }

  /** Line 103: what a call returns holds exactly the links of the pages it fetched. */
  lemma {:induction false} CrawlReturnsHarvest(web: Web, universe: set<string>, base: string, visited: set<string>, url: string)
    requires Closed(web, universe, base) && url in universe
    ensures var o := Crawl(web, universe, base, visited, url);
      Elements(o.found) == Harvest(web, base, o.fetched)
    decreases |universe - visited|, 0, 0
  {
    if url !in visited {
      var marked := visited + {url};
      match web.fetch(url)
      case None =>
      case Some(anchors) =>
        var links := InternalLinks(web, anchors, marked, base);
        InternalLinksStayInside(web, universe, base, url, anchors, marked);
        UnvisitedShrinks(universe, visited, marked, url);
        var children := CrawlAll(web, universe, base, marked, links, 0);
        CrawlAllReturnsHarvest(web, universe, base, marked, links, 0);
        ElementsAppend(ProductUrlsOf(web.resolve, anchors, base), children.found);
        ProductUrlsOfElements(web, url, anchors, base);
        HarvestAppend(web, base, [url], children.fetched);
    }
  }

  /** The same for a run of siblings. */
  lemma {:induction false} CrawlAllReturnsHarvest(web: Web, universe: set<string>, base: string, visited: set<string>,
                                                  links: seq<string>, i: nat)
    requires Closed(web, universe, base) && i <= |links|
    requires forall k :: 0 <= k < |links| ==> links[k] in universe
    ensures var o := CrawlAll(web, universe, base, visited, links, i);
      Elements(o.found) == Harvest(web, base, o.fetched)
    decreases |universe - visited|, 1, |links| - i
  {
    if i < |links| {
      var first := Crawl(web, universe, base, visited, links[i]);
      CrawlReturnsHarvest(web, universe, base, visited, links[i]);
      UnvisitedShrinks(universe, visited, first.visited, links[i]);
      var rest := CrawlAll(web, universe, base, first.visited, links, i + 1);
      CrawlAllReturnsHarvest(web, universe, base, first.visited, links, i + 1);
      ElementsAppend(first.found, rest.found);
      HarvestAppend(web, base, first.fetched, rest.fetched);
    }
  }

  /** Lines 78-80: a URL already in the visited set yields `[]`, is not fetched, and leaves the set as
      it was. */
  lemma RevisitIsNoop(web: Web, universe: set<string>, base: string, visited: set<string>, url: string)
    requires Closed(web, universe, base) && url in universe && url in visited
    ensures Crawl(web, universe, base, visited, url) == Outcome([], visited, [])
  {
  }

  /** Lines 82-85: a fresh URL is marked visited and fetched first, before any child; when the fetch
      gives nothing, the call returns `[]` and no child is crawled. */
  lemma FreshUrlIsFetchedFirst(web: Web, universe: set<string>, base: string, visited: set<string>, url: string)
    requires Closed(web, universe, base) && url in universe && url !in visited
    ensures var o := Crawl(web, universe, base, visited, url);
      url in o.visited && |o.fetched| >= 1 && o.fetched[0] == url &&
      (web.fetch(url).None? ==> o == Outcome([], visited + {url}, [url]))
  {
  }

  /** Line 103: the page's own list is a prefix of what the call returns. */
  lemma OwnLinksComeFirst(web: Web, universe: set<string>, base: string, visited: set<string>, url: string,
                          anchors: seq<string>)
    requires Closed(web, universe, base) && url in universe && url !in visited
    requires web.fetch(url) == Some(anchors)
    ensures ProductUrlsOf(web.resolve, anchors, base) <= Crawl(web, universe, base, visited, url).found
  {
  }

  /** A call fetches at most as many pages as the universe has unvisited URLs. */
  lemma {:induction false} CrawlFetchBound(web: Web, universe: set<string>, base: string, visited: set<string>, url: string)
    requires Closed(web, universe, base) && url in universe
    ensures |Crawl(web, universe, base, visited, url).fetched| <= |universe - visited|
  {
    var o := Crawl(web, universe, base, visited, url);
    CrawlFetchesOnce(web, universe, base, visited, url);
    NoDuplicatesCardinality(o.fetched);
    var fetchedSet := set x | x in o.fetched;
    var unvisited := universe - visited;
    assert fetchedSet <= unvisited;
    assert unvisited == fetchedSet + (unvisited - fetchedSet) && fetchedSet * (unvisited - fetchedSet) == {};
  }

  // ---------------------------------------------------------------------------------------------
  // The engine

  /** The shared `visitedUrls` set, threaded through every recursive `crawlPage` call, together with
      the page map and the base URL resolution every call uses. */
  class Crawler {
    const web: Web
    /** The finite universe the crawl stays in (see `Closed`). */
    ghost const universe: set<string>
    var visited: set<string>
    /** Every URL fetched so far, in fetch order. */
    ghost var fetched: seq<string>

    constructor (web: Web, ghost universe: set<string>, visited: set<string>)
      ensures this.web == web && this.universe == universe
      ensures this.visited == visited && fetched == []
    {
      this.web := web;
      this.universe := universe;
      this.visited := visited;
      fetched := [];
    }

    /** Lines 90-97: the unvisited internal hrefs of the page, resolved against the base URL. */
    method CollectInternalLinks(anchors: seq<string>, baseUrl: string) returns (internalLinks: seq<string>)
      ensures internalLinks == InternalLinks(web, anchors, visited, baseUrl)
    {
      internalLinks := [];
      for i := 0 to |anchors|
        invariant internalLinks == InternalLinks(web, anchors[..i], visited, baseUrl)
      {
        var link := anchors[i];
        if link != "" && link[0] == '/' && link !in visited {
          internalLinks := internalLinks + [web.resolve(link, baseUrl)];
        }
        InternalLinksSnoc(web, anchors[..i], link, visited, baseUrl);
        assert anchors[..i + 1] == anchors[..i] + [link];
      }
      assert anchors[..|anchors|] == anchors;
    }

    /** `crawlPage(url, baseUrl, visitedUrls)`. */
    method CrawlPage(url: string, baseUrl: string) returns (productUrls: seq<string>)
      requires Closed(web, universe, baseUrl) && url in universe
      modifies this
      ensures productUrls == Crawl(web, universe, baseUrl, old(visited), url).found
      ensures visited == Crawl(web, universe, baseUrl, old(visited), url).visited
      ensures fetched == old(fetched) + Crawl(web, universe, baseUrl, old(visited), url).fetched
      decreases |universe - visited|, 0
    {
      if url in visited {
        return [];
      }
      visited := visited + {url};
      fetched := fetched + [url];
      var htmlContent := web.fetch(url);
      if htmlContent.None? {
        return [];
      }
      var anchors := htmlContent.value;
      var pageUrls := DiscoverProductUrls(web.resolve, anchors, baseUrl);
      var internalLinks := CollectInternalLinks(anchors, baseUrl);
      assert forall k :: 0 <= k < |internalLinks| ==> internalLinks[k] in universe by {
        InternalLinksStayInside(web, universe, baseUrl, url, anchors, visited);
      }
      assert |universe - visited| < |universe - old(visited)| by {
        UnvisitedShrinks(universe, old(visited), visited, url);
      }
      var nextUrls := CrawlLinks(internalLinks, 0, baseUrl);
      productUrls := pageUrls + nextUrls;
      CrawlExpands(web, universe, baseUrl, old(visited), url, anchors);
      AppendAssoc(old(fetched), [url], CrawlAll(web, universe, baseUrl, old(visited) + {url}, internalLinks, 0).fetched);
    }

    /** Line 100: the internal links `internalLinks[i..]` crawled in turn, each with the visited set
        the earlier ones left behind; their lists concatenated in link order. */
    method CrawlLinks(internalLinks: seq<string>, i: nat, baseUrl: string) returns (nextUrls: seq<string>)
      requires Closed(web, universe, baseUrl) && i <= |internalLinks|
      requires forall k :: 0 <= k < |internalLinks| ==> internalLinks[k] in universe
      modifies this
      ensures nextUrls == CrawlAll(web, universe, baseUrl, old(visited), internalLinks, i).found
      ensures visited == CrawlAll(web, universe, baseUrl, old(visited), internalLinks, i).visited
      ensures fetched == old(fetched) + CrawlAll(web, universe, baseUrl, old(visited), internalLinks, i).fetched
      decreases |universe - visited|, 1, |internalLinks| - i
    {
      if i == |internalLinks| {
        return [];
      }
      var childUrls := CrawlPage(internalLinks[i], baseUrl);
      ghost var first := Crawl(web, universe, baseUrl, old(visited), internalLinks[i]);
      assert |universe - visited| <= |universe - old(visited)| by {
        UnvisitedShrinks(universe, old(visited), visited, internalLinks[i]);
      }
      var restUrls := CrawlLinks(internalLinks, i + 1, baseUrl);
      nextUrls := childUrls + restUrls;
      CrawlAllStep(web, universe, baseUrl, old(visited), internalLinks, i);
      AppendAssoc(old(fetched), first.fetched, CrawlAll(web, universe, baseUrl, first.visited, internalLinks, i + 1).fetched);
    }
  }
}
