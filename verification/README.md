# Product-URL discovery: a Dafny model of the crawl engine and its extractors

This project models the core of a small web crawler that looks for product-detail pages on
e-commerce sites. It covers three JavaScript files:

- **crawlerimplementation.js**, the crawl engine:
  - `crawlPage` marks a URL in the shared `visitedUrls` set and fetches the page.
  - It collects the page's links through `discoverProductUrls`.
  - It recurses into every path-absolute href, resolved against the base URL.
  - It returns the page's own list followed by the lists of its children.
- **urldiscovery.js**, the one-page extractor. It fetches one page and keeps the non-empty hrefs that
  pass the product classifier, resolved against the page URL, all inside one `try`.
- **urlstructurehandler.js**, the text-level extractor. It finds every `href="…"` in the raw HTML with a
  global regular expression, strips the `href="` and the quotes, and keeps what passes the classifier.

The model is organised in modules:

- `Wrappers` holds `Option`.
- `Seqs` holds order-preserving list operations (filter, map, a map that can fail), subsequences and
  duplicate-freedom.
- `Patterns` holds the substring test and the table-driven classifier loop that all three files share.
  Every pattern in the three tables is a plain literal, so `pattern.test(url)` is a substring test.
- `CrawlerImplementation`, `UrlDiscovery` and `UrlStructureHandler` model one source file each.

In crawlerimplementation.js the network, the HTML parser and URL resolution come in as a value
`Web(fetch, resolve)`:

- `fetch(url)` gives the href of every anchor of the page in document order, or `None` when `fetchPage`
  returned `null` or an empty body. An anchor without an href gives `""`.
- `resolve(href, base)` is an uninterpreted total function.

The engine is the class `Crawler`:

- It holds the `visited` set and a ghost log `fetched` of the URLs fetched, in order.
- `Crawler.CrawlPage` is proved equal to the ghost function `Crawl`, which describes what one call
  returns, the visited set it leaves behind and the pages it fetches.
- The properties are proved as lemmas about `Crawl`: no URL is fetched twice, the result holds exactly
  the links of the fetched pages, and so on.

The source puts no bound on the crawl. The model therefore fixes a ghost, finite `universe` of URLs
that contains the start URL. Every resolved internal link of every page in the universe must stay in
it (`Closed`). The measure `|universe - visited|` then decreases.

Where the code and its own comments disagree, the model follows the code:

- **The classifier is never consulted by the engine (crawlerimplementation.js:17, 59).**
  - `isProductUrl` is `async` in crawlerimplementation.js, so `url && isProductUrl(url)` tests a promise.
    A promise is always truthy.
  - `discoverProductUrls` there therefore keeps the resolution of *every* non-empty href. The pattern
    table has no effect.
  - `CrawlerImplementation.ClassifierIsIgnored` shows this: `/about-us` is not a product URL, yet it is
    returned.
  - The comments promise otherwise: the table holds "the patterns for product URLs"
    (crawlerimplementation.js:5), the check answers true only for a URL that "matches a product pattern"
    (lines 19-21), and both `discoverProductUrls` and `crawlPage` return a "List of product URLs"
    (lines 47-51, 76). Only
    urldiscovery.js and urlstructurehandler.js filter links that way, and their modules model that.
- **Results are lists, not sets (crawlerimplementation.js:71).** The comment on `crawlPage` promises
  "the list of unique URLs", but no file removes duplicates. The same URL linked twice is returned twice;
  `CrawlerImplementation.DuplicatesAreKept` shows this for one page. Where a property is about which URLs
  occur, it is stated on the set of elements (`Elements`).
- **A failed resolution is not silently dropped.**
  - In urldiscovery.js it abandons the whole page, and the function returns `[]`.
  - In crawlerimplementation.js it would reject the whole crawl (see "Left out").
- **The visited test at crawlerimplementation.js:94 compares the raw href with the set.** The set holds
  absolute URLs, so this test in practice never prevents a revisit; the test at lines 78-80 does. The
  model keeps line 94 as written.
- **An unreachable start page gives `[]`** rather than an error, as the comment at
  crawlerimplementation.js:85 says.

## Model

| member | source | states |
|---|---|---|
| Patterns.TestPatterns | crawlerimplementation.js:23-28 | the classifier loop answers true exactly when some pattern of the table occurs in the URL; when it answers true, the pattern it stopped at matches and no earlier pattern does (early return at the first match); the same loop is urldiscovery.js:19-24 and urlstructurehandler.js:9-14 |
| CrawlerImplementation.IsProductUrlIff | crawlerimplementation.js:6-12 | a URL is a product URL exactly when one of `/product/`, `/item/`, `/p/`, `product-`, `item-` occurs in it |
| CrawlerImplementation.ClassifyUrl | crawlerimplementation.js:17-29 | `isProductUrl` answers true exactly for product URLs |
| CrawlerImplementation.ProductUrlsOfSnoc | crawlerimplementation.js:57-64 | one more anchor appends the resolution of its href exactly when the href is non-empty, whatever the patterns say |
| CrawlerImplementation.ProductUrlsOfSpec | crawlerimplementation.js:57-64 | the list holds one URL per non-empty href, in anchor order: the k-th URL is the resolution of the k-th non-empty href, so there are as many as there are non-empty hrefs and at most as many as anchors, and a URL is in the list exactly when it resolves some non-empty href of the page |
| CrawlerImplementation.ClassifierIsIgnored | crawlerimplementation.js:59 | `/about-us` matches no pattern, yet the page `[/about-us]` yields its resolution: the promise-valued guard filters nothing |
| CrawlerImplementation.DiscoverProductUrls | crawlerimplementation.js:46-67 | the `each` loop returns exactly the list that `ProductUrlsOfSpec` characterises |
| CrawlerImplementation.DuplicatesAreKept | crawlerimplementation.js:57-71 | a page that links `/x` twice yields its resolution twice, so the list is not duplicate-free, against the "unique URLs" of the comment at line 71 |
| CrawlerImplementation.InternalLinksSnoc | crawlerimplementation.js:92-97 | one more anchor appends its resolution exactly when its href is non-empty, starts with `/` and is not itself in the visited set |
| CrawlerImplementation.InternalLinksSpec | crawlerimplementation.js:92-97 | the links recursed into follow anchor order: the k-th is the resolution of the k-th href that is non-empty, starts with `/` and is not, as a raw string, in the visited set; there are exactly as many as such hrefs and at most as many as anchors; and a URL is recursed into exactly when it resolves such an href |
| CrawlerImplementation.Crawler.CollectInternalLinks | crawlerimplementation.js:90-97 | the loop returns exactly the list that `InternalLinksSpec` characterises, for the visited set at the time of the call |
| CrawlerImplementation.ProductUrlsOfElements | crawlerimplementation.js:57-64 | the page's own list holds exactly the resolutions of the page's non-empty hrefs |
| CrawlerImplementation.UnvisitedShrinks | crawlerimplementation.js:82 | adding URLs to the visited set never increases the number of unvisited URLs of the universe, and adding an unvisited one decreases it |
| CrawlerImplementation.InternalLinksStayInside | crawlerimplementation.js:92-96 | from a page of a closed universe, every link recursed into is in the universe |
| CrawlerImplementation.Crawl | crawlerimplementation.js:78-103 | one call never removes a URL from the visited set |
| CrawlerImplementation.CrawlAll | crawlerimplementation.js:100-103 | crawling the children one after another never removes a URL from the visited set |
| CrawlerImplementation.CrawlExpands | crawlerimplementation.js:82-103 | for a fresh URL whose page was fetched, the call returns the page's own list followed by the children's lists; the children are its unvisited internal links in anchor order, crawled after the URL itself was marked visited, and the URL is fetched before any child |
| CrawlerImplementation.CrawlAllStep | crawlerimplementation.js:100-103 | the children's outcome is the first child's outcome followed by the rest, crawled from the visited set the first child left |
| CrawlerImplementation.RevisitIsNoop | crawlerimplementation.js:78-80 | a URL already visited yields `[]`, fetches nothing and leaves the visited set unchanged |
| CrawlerImplementation.FreshUrlIsFetchedFirst | crawlerimplementation.js:82-85 | a fresh URL is marked visited and is the first page fetched; when the fetch gives nothing the call returns `[]`, the visited set gains exactly that URL and no child is crawled |
| CrawlerImplementation.OwnLinksComeFirst | crawlerimplementation.js:87-103 | the page's own list is a prefix of what the call returns |
| CrawlerImplementation.CrawlFetchesOnce | crawlerimplementation.js:78-84 | within one call no URL is fetched twice, the fetched URLs are exactly the URLs the call added to the visited set, and these all lie in the universe |
| CrawlerImplementation.CrawlAllFetchesOnce | crawlerimplementation.js:100 | the same for a run of children sharing one visited set |
| CrawlerImplementation.CrawlReturnsHarvest | crawlerimplementation.js:87-103 | the URLs a call returns are exactly the links of the pages it fetched |
| CrawlerImplementation.CrawlAllReturnsHarvest | crawlerimplementation.js:100-103 | the same for a run of children |
| CrawlerImplementation.CrawlFetchBound | crawlerimplementation.js:78-84 | a call fetches at most as many pages as the universe has unvisited URLs |
| CrawlerImplementation.Crawler.constructor | crawlerimplementation.js:69 | the engine starts from the caller's visited set, with nothing fetched yet |
| CrawlerImplementation.Crawler.CrawlPage | crawlerimplementation.js:69-104 | `crawlPage` returns, leaves in the shared visited set, and fetches in order exactly what `Crawl` describes for the visited set it started with |
| CrawlerImplementation.Crawler.CrawlLinks | crawlerimplementation.js:100 | crawling the internal links in order, each child seeing the visited set its elder siblings left, returns their lists concatenated, as `CrawlAll` describes |
| UrlDiscovery.IsProductUrlIff | urldiscovery.js:5-11 | a URL is a product URL exactly when one of `/product/`, `/item/`, `/p/`, `product-`, `item-` occurs in it |
| UrlDiscovery.ClassifierExamples | urldiscovery.js:13-25 | `/product/123` and `item-456` are product URLs; `/about-us` is not |
| UrlDiscovery.ClassifyUrl | urldiscovery.js:13-25 | `isProductUrl` answers true exactly for product URLs |
| UrlDiscovery.ProductUrlsOfAppend | urldiscovery.js:44-51 | splitting the anchors splits the loop: a throw in either part abandons the whole, otherwise the two lists concatenate |
| UrlDiscovery.ProductUrlsOfSnoc | urldiscovery.js:45-50 | one more anchor is skipped unless its href is non-empty and a product URL; then its resolution is appended, or the resolution throws and the page is abandoned |
| UrlDiscovery.ProductUrlsOfAbandoned | urldiscovery.js:48-58 | once a resolution has thrown, the rest of the anchors cannot bring the page back |
| UrlDiscovery.DiscoverProductUrls | urldiscovery.js:27-59 | the function returns `[]` on a failed fetch or a throwing resolution, and otherwise the resolutions of the candidate hrefs, as `DiscoveredSound`, `DiscoveredInOrder` and `DiscoveredComplete` characterise |
| UrlDiscovery.DiscoveredSound | urldiscovery.js:44-50 | every URL returned resolves a non-empty href of the page that is a product URL; empty hrefs and hrefs matching no pattern contribute nothing |
| UrlDiscovery.DiscoveredInOrder | urldiscovery.js:41-53 | when nothing throws, the k-th URL is the resolution of the k-th candidate href, the candidates are a subsequence of the anchors, and the result is no longer than the anchor list |
| UrlDiscovery.DiscoveredAllOrNothing | urldiscovery.js:33-58 | a failed fetch, or a single candidate whose resolution throws, gives `[]` and never a partial list |
| UrlDiscovery.DiscoveredComplete | urldiscovery.js:44-50 | when nothing throws, the resolution of every candidate href is returned |
| UrlStructureHandler.IsProductUrlIff | urlstructurehandler.js:1-6 | a URL is a product URL exactly when one of `/product/`, `/item/`, `/p/`, `product-id-` occurs in it |
| UrlStructureHandler.ProductUrlIsLong | urlstructurehandler.js:8-15 | a product URL has at least three characters, so it is never empty |
| UrlStructureHandler.ClassifyUrl | urlstructurehandler.js:8-15 | `isProductUrl` answers true exactly for product URLs |
| UrlStructureHandler.QuoteFrom | urlstructurehandler.js:20 | finds the first `"` at or after an index, or reports that there is none |
| UrlStructureHandler.MatchEndAt | urlstructurehandler.js:20 | a match is at least eight characters long and lies within the text |
| UrlStructureHandler.MatchEndAtShape | urlstructurehandler.js:20 | what the matcher reports is `href="`, one or more characters other than `"`, and a closing `"` |
| UrlStructureHandler.ShapeIsMatchEndAt | urlstructurehandler.js:20 | every text of that shape starting at an index is what the matcher reports there, so at most one match starts at any index |
| UrlStructureHandler.MatchEndAtIff | urlstructurehandler.js:20 | both directions together: a match ends at `e` exactly when the text up to `e` has the shape of a match |
| UrlStructureHandler.Scan | urlstructurehandler.js:20 | the global match list of `pageContent.match(/href="([^"]+)"/g)`, left to right; it has at most one match per eight characters of the text; `ScanMatches`, `ScanEmptyIff` and `ScanFirst` establish that every element is a match, that the list is empty exactly when no match starts anywhere, and that it takes the leftmost match and resumes after it |
| UrlStructureHandler.ScanMatches | urlstructurehandler.js:20 | every element of the global match list is a match |
| UrlStructureHandler.ScanEmptyIff | urlstructurehandler.js:20-21 | the match list is empty (`match` answers `null`) exactly when no match starts anywhere in the text |
| UrlStructureHandler.ScanFirst | urlstructurehandler.js:20 | the first element of the match list is the leftmost match, and the search resumes right after it, so matches never overlap |
| UrlStructureHandler.NoOpeningNoMatch | urlstructurehandler.js:20 | text without `href="` has no match |
| UrlStructureHandler.NonMatchingAttributes | urlstructurehandler.js:20 | `href=""`, an upper-case `HREF="…"` and a single-quoted `href='…'` give no match |
| UrlStructureHandler.Clean | urlstructurehandler.js:23 | `link.replace(/href="\|"/g, '')`: a cleaned string holds no `"` and is never longer than its input; with `CleanQuoted` and `CleanMatch`, a cleaned match is its quoted text less a trailing `href=` |
| UrlStructureHandler.CleanQuoted | urlstructurehandler.js:23 | cleaning a quote-free text followed by a quote gives the text back, less a trailing `href=` (which forms one last `href="` with the quote) |
| UrlStructureHandler.CleanSkipsOpening | urlstructurehandler.js:23 | a leading `href="` is deleted as a whole |
| UrlStructureHandler.CleanMatch | urlstructurehandler.js:23 | a cleaned match is its quoted text, less a trailing `href=` |
| UrlStructureHandler.ProductUrlsOfMatchesSnoc | urlstructurehandler.js:22-27 | one more match appends its cleaned text exactly when that passes the classifier |
| UrlStructureHandler.KeepProductUrls | urlstructurehandler.js:22-27 | the `forEach` loop keeps, in order, exactly the cleaned matches that pass the classifier |
| UrlStructureHandler.DiscoverProductUrlsFromPage | urlstructurehandler.js:17-30 | the function returns, in document order, the cleaned matches that pass the classifier, and `[]` when `match` answers `null` |
| UrlStructureHandler.CleanedMatches | urlstructurehandler.js:23 | every cleaned match is quote-free and is the quoted text of its match, less a trailing `href=` |
| UrlStructureHandler.FromPageSound | urlstructurehandler.js:20-25 | every URL returned passes the classifier, has at least three characters and holds no `"`; it is the quoted text of one of the page's matches, returned as written and never resolved against a base |
| UrlStructureHandler.FromPageOrder | urlstructurehandler.js:20-28 | the result keeps document order, has at most one URL per match, and holds every cleaned match that passes the classifier |
| UrlStructureHandler.FromPageNoMatch | urlstructurehandler.js:20-29 | text with no match gives `[]` |
| UrlStructureHandler.SingleAttribute | urlstructurehandler.js:20-25 | a page that is a single attribute `href="t"` has that attribute as its one match, and yields `t` (less a trailing `href=`) exactly when it is a product URL |

## Left out

- HTTP is left out: `axios.get`, and `fetchPage` (crawlerimplementation.js:31-44) with its console logging.
  - In crawlerimplementation.js a failed request and an empty body are both the `None` of `Web.fetch`.
  - In urldiscovery.js a failed request is the `None` of the `fetch` parameter.
- HTML parsing (`cheerio.load`, `$('a').each`, `attr('href')`) is left out. Each page is given directly
  as its list of hrefs in document order.
- URL resolution (`new URL(href, base).href`) is left out. It is a parameter.
  - In urldiscovery.js it may fail; a failure is the exception the `try` catches.
  - In crawlerimplementation.js it is total. A throw there would reject the promise of the whole crawl.
    That path is not modelled.
- Concurrency is left out: the `p-limit` admission gate (crawlerimplementation.js:15, 100) and the
  interleaving of the promises in `Promise.all`.
  - The model crawls the children one after another, depth first. Each child sees the visited set its
    elder siblings left.
  - With real interleaving, which branch first claims a shared URL, and so where that URL's products
    appear in the result, can differ.
  - The deadlock possible when nested `limit` calls hold every slot while waiting for a child is not
    modelled.
- CrawlerImplementation.Crawl: the finite `universe` closed under resolution is a modelling device the
  source does not have. Every statement about a crawl assumes such a universe exists for the start URL.
  A site whose pages generate unboundedly many new internal URLs (where the source would not
  terminate) is outside the model.
- The example drivers at the end of each file and their console output are not part of this model.
- scrollhandle.js and ajaxrequesttoloadproduct.js are not part of this model. They need a headless
  browser, timers and live page state.
