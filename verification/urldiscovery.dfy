/** urldiscovery.js: the one-page product-URL extractor.

    `discoverProductUrls(url)` fetches the page at `url`, walks its anchors in document order and keeps
    every href that is non-empty and passes `isProductUrl`, resolved against `url`. Everything happens
    inside one `try`: a failed fetch, or a resolution that throws, abandons the whole page and the
    function returns `[]`.

    The fetch (`axios.get` followed by `cheerio.load`) is the parameter `fetch`, giving the href of every
    anchor of the page in document order (`""` for an anchor without one) or `None` when the request
    throws. `new URL(link, url).href` is the parameter `resolve`, `None` where the constructor throws. */
module UrlDiscovery {
  import opened Wrappers
  import opened Seqs
  import opened Patterns

  // ---------------------------------------------------------------------------------------------
  // The classifier

  /** `PRODUCT_PATTERNS`, in table order. */
  const ProductPatterns: seq<string> := ["/product/", "/item/", "/p/", "product-", "item-"]

  /** What `isProductUrl` answers. */
  predicate IsProductUrl(url: string) {
    MatchesAny(ProductPatterns, url)
  }

  /** The table, spelled out: a URL is a product URL exactly when one of the five literals occurs in it. */
  lemma {:induction false} IsProductUrlIff(url: string)
    ensures IsProductUrl(url) <==>
      Contains(url, "/product/") || Contains(url, "/item/") || Contains(url, "/p/") ||
      Contains(url, "product-") || Contains(url, "item-")
  {
    if IsProductUrl(url) {
      var k :| 0 <= k < |ProductPatterns| && Contains(url, ProductPatterns[k]);
      assert k == 0 || k == 1 || k == 2 || k == 3 || k == 4;
    }
    if Contains(url, "/product/") { assert Contains(url, ProductPatterns[0]); }
    if Contains(url, "/item/") { assert Contains(url, ProductPatterns[1]); }
    if Contains(url, "/p/") { assert Contains(url, ProductPatterns[2]); }
    if Contains(url, "product-") { assert Contains(url, ProductPatterns[3]); }
    if Contains(url, "item-") { assert Contains(url, ProductPatterns[4]); }
  }

  /** Positive and negative examples of the classifier. */
  lemma ClassifierExamples()
    ensures IsProductUrl("/product/123")
    ensures IsProductUrl("item-456")
    ensures !IsProductUrl("/about-us")
  {
    assert OccursAt("/product/123", ProductPatterns[0], 0);
    assert OccursAt("item-456", ProductPatterns[4], 0);
    var s := "/about-us";
    AbsentCharacter(s, "/product/", 1);
    AbsentCharacter(s, "/item/", 1);
    AbsentCharacter(s, "/p/", 1);
    AbsentCharacter(s, "product-", 0);
    AbsentCharacter(s, "item-", 0);
    IsProductUrlIff(s);
  }

  /** `isProductUrl(url)`: the patterns are tried in table order and the first match answers `true`. */
  method ClassifyUrl(url: string) returns (isProduct: bool)
    ensures isProduct <==> IsProductUrl(url)
  {
    ghost var first: nat;
    isProduct, first := TestPatterns(ProductPatterns, url);
  }

  // ---------------------------------------------------------------------------------------------
  // The extraction

  /** The guard `link && isProductUrl(link)`: classification looks at the raw href, before resolution. */
  predicate IsCandidate(href: string) {
    href != "" && IsProductUrl(href)
  }

  function ResolveWith(resolve: (string, string) -> Option<string>, url: string): string -> Option<string> {
    href => resolve(href, url)
  }

  /** What the `each` loop leaves in `productUrls` for a page with these anchors, or `None` when one of
      the resolutions throws. */
  function ProductUrlsOf(resolve: (string, string) -> Option<string>, anchors: seq<string>, url: string)
    : Option<seq<string>>
  {
    TryMap(Filter(anchors, IsCandidate), ResolveWith(resolve, url))
  }

  /** What `discoverProductUrls(url)` returns. */
  function Discovered(fetch: string -> Option<seq<string>>, resolve: (string, string) -> Option<string>,
                      url: string): seq<string>
  {
    match fetch(url)
    case None => []
    case Some(anchors) =>
      match ProductUrlsOf(resolve, anchors, url)
      case None => []
      case Some(productUrls) => productUrls
  }

  /** Splitting the anchors splits the loop: a throw in either part abandons the whole, otherwise the
      two lists concatenate. */
  lemma ProductUrlsOfAppend(resolve: (string, string) -> Option<string>, a: seq<string>, b: seq<string>, url: string)
    ensures ProductUrlsOf(resolve, a + b, url) ==
      if ProductUrlsOf(resolve, a, url).None? || ProductUrlsOf(resolve, b, url).None? then None
      else Some(ProductUrlsOf(resolve, a, url).value + ProductUrlsOf(resolve, b, url).value)
  {
    FilterAppend(a, b, IsCandidate);
    TryMapAppend(Filter(a, IsCandidate), Filter(b, IsCandidate), ResolveWith(resolve, url));
  }

  /** One more anchor: skipped unless it is a candidate; a candidate is resolved and kept, or its
      resolution throws and abandons the page. */
  lemma ProductUrlsOfSnoc(resolve: (string, string) -> Option<string>, anchors: seq<string>, href: string, url: string)
    requires ProductUrlsOf(resolve, anchors, url).Some?
    ensures ProductUrlsOf(resolve, anchors + [href], url) ==
      if !IsCandidate(href) then ProductUrlsOf(resolve, anchors, url)
      else if resolve(href, url).None? then None
      else Some(ProductUrlsOf(resolve, anchors, url).value + [resolve(href, url).value])
  {
    ProductUrlsOfAppend(resolve, anchors, [href], url);
    assert Filter([href], IsCandidate) == if IsCandidate(href) then [href] else [];
    assert [href][1..] == [];
    assert ProductUrlsOf(resolve, anchors, url).value + [] == ProductUrlsOf(resolve, anchors, url).value;
    if IsCandidate(href) && resolve(href, url).Some? {
      assert [resolve(href, url).value] + [] == [resolve(href, url).value];
    }
  }

  /** Once a resolution has thrown, nothing after it is looked at. */
  lemma ProductUrlsOfAbandoned(resolve: (string, string) -> Option<string>, anchors: seq<string>, i: nat, url: string)
    requires i <= |anchors| && ProductUrlsOf(resolve, anchors[..i], url).None?
    ensures ProductUrlsOf(resolve, anchors, url).None?
  {
    assert anchors == anchors[..i] + anchors[i..];
    ProductUrlsOfAppend(resolve, anchors[..i], anchors[i..], url);
  }

  /** Lines 27-59, with the classification of line 46 done by the table loop. */
  method DiscoverProductUrls(fetch: string -> Option<seq<string>>, resolve: (string, string) -> Option<string>,
                             url: string)
    returns (productUrls: seq<string>)
    ensures productUrls == Discovered(fetch, resolve, url)
  {
    var data := fetch(url);
    if data.None? {
      return [];
    }
    var anchors := data.value;
    productUrls := [];
    for i := 0 to |anchors|
      invariant ProductUrlsOf(resolve, anchors[..i], url) == Some(productUrls)
    {
      var link := anchors[i];
      assert anchors[..i + 1] == anchors[..i] + [link];
      ProductUrlsOfSnoc(resolve, anchors[..i], link, url);
      if link != "" {
        var isProduct := ClassifyUrl(link);
        if isProduct {
          var absoluteUrl := resolve(link, url);
          if absoluteUrl.None? {
            ProductUrlsOfAbandoned(resolve, anchors, i + 1, url);
            return [];
          }
          productUrls := productUrls + [absoluteUrl.value];
        }
      }
    }
    assert anchors[..|anchors|] == anchors;
  }

  // ---------------------------------------------------------------------------------------------
  // Properties

  /** Lines 44-50: every URL returned is the resolution of a non-empty href of the page that passes the
      classifier; an empty href or one that matches no pattern contributes nothing. */
  lemma DiscoveredSound(fetch: string -> Option<seq<string>>, resolve: (string, string) -> Option<string>,
                        url: string, anchors: seq<string>)
    requires fetch(url) == Some(anchors)
    ensures forall u :: u in Discovered(fetch, resolve, url) ==>
      exists h :: h in anchors && h != "" && IsProductUrl(h) && resolve(h, url) == Some(u)
  {
    var candidates := Filter(anchors, IsCandidate);
    FilterSpec(anchors, IsCandidate);
    var r := ProductUrlsOf(resolve, anchors, url);
    if r.Some? {
      forall u | u in r.value
        ensures exists h :: h in anchors && h != "" && IsProductUrl(h) && resolve(h, url) == Some(u)
      {
        var k :| 0 <= k < |r.value| && r.value[k] == u;
        assert candidates[k] in candidates;
        assert ResolveWith(resolve, url)(candidates[k]) == Some(u);
      }
    }
  }

  /** Lines 41-53: when nothing throws, the result holds one URL per candidate href, in anchor order:
      its `k`-th element is the resolution of the `k`-th candidate, the candidates form a subsequence of
      the anchors, and so the result is never longer than the anchor list. */
  lemma DiscoveredInOrder(fetch: string -> Option<seq<string>>, resolve: (string, string) -> Option<string>,
                          url: string, anchors: seq<string>)
    requires fetch(url) == Some(anchors)
    requires forall h :: h in anchors && IsCandidate(h) ==> resolve(h, url).Some?
    ensures var candidates := Filter(anchors, IsCandidate);
      var r := Discovered(fetch, resolve, url);
      IsSubsequence(candidates, anchors) &&
      |r| == |candidates| <= |anchors| &&
      forall k :: 0 <= k < |candidates| ==> resolve(candidates[k], url) == Some(r[k])
  {
    var candidates := Filter(anchors, IsCandidate);
    FilterSpec(anchors, IsCandidate);
    FilterIsSubsequence(anchors, IsCandidate);
    forall k | 0 <= k < |candidates| ensures ResolveWith(resolve, url)(candidates[k]).Some? {
      assert candidates[k] in candidates;
    }
  }

  /** Lines 33-35 and 55-58: a failed fetch, or one candidate href whose resolution throws, gives `[]`
      rather than a partial list. */
  lemma DiscoveredAllOrNothing(fetch: string -> Option<seq<string>>, resolve: (string, string) -> Option<string>,
                               url: string)
    ensures fetch(url).None? ==> Discovered(fetch, resolve, url) == []
    ensures forall h :: fetch(url).Some? && h in fetch(url).value && IsCandidate(h) && resolve(h, url).None? ==>
      Discovered(fetch, resolve, url) == []
  {
    if fetch(url).Some? {
      var anchors := fetch(url).value;
      var candidates := Filter(anchors, IsCandidate);
      FilterSpec(anchors, IsCandidate);
      forall h | h in anchors && IsCandidate(h) && resolve(h, url).None?
        ensures Discovered(fetch, resolve, url) == []
      {
        assert h in candidates;
        var k :| 0 <= k < |candidates| && candidates[k] == h;
        assert ResolveWith(resolve, url)(candidates[k]).None?;
      }
    }
  }

  /** Every candidate href is kept: when nothing throws, the resolution of each non-empty href that
      passes the classifier is in the result. */
  lemma DiscoveredComplete(fetch: string -> Option<seq<string>>, resolve: (string, string) -> Option<string>,
                           url: string, anchors: seq<string>)
    requires fetch(url) == Some(anchors)
    requires forall h :: h in anchors && IsCandidate(h) ==> resolve(h, url).Some?
    ensures forall h :: h in anchors && IsCandidate(h) ==> resolve(h, url).value in Discovered(fetch, resolve, url)
  {
    var candidates := Filter(anchors, IsCandidate);
    DiscoveredInOrder(fetch, resolve, url, anchors);
    FilterSpec(anchors, IsCandidate);
    var r := Discovered(fetch, resolve, url);
    forall h | h in anchors && IsCandidate(h) ensures resolve(h, url).value in r {
      assert h in candidates;
      var k :| 0 <= k < |candidates| && candidates[k] == h;
      assert resolve(h, url) == Some(r[k]);
    }
  }
}
