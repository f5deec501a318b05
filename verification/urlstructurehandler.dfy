/** urlstructurehandler.js: product URLs read straight out of a page's HTML text.

    `discoverProductUrlsFromPage(pageContent)` finds every match of the global regular expression
    `href="([^"]+)"` in the text, deletes every `href="` and every `"` from each match, and keeps the
    cleaned strings that pass `isProductUrl`. Nothing is fetched and nothing is resolved: the strings are
    returned as they appear in the page. */
module UrlStructureHandler {
  import opened Wrappers
  import opened Seqs
  import opened Patterns

  // ---------------------------------------------------------------------------------------------
  // The classifier

  /** `URL_PATTERNS`, in table order. */
  const UrlPatterns: seq<string> := ["/product/", "/item/", "/p/", "product-id-"]

  /** What `isProductUrl` answers. */
  predicate IsProductUrl(url: string) {
    MatchesAny(UrlPatterns, url)
  }

  /** The table, spelled out: a URL is a product URL exactly when one of the four literals occurs in it. */
  lemma {:induction false} IsProductUrlIff(url: string)
    ensures IsProductUrl(url) <==>
      Contains(url, "/product/") || Contains(url, "/item/") || Contains(url, "/p/") || Contains(url, "product-id-")
  {
    if IsProductUrl(url) {
      var k :| 0 <= k < |UrlPatterns| && Contains(url, UrlPatterns[k]);
      assert k == 0 || k == 1 || k == 2 || k == 3;
    }
    if Contains(url, "/product/") { assert Contains(url, UrlPatterns[0]); }
    if Contains(url, "/item/") { assert Contains(url, UrlPatterns[1]); }
    if Contains(url, "/p/") { assert Contains(url, UrlPatterns[2]); }
    if Contains(url, "product-id-") { assert Contains(url, UrlPatterns[3]); }
  }

  /** A product URL is never empty: every pattern has at least three characters. */
  lemma ProductUrlIsLong(url: string)
    requires IsProductUrl(url)
    ensures |url| >= 3
  {
    var k :| 0 <= k < |UrlPatterns| && Contains(url, UrlPatterns[k]);
    ContainsLength(url, UrlPatterns[k]);
  }

  /** `isProductUrl(url)`: the patterns are tried in table order and the first match answers `true`. */
  method ClassifyUrl(url: string) returns (isProduct: bool)
    ensures isProduct <==> IsProductUrl(url)
  {
    ghost var first: nat;
    isProduct, first := TestPatterns(UrlPatterns, url);
  }

  // ---------------------------------------------------------------------------------------------
  // The matcher: `pageContent.match(/href="([^"]+)"/g)`

  const HrefOpen: string := "href=\""

  /** No `"` among the characters of `s` from index `a` up to, not including, `b`. */
  predicate QuoteFreeIn(s: string, a: nat, b: nat) {
    b <= |s| && forall j :: a <= j < b ==> s[j] != '"'
  }

  predicate QuoteFree(s: string) {
    QuoteFreeIn(s, 0, |s|)
  }

  /** A whole match: `href="`, one or more characters none of which is `"`, and a closing `"`. */
  predicate IsMatch(m: string) {
    |m| >= 8 && m[..6] == HrefOpen && m[|m| - 1] == '"' && QuoteFreeIn(m, 6, |m| - 1)
  }

  /** The index of the first `"` at or after `k`. */
  function QuoteFrom(s: string, k: nat): (r: Option<nat>)
    requires k <= |s|
    ensures r.Some? ==> k <= r.value < |s| && s[r.value] == '"' && QuoteFreeIn(s, k, r.value)
    ensures r.None? ==> QuoteFreeIn(s, k, |s|)
    decreases |s| - k
  {
    if k == |s| then None
    else if s[k] == '"' then Some(k)
    else QuoteFrom(s, k + 1)
  }

  /** Where the match starting at index `p` ends (exclusive), if one starts there: the `[^"]+` run is
      greedy and can only be followed by the first `"` after the opening, so at most one match starts at
      any index. */
  function MatchEndAt(s: string, p: nat): (r: Option<nat>)
    requires p <= |s|
    ensures r.Some? ==> p + 8 <= r.value <= |s|
  {
    if !OccursAt(s, HrefOpen, p) then None
    else match QuoteFrom(s, p + 6)
      case None => None
      case Some(q) => if q == p + 6 then None else Some(q + 1)
  }

  /** What the matcher reports as a match has the shape of one. */
  lemma MatchEndAtShape(s: string, p: nat, e: nat)
    requires p <= e <= |s| && MatchEndAt(s, p) == Some(e)
    ensures IsMatch(s[p..e])
  {
    var m := s[p..e];
    assert OccursAt(s, HrefOpen, p);
    var q := QuoteFrom(s, p + 6).value;
    assert q == e - 1;
    assert m[..6] == s[p..p + 6];
    forall j | 6 <= j < |m| - 1 ensures m[j] != '"' {
      assert m[j] == s[p + j];
    }
  }

  /** Text with the shape of a match is what the matcher reports. */
  lemma ShapeIsMatchEndAt(s: string, p: nat, e: nat)
    requires p <= e <= |s| && IsMatch(s[p..e])
    ensures MatchEndAt(s, p) == Some(e)
  {
    var m := s[p..e];
    assert p + 6 <= |s| && m[..6] == s[p..p + 6];
    assert OccursAt(s, HrefOpen, p);
    forall j | p + 6 <= j < e - 1 ensures s[j] != '"' {
      assert s[j] == m[j - p];
    }
    assert s[e - 1] == m[|m| - 1];
  }

  /** A match ends at `e` exactly when the text from `p` to `e` has the shape of a match. */
  lemma MatchEndAtIff(s: string, p: nat, e: nat)
    requires p <= e <= |s|
    ensures MatchEndAt(s, p) == Some(e) <==> IsMatch(s[p..e])
  {
    if MatchEndAt(s, p) == Some(e) {
      MatchEndAtShape(s, p, e);
    }
    if IsMatch(s[p..e]) {
      ShapeIsMatchEndAt(s, p, e);
    }
  }

  /** All matches at or after index `i`, left to right: the leftmost match is taken and the search
      resumes where it ended, so matches never overlap, and as each has at least eight characters there
      is at most one match per eight characters of the text. */
  function Scan(s: string, i: nat): (r: seq<string>)
    requires i <= |s|
    ensures 8 * |r| <= |s| - i
    decreases |s| - i
  {
    if i == |s| then []
    else match MatchEndAt(s, i)
      case Some(e) => [s[i..e]] + Scan(s, e)
      case None => Scan(s, i + 1)
  }

  /** Every element of a scan is a match. */
  lemma {:induction false} ScanMatches(s: string, i: nat)
    requires i <= |s|
    ensures forall m :: m in Scan(s, i) ==> IsMatch(m)
    decreases |s| - i
  {
    if i < |s| {
      match MatchEndAt(s, i)
      case Some(e) =>
        ScanMatches(s, e);
        MatchEndAtShape(s, i, e);
      case None =>
        ScanMatches(s, i + 1);
    }
  }

  /** A scan is empty exactly when no match starts at or after `i`. */
  lemma {:induction false} ScanEmptyIff(s: string, i: nat)
    requires i <= |s|
    ensures Scan(s, i) == [] <==> forall p :: i <= p <= |s| ==> MatchEndAt(s, p).None?
    decreases |s| - i
  {
    if i < |s| {
      ScanEmptyIff(s, i + 1);
    }
  }

  /** The first element of a non-empty scan is the leftmost match, and the rest of the scan resumes
      right after it. */
  lemma {:induction false} ScanFirst(s: string, i: nat)
    requires i <= |s| && Scan(s, i) != []
    ensures exists p, e ::
              && i <= p < e <= |s| && MatchEndAt(s, p) == Some(e)
              && (forall p' :: i <= p' < p ==> MatchEndAt(s, p').None?)
              && Scan(s, i)[0] == s[p..e] && Scan(s, i)[1..] == Scan(s, e)
    decreases |s| - i
  {
    match MatchEndAt(s, i)
    case Some(e) =>
      assert Scan(s, i)[1..] == Scan(s, e);
    case None =>
      ScanFirst(s, i + 1);
      var p, e :| i + 1 <= p < e <= |s| && MatchEndAt(s, p) == Some(e) &&
        (forall p' :: i + 1 <= p' < p ==> MatchEndAt(s, p').None?) &&
        Scan(s, i + 1)[0] == s[p..e] && Scan(s, i + 1)[1..] == Scan(s, e);
      assert forall p' :: i <= p' < p ==> MatchEndAt(s, p').None?;
  }

  /** Text without `href="` has no match. */
  lemma NoOpeningNoMatch(s: string)
    requires forall p: nat :: p <= |s| ==> !OccursAt(s, HrefOpen, p)
    ensures Scan(s, 0) == []
  {
    ScanEmptyIff(s, 0);
  }

  /** An empty attribute, an upper-case attribute name and single quotes all give no match. */
  lemma NonMatchingAttributes()
    ensures Scan("href=\"\"", 0) == []
    ensures Scan("HREF=\"/p/1\"", 0) == []
    ensures Scan("href='/p/1'", 0) == []
  {
    var empty := "href=\"\"";
    ScanEmptyIff(empty, 0);
    forall p | 0 <= p <= |empty| ensures MatchEndAt(empty, p).None? {
      if p == 0 {
        assert QuoteFrom(empty, 6) == Some(6);
      }
    }
    var upper := "HREF=\"/p/1\"";
    assert 'h' !in upper;
    AbsentCharacter(upper, HrefOpen, 0);
    NoOpeningNoMatch(upper);
    var single := "href='/p/1'";
    assert '"' !in single;
    AbsentCharacter(single, HrefOpen, 5);
    NoOpeningNoMatch(single);
  }

  // ---------------------------------------------------------------------------------------------
  // The cleaner: `link.replace(/href="|"/g, '')`

  /** Every `href="` and every `"`, found left to right, deleted: what is left holds no `"` and is never
      longer than the input. */
  function Clean(m: string): (r: string)
    ensures '"' !in r
    ensures |r| <= |m|
    decreases |m|
  {
    if m == [] then []
    else if |m| >= 6 && m[..6] == HrefOpen then Clean(m[6..])
    else if m[0] == '"' then Clean(m[1..])
    else [m[0]] + Clean(m[1..])
  }

  /** `body` without a trailing `href=`. */
  function StripHrefSuffix(body: string): string {
    if |body| >= 5 && body[|body| - 5..] == "href=" then body[..|body| - 5] else body
  }

  /** Dropping the first character of a text other than `href=` commutes with dropping a trailing
      `href=`. */
  lemma StripHrefSuffixCons(body: string)
    requires body != [] && body != "href="
    ensures StripHrefSuffix(body) == [body[0]] + StripHrefSuffix(body[1..])
  {
    if |body| >= 6 {
      assert body[1..][|body| - 6..] == body[|body| - 5..];
      assert body[1..][..|body| - 6] == body[1..|body| - 5];
      assert body[..|body| - 5] == [body[0]] + body[1..|body| - 5];
    } else {
      assert [body[0]] + body[1..] == body;
    }
  }

  /** A quote-free text other than `href=`, followed by a quote, does not start with `href="`. */
  lemma NoOpeningBeforeQuote(body: string)
    requires QuoteFree(body) && body != "href="
    ensures !(|body + "\""| >= 6 && (body + "\"")[..6] == HrefOpen)
  {
    var t := body + "\"";
    if |t| >= 6 {
      if |body| == 5 {
        assert t[..6][..5] == body;
      } else {
        assert t[..6][5] == body[5];
      }
    }
  }

  /** Cleaning a quote-free text followed by its closing quote gives back the text, except that a text
      ending in `href=` forms a last `href="` with the quote and loses that suffix too. */
  lemma {:induction false} CleanQuoted(body: string)
    requires QuoteFree(body)
    ensures Clean(body + "\"") == StripHrefSuffix(body)
    decreases |body|
  {
    var t := body + "\"";
    if body == [] {
      assert t[1..] == [];
    } else if body == "href=" {
      assert t[..6] == HrefOpen;
      assert t[6..] == [];
    } else {
      NoOpeningBeforeQuote(body);
      assert t[0] == body[0] && t[1..] == body[1..] + "\"";
      assert Clean(t) == [body[0]] + Clean(body[1..] + "\"");
      assert QuoteFree(body[1..]) by {
        forall j | 0 <= j < |body| - 1 ensures body[1..][j] != '"' {
          assert body[1..][j] == body[j + 1];
        }
      }
      CleanQuoted(body[1..]);
      StripHrefSuffixCons(body);
    }
  }

  /** A leading `href="` is deleted as a whole. */
  lemma CleanSkipsOpening(m: string)
    requires |m| >= 6 && m[..6] == HrefOpen
    ensures Clean(m) == Clean(m[6..])
  {
  }

  /** What the cleaner makes of a match: the quoted text, less a trailing `href=`. */
  lemma CleanMatch(m: string)
    requires IsMatch(m)
    ensures Clean(m) == StripHrefSuffix(m[6..|m| - 1])
  {
    var body := m[6..|m| - 1];
    assert m[6..] == body + "\"";
    assert QuoteFree(body) by {
      forall j | 0 <= j < |body| ensures body[j] != '"' {
        assert body[j] == m[6 + j];
      }
    }
    CleanQuoted(body);
    CleanSkipsOpening(m);
  }

  // ---------------------------------------------------------------------------------------------
  // The extraction

  /** What `discoverProductUrlsFromPage(pageContent)` returns: the cleaned matches, in document order,
      that pass the classifier. */
  function ProductUrlsFromPage(pageContent: string): seq<string> {
    ProductUrlsOfMatches(Scan(pageContent, 0))
  }

  /** What the `forEach` loop leaves in `productUrls` for these matches. */
  function ProductUrlsOfMatches(links: seq<string>): seq<string> {
    Filter(Map(links, Clean), IsProductUrl)
  }

  /** One more match adds its cleaned text exactly when that passes the classifier. */
  lemma ProductUrlsOfMatchesSnoc(links: seq<string>, link: string)
    ensures ProductUrlsOfMatches(links + [link]) ==
      ProductUrlsOfMatches(links) + (if IsProductUrl(Clean(link)) then [Clean(link)] else [])
  {
    MapAppend(links, [link], Clean);
    assert Map([link], Clean) == [Clean(link)];
    FilterAppend(Map(links, Clean), [Clean(link)], IsProductUrl);
    assert Filter([Clean(link)], IsProductUrl) == if IsProductUrl(Clean(link)) then [Clean(link)] else [];
  }

  /** Lines 17-30. `links` is `null` when the text has no match, as `String.prototype.match` answers. */
  method DiscoverProductUrlsFromPage(pageContent: string) returns (productUrls: seq<string>)
    ensures productUrls == ProductUrlsFromPage(pageContent)
  {
    var matches := Scan(pageContent, 0);
    var links: Option<seq<string>> := if matches == [] then None else Some(matches);
    if links.Some? {
      productUrls := KeepProductUrls(links.value);
    } else {
      productUrls := [];
    }
  }

  /** Lines 22-27: the `forEach` over the matches, cleaning each and keeping it when it passes the
      classifier. */
  method KeepProductUrls(links: seq<string>) returns (productUrls: seq<string>)
    ensures productUrls == ProductUrlsOfMatches(links)
  {
    productUrls := [];
    for k := 0 to |links|
      invariant productUrls == ProductUrlsOfMatches(links[..k])
    {
      var url := Clean(links[k]);
      var isProduct := ClassifyUrl(url);
      if isProduct {
        productUrls := productUrls + [url];
      }
      ProductUrlsOfMatchesSnoc(links[..k], links[k]);
      assert links[..k + 1] == links[..k] + [links[k]];
    }
    assert links[..|links|] == links;
  }

  // ---------------------------------------------------------------------------------------------
  // Properties

  /** Lines 20-25: every URL returned passes the classifier, is at least three characters long, holds
      no `"`, and is the quoted text of one of the page's matches, returned as it stands (less a trailing
      `href=`) and never resolved against a base. */
  lemma FromPageSound(pageContent: string)
    ensures forall u :: u in ProductUrlsFromPage(pageContent) ==>
      IsProductUrl(u) && |u| >= 3 && '"' !in u &&
      exists m :: m in Scan(pageContent, 0) && IsMatch(m) && u == StripHrefSuffix(m[6..|m| - 1])
  {
    var matches := Scan(pageContent, 0);
    FilterSpec(Map(matches, Clean), IsProductUrl);
    ScanMatches(pageContent, 0);
    CleanedMatches(matches);
    forall u | u in ProductUrlsFromPage(pageContent) ensures |u| >= 3 {
      ProductUrlIsLong(u);
    }
  }

  /** Each cleaned match is quote-free and is the quoted text of its match, less a trailing `href=`. */
  lemma CleanedMatches(matches: seq<string>)
    requires forall m :: m in matches ==> IsMatch(m)
    ensures forall u :: u in Map(matches, Clean) ==>
      '"' !in u && exists m :: m in matches && IsMatch(m) && u == StripHrefSuffix(m[6..|m| - 1])
  {
    var cleaned := Map(matches, Clean);
    MapSpec(matches, Clean);
    forall u | u in cleaned
      ensures '"' !in u && exists m :: m in matches && IsMatch(m) && u == StripHrefSuffix(m[6..|m| - 1])
    {
      var k :| 0 <= k < |cleaned| && cleaned[k] == u;
      assert matches[k] in matches;
      CleanMatch(matches[k]);
    }
  }

  /** Lines 20-28: the result keeps document order and has at most one URL per match; a cleaned match
      is returned exactly when it passes the classifier. */
  lemma FromPageOrder(pageContent: string)
    ensures IsSubsequence(ProductUrlsFromPage(pageContent), Map(Scan(pageContent, 0), Clean))
    ensures |ProductUrlsFromPage(pageContent)| <= |Scan(pageContent, 0)|
    ensures forall m :: m in Scan(pageContent, 0) && IsProductUrl(Clean(m)) ==> Clean(m) in ProductUrlsFromPage(pageContent)
  {
    var matches := Scan(pageContent, 0);
    FilterIsSubsequence(Map(matches, Clean), IsProductUrl);
    FilterSpec(Map(matches, Clean), IsProductUrl);
    MapSpec(matches, Clean);
    forall m | m in matches && IsProductUrl(Clean(m)) ensures Clean(m) in Map(matches, Clean) {
      var k :| 0 <= k < |matches| && matches[k] == m;
    }
  }

  /** Lines 20-21 and 29: text with no match gives `[]`. */
  lemma FromPageNoMatch(pageContent: string)
    requires forall p: nat :: p <= |pageContent| ==> MatchEndAt(pageContent, p).None?
    ensures ProductUrlsFromPage(pageContent) == []
  {
    ScanEmptyIff(pageContent, 0);
  }

  /** A page that is a single attribute: it is its one match, and the result is its quoted text (less a
      trailing `href=`) when that is a product URL, and nothing otherwise. */
  lemma SingleAttribute(body: string)
    requires body != [] && QuoteFree(body)
    ensures Scan(HrefOpen + body + "\"", 0) == [HrefOpen + body + "\""]
    ensures ProductUrlsFromPage(HrefOpen + body + "\"") ==
      if IsProductUrl(StripHrefSuffix(body)) then [StripHrefSuffix(body)] else []
  {
    var s := HrefOpen + body + "\"";
    assert s[..6] == HrefOpen && s[6..|s| - 1] == body;
    forall j | 6 <= j < |s| - 1 ensures s[j] != '"' {
      assert s[j] == body[j - 6];
    }
    ShapeIsMatchEndAt(s, 0, |s|);
    assert s[0..|s|] == s;
    CleanMatch(s);
    assert Map([s], Clean) == [Clean(s)];
    assert Filter([StripHrefSuffix(body)], IsProductUrl) ==
      if IsProductUrl(StripHrefSuffix(body)) then [StripHrefSuffix(body)] else [];
  }
}
