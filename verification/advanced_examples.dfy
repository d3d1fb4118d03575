/** The example drivers: headline scraping, product scraping with
    first-match-wins selector lists, and pagination with a page cap.

    CSS-selector evaluation (`soup.select`) is a parameter `select` from a
    document and a selector string to the matched elements in document order;
    fetching is the parameter `fetch` of the `WebScraper` module. */
module AdvancedExamples {
  import opened Wrappers
  import opened Strings
  import opened Html
  import opened WebScraper
  import opened Seqs

  /** `soup.select(selector)` on a parsed page. */
  type Select = (Document, string) -> seq<Node>

  /** `soup.select_one(selector)`: the first element `select` returns. */
  function SelectOne(select: Select, doc: Document, selector: string): (r: Option<Node>)
    ensures r.None? <==> select(doc, selector) == []
    ensures r.Some? ==> r.value == select(doc, selector)[0]
  {
    var found := select(doc, selector);
    if found == [] then None else Some(found[0])
  }

  // ---------------------------------------------------------------------------
  // Headlines

  const NewsUrl: string := "https://httpbin.org/html"

  const HeadlineSelectors: seq<string> :=
    ["h1", "h2", "h3", ".headline", ".title", "[class*=\"headline\"]", "[class*=\"title\"]"]

  /** One headline record. */
  datatype Headline = Headline(headline: string, selector: string, url: string)

  /** The length filter: non-empty and longer than ten characters. */
  predicate LongEnough(text: string)
  {
    text != [] && |text| > 10
  }

  /** The records one selector contributes: the stripped text of each matched
      element that passes the length filter, in the order matched. */
  function HeadlinesFrom(elems: seq<Node>, selector: string, url: string): (hs: seq<Headline>)
    ensures |hs| <= |elems|
    ensures forall h :: h in hs ==>
      (h.selector == selector && h.url == url && Stripped(h.headline) && LongEnough(h.headline))
  {
    if elems == [] then []
    else
      var text := Strip(NodeText(elems[0]));
      var rest := HeadlinesFrom(elems[1..], selector, url);
      if LongEnough(text) then [Headline(text, selector, url)] + rest else rest
  }

  /** Every record of a selector comes from a matched element whose stripped
      text passes the length filter. */
  lemma HeadlinesFromSound(elems: seq<Node>, selector: string, url: string, h: Headline)
    requires h in HeadlinesFrom(elems, selector, url)
    ensures LongEnough(h.headline)
    ensures exists e :: e in elems && h.headline == Strip(NodeText(e))
  {
    var e := HeadlineSource(elems, selector, url, h);
  }

  /** The matched element a record comes from. */
  lemma {:induction false} HeadlineSource(elems: seq<Node>, selector: string, url: string, h: Headline)
    returns (e: Node)
    requires h in HeadlinesFrom(elems, selector, url)
    ensures e in elems && LongEnough(h.headline) && h == Headline(Strip(NodeText(e)), selector, url)
  {
    HeadlineStep(elems, selector, url, h);
    if h !in HeadlinesFrom(elems[1..], selector, url) {
      e := elems[0];
    } else {
      e := HeadlineSource(elems[1..], selector, url, h);
    }
  }

  /** A record of a selector is the first matched element's, or one of the
      rest's. */
  lemma HeadlineStep(elems: seq<Node>, selector: string, url: string, h: Headline)
    requires h in HeadlinesFrom(elems, selector, url)
    ensures elems != []
    ensures h in HeadlinesFrom(elems[1..], selector, url)
         || (var text := Strip(NodeText(elems[0])); LongEnough(text) && h == Headline(text, selector, url))
  {
    HeadlinesFromCons(elems[0], elems[1..], selector, url);
    SplitHead(elems, []);
    var text := Strip(NodeText(elems[0]));
    var rest := HeadlinesFrom(elems[1..], selector, url);
    if LongEnough(text) {
      InCons(h, Headline(text, selector, url), rest);
    }
  }

  /** Every matched element whose stripped text passes the length filter gives
      a record. */
  lemma {:induction false} HeadlinesFromComplete(elems: seq<Node>, selector: string, url: string, e: Node)
    requires e in elems && LongEnough(Strip(NodeText(e)))
    ensures Headline(Strip(NodeText(e)), selector, url) in HeadlinesFrom(elems, selector, url)
  {
    var hs := HeadlinesFrom(elems, selector, url);
    var rest := HeadlinesFrom(elems[1..], selector, url);
    var text := Strip(NodeText(elems[0]));
    assert hs == if LongEnough(text) then [Headline(text, selector, url)] + rest else rest;
    if e != elems[0] {
      assert e in elems[1..];
      HeadlinesFromComplete(elems[1..], selector, url, e);
    }
  }

  /** The records of a selector follow its matches: those of earlier matched
      elements come first. */
  lemma {:induction false} HeadlinesFromAppend(a: seq<Node>, b: seq<Node>, selector: string, url: string)
    ensures HeadlinesFrom(a + b, selector, url) == HeadlinesFrom(a, selector, url) + HeadlinesFrom(b, selector, url)
    decreases |a|
  {
    if a != [] {
      SplitHead(a, b);
      var text := Strip(NodeText(a[0]));
      var head := if LongEnough(text) then [Headline(text, selector, url)] else [];
      var ha := HeadlinesFrom(a[1..], selector, url);
      var hb := HeadlinesFrom(b, selector, url);
      assert HeadlinesFrom(a + b, selector, url) == head + (ha + hb) by {
        HeadlinesFromCons(a[0], a[1..] + b, selector, url);
        HeadlinesFromAppend(a[1..], b, selector, url);
      }
      assert HeadlinesFrom(a, selector, url) == head + ha by {
        HeadlinesFromCons(a[0], a[1..], selector, url);
      }
      AppendAssoc(head, ha, hb);
    } else {
      assert a + b == b;
    }
  }

  /** The first matched element contributes its record, if any, ahead of
      those of the rest. */
  lemma HeadlinesFromCons(e: Node, rest: seq<Node>, selector: string, url: string)
    ensures var text := Strip(NodeText(e));
      HeadlinesFrom([e] + rest, selector, url)
      == (if LongEnough(text) then [Headline(text, selector, url)] else []) + HeadlinesFrom(rest, selector, url)
  {
    assert ([e] + rest)[0] == e && ([e] + rest)[1..] == rest;
  }

  /** A selector yields a record exactly for each matched element whose
      stripped text passes the length filter. */
  lemma HeadlinesFromMembership(elems: seq<Node>, selector: string, url: string, h: Headline)
    ensures h in HeadlinesFrom(elems, selector, url) <==>
      (&& h.selector == selector && h.url == url && LongEnough(h.headline)
       && exists e :: e in elems && h.headline == Strip(NodeText(e)))
  {
    if h in HeadlinesFrom(elems, selector, url) {
      HeadlinesFromSound(elems, selector, url, h);
    } else if h.selector == selector && h.url == url && LongEnough(h.headline) {
      if e :| e in elems && h.headline == Strip(NodeText(e)) {
        HeadlinesFromComplete(elems, selector, url, e);
        assert false;
      }
    }
  }

  /** The two nested loops of the headline example. */
  function CollectHeadlines(select: Select, doc: Document, selectors: seq<string>, url: string): seq<Headline>
  {
    if selectors == [] then []
    else HeadlinesFrom(select(doc, selectors[0]), selectors[0], url)
         + CollectHeadlines(select, doc, selectors[1..], url)
  }

  /** Records come selector by selector: those of an earlier selector all
      precede those of a later one, and a selector listed twice (or two
      selectors matching the same element) contributes twice. */
  lemma {:induction false} HeadlinesSelectorMajor(select: Select, doc: Document, a: seq<string>, b: seq<string>, url: string)
    ensures CollectHeadlines(select, doc, a + b, url)
         == CollectHeadlines(select, doc, a, url) + CollectHeadlines(select, doc, b, url)
  {
    if a == [] {
      assert a + b == b;
    } else {
      var first := HeadlinesFrom(select(doc, a[0]), a[0], url);
      assert (a + b)[0] == a[0] && (a + b)[1..] == a[1..] + b;
      assert CollectHeadlines(select, doc, a + b, url)
          == first + CollectHeadlines(select, doc, a[1..] + b, url);
      HeadlinesSelectorMajor(select, doc, a[1..], b, url);
    }
  }

  /** A record is produced exactly for each selector of the list and each
      element it matches whose stripped text passes the length filter. */
  lemma {:induction false} HeadlineMembership(select: Select, doc: Document, selectors: seq<string>, url: string, h: Headline)
    ensures h in CollectHeadlines(select, doc, selectors, url)
        <==> && h.url == url && h.selector in selectors && LongEnough(h.headline)
             && exists e :: e in select(doc, h.selector) && h.headline == Strip(NodeText(e))
  {
    if selectors != [] {
      HeadlineMembership(select, doc, selectors[1..], url, h);
      HeadlinesFromMembership(select(doc, selectors[0]), selectors[0], url, h);
      assert h.selector in selectors <==> h.selector == selectors[0] || h.selector in selectors[1..];
    }
  }

  /** `scrape_news_headlines_example`: `None` when the page cannot be fetched,
      otherwise the long-enough stripped texts, selector by selector. */
  function ScrapeNewsHeadlines(fetch: string -> Option<Document>, select: Select): (r: Option<seq<Headline>>)
    ensures r.None? <==> fetch(NewsUrl).None?
    ensures r.Some? ==> forall h :: h in r.value ==>
      h.url == NewsUrl && h.selector in HeadlineSelectors && Stripped(h.headline) && LongEnough(h.headline)
    ensures r.Some? ==> r.value == CollectHeadlines(select, fetch(NewsUrl).value, HeadlineSelectors, NewsUrl)
  {
    match fetch(NewsUrl)
    case None => None
    case Some(doc) =>
      var hs := CollectHeadlines(select, doc, HeadlineSelectors, NewsUrl);
      assert forall h :: h in hs ==> h.url == NewsUrl && h.selector in HeadlineSelectors
                                     && Stripped(h.headline) && LongEnough(h.headline) by {
        forall h | h in hs
          ensures h.url == NewsUrl && h.selector in HeadlineSelectors && Stripped(h.headline) && LongEnough(h.headline)
        {
          HeadlineMembership(select, doc, HeadlineSelectors, NewsUrl, h);
          var e :| e in select(doc, h.selector) && h.headline == Strip(NodeText(e));
        }
      }
      Some(hs)
  }

  // ---------------------------------------------------------------------------
  // Products

  const ProductUrls: seq<string> := ["https://httpbin.org/html"]
  const TitleSelectors: seq<string> := ["h1", ".product-title", "[class*=\"title\"]"]
  const PriceSelectors: seq<string> := [".price", "[class*=\"price\"]", "[data-price]"]
  const DescriptionSelectors: seq<string> := [".description", "[class*=\"description\"]", "p"]
  const DescriptionLimit: nat := 500

  /** A selector loop with `break`: the first element of the earliest selector
      that matches anything. */
  function FirstMatch(select: Select, doc: Document, selectors: seq<string>): Option<Node>
  {
    if selectors == [] then None
    else match SelectOne(select, doc, selectors[0])
      case Some(e) => Some(e)
      case None => FirstMatch(select, doc, selectors[1..])
  }

  /** The earliest selector that matches decides the field; no match leaves it
      unset. */
  lemma {:induction false} FirstMatchWins(select: Select, doc: Document, selectors: seq<string>, k: nat)
    requires k < |selectors| && select(doc, selectors[k]) != []
    requires forall j :: 0 <= j < k ==> select(doc, selectors[j]) == []
    ensures FirstMatch(select, doc, selectors) == Some(select(doc, selectors[k])[0])
  {
    if k > 0 {
      FirstMatchWins(select, doc, selectors[1..], k - 1);
    }
  }

  lemma {:induction false} FirstMatchNone(select: Select, doc: Document, selectors: seq<string>)
    ensures FirstMatch(select, doc, selectors).None?
        <==> forall j :: 0 <= j < |selectors| ==> select(doc, selectors[j]) == []
  {
    if selectors != [] {
      FirstMatchNone(select, doc, selectors[1..]);
      assert forall j :: 0 < j < |selectors| ==> selectors[j] == selectors[1..][j - 1];
    }
  }

  /** Selectors after the first one that matches are never consulted: what
      they would return makes no difference. */
  lemma {:induction false} LaterSelectorsIgnored(select: Select, other: Select, doc: Document, selectors: seq<string>, k: nat)
    requires k < |selectors| && select(doc, selectors[k]) != []
    requires forall j :: 0 <= j <= k ==> other(doc, selectors[j]) == select(doc, selectors[j])
    ensures FirstMatch(other, doc, selectors) == FirstMatch(select, doc, selectors)
  {
    if k > 0 && select(doc, selectors[0]) == [] {
      LaterSelectorsIgnored(select, other, doc, selectors[1..], k - 1);
    }
  }

  /** A product field: the stripped text of the selected element, or ''. */
  function FieldText(select: Select, doc: Document, selectors: seq<string>): (r: string)
    ensures Stripped(r)
  {
    match FirstMatch(select, doc, selectors)
    case None => ""
    case Some(e) => Strip(NodeText(e))
  }

  /** Which text a field takes: when the selectors before the `k`-th all
      match nothing, the `k`-th decides it if it matches anything; when no
      selector matches at all the field is ''. */
  lemma FieldTextRule(select: Select, doc: Document, selectors: seq<string>, k: nat)
    requires k <= |selectors|
    requires forall j :: 0 <= j < k ==> select(doc, selectors[j]) == []
    ensures k < |selectors| && select(doc, selectors[k]) != [] ==>
      FieldText(select, doc, selectors) == Strip(NodeText(select(doc, selectors[k])[0]))
    ensures k == |selectors| ==> FieldText(select, doc, selectors) == ""
  {
    if k < |selectors| && select(doc, selectors[k]) != [] {
      FirstMatchWins(select, doc, selectors, k);
    } else if k == |selectors| {
      FirstMatchNone(select, doc, selectors);
    }
  }

  /** Python `s[:n]`. */
  function Truncate(s: string, n: nat): (r: string)
    ensures |r| <= n && |r| <= |s| && r == s[..|r|]
    ensures |s| <= n ==> r == s
    ensures |s| >= n ==> |r| == n
  {
    if |s| <= n then s else s[..n]
  }

  predicate IsImg(n: Node)
  {
    IsTag(n, "img")
  }

  /** The non-empty `src` values of `imgs`, in order (`if img.get('src')`). */
  function ImageSources(imgs: seq<Node>): (srcs: seq<string>)
    ensures |srcs| <= |imgs|
    ensures forall s :: s in srcs ==> s != []
  {
    if imgs == [] then []
    else
      var rest := ImageSources(imgs[1..]);
      match GetAttr(imgs[0], "src")
      case Some(s) => if s != [] then [s] + rest else rest
      case None => rest
  }

  /** A value is listed exactly when it is the non-empty `src` of some image. */
  lemma {:induction false} ImageSourcesMembership(imgs: seq<Node>, s: string)
    ensures s in ImageSources(imgs) <==> s != [] && exists e :: e in imgs && GetAttr(e, "src") == Some(s)
  {
    if imgs != [] {
      ImageSourcesMembership(imgs[1..], s);
      assert forall e :: e in imgs <==> e == imgs[0] || e in imgs[1..];
    }
  }

  lemma {:induction false} ImageSourcesAppend(a: seq<Node>, b: seq<Node>)
    ensures ImageSources(a + b) == ImageSources(a) + ImageSources(b)
  {
    if a == [] {
      assert a + b == b;
    } else {
      assert (a + b)[0] == a[0] && (a + b)[1..] == a[1..] + b;
      ImageSourcesAppend(a[1..], b);
    }
  }

  /** The images of a page: a value is listed exactly when some `img` element
      of the page carries it as a non-empty `src`. */
  lemma PageImagesRule(doc: Document, s: string)
    ensures s in ImageSources(FindAll(doc, IsImg))
        <==> s != [] && exists e :: e in Descendants(doc) && IsImg(e) && GetAttr(e, "src") == Some(s)
  {
    var imgs := FindAll(doc, IsImg);
    ImageSourcesMembership(imgs, s);
    if s in ImageSources(imgs) {
      var e :| e in imgs && GetAttr(e, "src") == Some(s);
      assert e in Descendants(doc) && IsImg(e);
    }
    if s != [] && exists e :: e in Descendants(doc) && IsImg(e) && GetAttr(e, "src") == Some(s) {
      var e :| e in Descendants(doc) && IsImg(e) && GetAttr(e, "src") == Some(s);
      assert e in imgs;
    }
  }

  datatype Product = Product(url: string, title: string, price: string, description: string, images: seq<string>)

  /** The product record built from one fetched page. */
  function ProductOf(select: Select, doc: Document, url: string): (p: Product)
    ensures p.url == url
    ensures |p.description| <= DescriptionLimit
    ensures forall s :: s in p.images ==> s != []
    ensures Stripped(p.title) && Stripped(p.price)
    ensures p.title == FieldText(select, doc, TitleSelectors)
    ensures p.price == FieldText(select, doc, PriceSelectors)
    ensures p.description == Truncate(FieldText(select, doc, DescriptionSelectors), DescriptionLimit)
    ensures p.images == ImageSources(FindAll(doc, IsImg))
  {
    Product(url,
            FieldText(select, doc, TitleSelectors),
            FieldText(select, doc, PriceSelectors),
            Truncate(FieldText(select, doc, DescriptionSelectors), DescriptionLimit),
            ImageSources(FindAll(doc, IsImg)))
  }

  /** The URLs whose fetch succeeds, in order. */
  function FetchedUrls(fetch: string -> Option<Document>, urls: seq<string>): (fs: seq<string>)
    ensures |fs| <= |urls|
  {
    if urls == [] then []
    else (if fetch(urls[0]).Some? then [urls[0]] else []) + FetchedUrls(fetch, urls[1..])
  }

  /** A URL is kept exactly when it is listed and its fetch succeeds. */
  lemma {:induction false} FetchedUrlsMembership(fetch: string -> Option<Document>, urls: seq<string>, u: string)
    ensures u in FetchedUrls(fetch, urls) <==> u in urls && fetch(u).Some?
  {
    if urls != [] {
      FetchedUrlsMembership(fetch, urls[1..], u);
      assert u in urls <==> u == urls[0] || u in urls[1..];
    }
  }

  /** The fetched URLs keep the order of the list: those of an earlier part
      all come first. */
  lemma {:induction false} FetchedUrlsAppend(fetch: string -> Option<Document>, a: seq<string>, b: seq<string>)
    ensures FetchedUrls(fetch, a + b) == FetchedUrls(fetch, a) + FetchedUrls(fetch, b)
    decreases |a|
  {
    if a != [] {
      var head := if fetch(a[0]).Some? then [a[0]] else [];
      var fa := FetchedUrls(fetch, a[1..]);
      var fb := FetchedUrls(fetch, b);
      assert FetchedUrls(fetch, a + b) == head + (fa + fb) by {
        SplitHead(a, b);
        FetchedUrlsCons(fetch, a[0], a[1..] + b);
        FetchedUrlsAppend(fetch, a[1..], b);
      }
      assert FetchedUrls(fetch, a) == head + fa by {
        SplitHead(a, b);
        FetchedUrlsCons(fetch, a[0], a[1..]);
      }
      AppendAssoc(head, fa, fb);
    } else {
      assert a + b == b;
    }
  }

  /** The first URL is kept, when its fetch succeeds, ahead of the others. */
  lemma FetchedUrlsCons(fetch: string -> Option<Document>, u: string, rest: seq<string>)
    ensures FetchedUrls(fetch, [u] + rest)
         == (if fetch(u).Some? then [u] else []) + FetchedUrls(fetch, rest)
  {
    assert ([u] + rest)[0] == u && ([u] + rest)[1..] == rest;
  }

  /** The loop over `urls`, skipping those whose fetch fails; `build` makes
      the record from a fetched page and its URL. */
  function CollectProducts(fetch: string -> Option<Document>, build: (Document, string) -> Product, urls: seq<string>): (ps: seq<Product>)
    ensures |ps| <= |urls|
  {
    if urls == [] then []
    else
      var rest := CollectProducts(fetch, build, urls[1..]);
      match fetch(urls[0])
      case None => rest
      case Some(doc) => [build(doc, urls[0])] + rest
  }

  /** One product per URL whose fetch succeeds, in the order of `urls`, each
      built from that URL's page. */
  lemma {:induction false} ProductsFollowUrls(fetch: string -> Option<Document>, build: (Document, string) -> Product, urls: seq<string>)
    ensures var ps := CollectProducts(fetch, build, urls);
      var fs := FetchedUrls(fetch, urls);
      && |ps| == |fs|
      && forall i :: 0 <= i < |ps| ==> fetch(fs[i]).Some? && ps[i] == build(fetch(fs[i]).value, fs[i])
  {
    if urls != [] {
      ProductsFollowUrls(fetch, build, urls[1..]);
      var ps := CollectProducts(fetch, build, urls[1..]);
      var fs := FetchedUrls(fetch, urls[1..]);
      if fetch(urls[0]).Some? {
        var p := build(fetch(urls[0]).value, urls[0]);
        assert CollectProducts(fetch, build, urls) == [p] + ps;
        assert FetchedUrls(fetch, urls) == [urls[0]] + fs;
        assert forall i :: 0 < i <= |ps| ==> ([p] + ps)[i] == ps[i - 1] && ([urls[0]] + fs)[i] == fs[i - 1];
      } else {
        assert FetchedUrls(fetch, urls) == [] + fs;
      }
    }
  }

  /** `scrape_product_info_example`. */
  function ScrapeProductInfo(fetch: string -> Option<Document>, select: Select): seq<Product>
  {
    CollectProducts(fetch, (doc, url) => ProductOf(select, doc, url), ProductUrls)
  }

  /** Every product comes from a listed URL whose fetch succeeded, is built
      from that page, and respects the description limit. */
  lemma ProductInfoRule(fetch: string -> Option<Document>, select: Select)
    ensures var ps := ScrapeProductInfo(fetch, select);
      && |ps| <= |ProductUrls|
      && forall p :: p in ps ==>
           && p.url in ProductUrls && fetch(p.url).Some?
           && p == ProductOf(select, fetch(p.url).value, p.url)
           && |p.description| <= DescriptionLimit
  {
    var build := (doc, url) => ProductOf(select, doc, url);
    var ps := CollectProducts(fetch, build, ProductUrls);
    var fs := FetchedUrls(fetch, ProductUrls);
    ProductsFollowUrls(fetch, build, ProductUrls);
    forall p | p in ps
      ensures p.url in ProductUrls && fetch(p.url).Some? && p == ProductOf(select, fetch(p.url).value, p.url)
    {
      var i :| 0 <= i < |ps| && ps[i] == p;
      assert fs[i] in fs;
      FetchedUrlsMembership(fetch, ProductUrls, fs[i]);
    }
  }

  // ---------------------------------------------------------------------------
  // Pagination

  /** The `base_url` the pagination example crawls. */
  const PaginationBase: string := "https://httpbin.org/html"

  /** The safety cap on the number of pages visited. */
  const MaxPages: nat := 5

  /** One page's record: `extract_text_content`'s result plus page and URL. */
  datatype PageData = PageData(title: string, content: string, page: nat, url: string)

  /** `f"{base_url}?page={page}"`. */
  function PageUrl(base: string, page: nat): string
  {
    base + "?page=" + NatToString(page)
  }

  /** Different pages are requested at different URLs. */
  lemma PageUrlInjective(base: string, m: nat, n: nat)
    requires PageUrl(base, m) == PageUrl(base, n)
    ensures m == n
  {
    var prefix := base + "?page=";
    assert PageUrl(base, m)[|prefix|..] == NatToString(m);
    assert PageUrl(base, n)[|prefix|..] == NatToString(n);
    NatToStringInjective(m, n);
  }

  /** An `a` element whose `.string` is exactly "Next" (`find('a', text='Next')`). */
  predicate IsNextAnchor(n: Node)
  {
    IsTag(n, "a") && StringOf(n) == Some("Next")
  }

  /** Whether the page, as left by `extract_text_content` (its `script` and
      `style` elements decomposed), has a "Next" anchor. */
  predicate HasNext(doc: Document)
  {
    Find(StripScripts(doc), IsNextAnchor).Some?
  }

  /** What one pass of the pagination loop learns from a page: nothing when
      the fetch fails, otherwise the page's record and whether it links to a
      next page. */
  datatype Visit = Failed | Loaded(data: PageData, next: bool)

  /** One pass of the loop body for page `page`. */
  function VisitPage(fetch: string -> Option<Document>, base: string, page: nat): (v: Visit)
    ensures v.Failed? <==> fetch(PageUrl(base, page)).None?
    ensures v.Loaded? ==> v.data.page == page && v.data.url == PageUrl(base, page)
  {
    var url := PageUrl(base, page);
    match fetch(url)
    case None => Failed
    case Some(doc) =>
      var text := ExtractTextContent(doc);
      Loaded(PageData(text.title, text.content, page, url), HasNext(doc))
  }

  /** A loaded page's record holds that page's extracted title and content, and
      the loop goes on exactly when the page has a "Next" anchor. */
  lemma VisitPageRule(fetch: string -> Option<Document>, base: string, page: nat)
    requires fetch(PageUrl(base, page)).Some?
    ensures var doc := fetch(PageUrl(base, page)).value;
      && TextContent(VisitPage(fetch, base, page).data.title, VisitPage(fetch, base, page).data.content)
         == ExtractTextContent(doc)
      && (VisitPage(fetch, base, page).next <==> HasNext(doc))
  {
  }

  /** The records the pagination loop collects from `page` on, given what each
      page yields: stop past the cap, on a failed fetch, or after a page
      without a "Next" anchor. */
  function Crawl(visit: nat -> Visit, page: nat): seq<PageData>
    decreases MaxPages + 1 - page
  {
    if page > MaxPages then []
    else match visit(page)
      case Failed => []
      case Loaded(data, next) => [data] + (if next then Crawl(visit, page + 1) else [])
  }

  /** The loop as run against `fetch`. */
  function Paginate(fetch: string -> Option<Document>, base: string): seq<PageData>
  {
    Crawl((p: nat) => VisitPage(fetch, base, p), 1)
  }

  /** From `page` on, at most one record per page up to the cap, and none
      once the page counter is past it. */
  lemma {:induction false} CrawlLength(visit: nat -> Visit, page: nat)
    ensures page <= MaxPages + 1 ==> |Crawl(visit, page)| <= MaxPages + 1 - page
    ensures page > MaxPages ==> Crawl(visit, page) == []
    decreases MaxPages + 1 - page
  {
    if page <= MaxPages && visit(page).Loaded? && visit(page).next {
      CrawlLength(visit, page + 1);
    }
  }

  /** The record for page p sits at index p - page, page p loaded, and it
      linked onwards unless it is the last one recorded. */
  lemma {:induction false} CrawlAt(visit: nat -> Visit, page: nat, p: nat)
    requires page <= p < page + |Crawl(visit, page)|
    ensures visit(p).Loaded? && Crawl(visit, page)[p - page] == visit(p).data
    ensures p + 1 < page + |Crawl(visit, page)| ==> visit(p).next
    decreases p - page
  {
    if p > page {
      CrawlAt(visit, page + 1, p);
      assert Crawl(visit, page)[p - page] == Crawl(visit, page + 1)[p - (page + 1)];
    }
  }

  /** Pages that load and link onwards each add one record and let the loop go
      on: from `page`, reaching `stop` adds exactly `stop - page`. */
  lemma {:induction false} CrawlRun(visit: nat -> Visit, page: nat, stop: nat)
    requires page <= stop <= MaxPages + 1
    requires forall j :: page <= j < stop ==> visit(j).Loaded? && visit(j).next
    ensures |Crawl(visit, page)| == stop - page + |Crawl(visit, stop)|
    decreases stop - page
  {
    if page < stop {
      CrawlRun(visit, page + 1, stop);
    }
  }

  /** A failed fetch ends pagination without a record for that page. */
  lemma PaginationStopsOnFailure(visit: nat -> Visit, k: nat)
    requires 1 <= k <= MaxPages
    requires forall j :: 1 <= j < k ==> visit(j).Loaded? && visit(j).next
    requires visit(k).Failed?
    ensures |Crawl(visit, 1)| == k - 1
  {
    CrawlRun(visit, 1, k);
  }

  /** A page without a "Next" anchor is recorded and then ends pagination:
      with pages 1 to 3 linking onwards and page 4 not, exactly four records
      result and page 5 is never looked at (any answer for it changes nothing). */
  lemma PaginationFourPages(visit: nat -> Visit, other: nat -> Visit)
    requires forall j :: 1 <= j < 4 ==> visit(j).Loaded? && visit(j).next
    requires visit(4).Loaded? && !visit(4).next
    requires forall j :: 1 <= j <= 4 ==> other(j) == visit(j)
    ensures |Crawl(visit, 1)| == 4
    ensures Crawl(other, 1) == Crawl(visit, 1)
  {
    CrawlRun(visit, 1, 4);
    assert Crawl(other, 4) == Crawl(visit, 4);
    assert Crawl(other, 3) == Crawl(visit, 3);
    assert Crawl(other, 2) == Crawl(visit, 2);
  }

  /** When every page loads and links onwards, the cap stops the loop after
      `MaxPages` records. */
  lemma PaginationCap(visit: nat -> Visit)
    requires forall j :: 1 <= j <= MaxPages ==> visit(j).Loaded? && visit(j).next
    ensures |Crawl(visit, 1)| == MaxPages
  {
    CrawlRun(visit, 1, MaxPages + 1);
  }

  /** The i-th record the loop collects against `fetch` is for page i + 1 at
      its URL, which was fetched, and holds what `extract_text_content` gives
      for that page. */
  lemma PaginateAt(fetch: string -> Option<Document>, base: string, i: nat)
    requires i < |Paginate(fetch, base)|
    ensures var r := Paginate(fetch, base)[i];
      && r.page == i + 1 && r.url == PageUrl(base, i + 1)
      && fetch(r.url).Some?
      && TextContent(r.title, r.content) == ExtractTextContent(fetch(r.url).value)
  {
    var visit := (p: nat) => VisitPage(fetch, base, p);
    var v := VisitPage(fetch, base, i + 1);
    assert v.Loaded? && Paginate(fetch, base)[i] == v.data by {
      CrawlAt(visit, 1, i + 1);
      assert visit(i + 1) == v;
    }
    VisitPageRule(fetch, base, i + 1);
  }

  /** What the loop collects against `fetch`: at most `MaxPages` records, the
      i-th for page i + 1 at its URL, which was fetched. */
  lemma PaginateShape(fetch: string -> Option<Document>, base: string)
    ensures var data := Paginate(fetch, base);
      && |data| <= MaxPages
      && forall i :: 0 <= i < |data| ==>
           data[i].page == i + 1 && data[i].url == PageUrl(base, i + 1) && fetch(data[i].url).Some?
  {
    CrawlLength((p: nat) => VisitPage(fetch, base, p), 1);
    forall i | 0 <= i < |Paginate(fetch, base)|
      ensures var r := Paginate(fetch, base)[i];
        r.page == i + 1 && r.url == PageUrl(base, i + 1) && fetch(r.url).Some?
    {
      PaginateAt(fetch, base, i);
    }
  }

  /** What one page contributes to the run from that page on. */
  lemma CrawlUnfold(visit: nat -> Visit, page: nat)
    requires page <= MaxPages
    ensures visit(page).Failed? ==> Crawl(visit, page) == []
    ensures visit(page).Loaded? && !visit(page).next ==> Crawl(visit, page) == [visit(page).data]
    ensures visit(page).Loaded? && visit(page).next
            ==> Crawl(visit, page) == [visit(page).data] + Crawl(visit, page + 1)
  {
  }

  /** The `while` loop of `scrape_with_pagination_example`, given what each
      page yields: the page counter starts at 1 and stops past the cap, on a
      failed fetch, or after a page without a "Next" anchor. */
  method PaginationLoop(visit: nat -> Visit) returns (allData: seq<PageData>)
    ensures allData == Crawl(visit, 1)
  {
    allData := [];
    var page: nat := 1;
    assert [] + Crawl(visit, 1) == Crawl(visit, 1);
    while page <= MaxPages
      invariant 1 <= page <= MaxPages + 1
      invariant allData + Crawl(visit, page) == Crawl(visit, 1)
      decreases MaxPages + 1 - page
    {
      CrawlUnfold(visit, page);
      match visit(page)
      case Failed =>
        assert allData + [] == allData;
        return;
      case Loaded(data, next) =>
        AppendAssoc(allData, [data], Crawl(visit, page + 1));
        allData := allData + [data];
        if !next {
          return;
        }
        page := page + 1;
    }
    assert allData + [] == allData;
  }

  /** `scrape_with_pagination_example` against `fetch`, from its fixed base URL. */
  method ScrapeWithPagination(fetch: string -> Option<Document>) returns (allData: seq<PageData>)
    ensures allData == Paginate(fetch, PaginationBase)
  {
    allData := PaginationLoop((p: nat) => VisitPage(fetch, PaginationBase, p));
  }
}
