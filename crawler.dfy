/**
 * `DoctorPetScraper.scrape_category` (scraper.py:373-469): fetch a listing
 * page, extract every `li.product` on it, find the next page, and go on until a
 * fetch fails, a page has no products, there is no new next URL, or the page
 * limit is reached.
 *
 * The site is what each URL answers: attempt `k` of a request for `url` gets
 * `site(url)(k)`. The crawl of the source can run for ever on a site whose
 * pages link in a cycle when no page limit is given, so the model also takes
 * `fuel`, the number of pages the run is allowed to fetch before it is cut off.
 */
module Crawler {
  import opened Wrappers
  import opened Markup
  import opened Fetcher
  import opened Extractor
  import opened Pagination

  type Site = string -> nat -> Attempt

  /** `find_all('li', class_='product')` */
  predicate IsProductItem(n: Node) { TagWithClass(n, "li", "product") }

  /** What one item adds to the result: its record, or nothing. */
  function Extracted(item: Node, extract: Node -> Option<Product>): seq<Product>
  {
    match extract(item)
    case Some(p) => [p]
    case None => []
  }

  /**
   * The records of the items that yield one, in document order; `extract` is
   * what reads one item (`_extract_product_info`).
   */
  function Records(items: seq<Node>, extract: Node -> Option<Product>): (r: seq<Product>)
    ensures |r| <= |items|
  {
    if items == [] then [] else Extracted(items[0], extract) + Records(items[1..], extract)
  }

  lemma {:induction false} RecordsAppend(items: seq<Node>, item: Node, extract: Node -> Option<Product>)
    ensures Records(items + [item], extract) == Records(items, extract) + Extracted(item, extract)
  {
    if items != [] {
      assert (items + [item])[1..] == items[1..] + [item];
      RecordsAppend(items[1..], item, extract);
    }
  }

  lemma RecordsPrefix(items: seq<Node>, i: nat, extract: Node -> Option<Product>)
    requires i < |items|
    ensures Records(items[..i + 1], extract) == Records(items[..i], extract) + Extracted(items[i], extract)
  {
    assert items[..i + 1] == items[..i] + [items[i]];
    RecordsAppend(items[..i], items[i], extract);
  }

  /**
   * Every record of a page comes from one of its items, and every item that
   * yields a record (one with a name or a link) has it in the result.
   */
  lemma {:induction false} RecordsComplete(items: seq<Node>, extract: Node -> Option<Product>)
    ensures forall p :: p in Records(items, extract) ==> exists it :: it in items && extract(it) == Some(p)
    ensures forall it :: it in items && extract(it).Some? ==> extract(it).value in Records(items, extract)
  {
    if items != [] {
      RecordsComplete(items[1..], extract);
      assert forall it :: it in items[1..] ==> it in items;
      assert forall it :: it in items ==> it == items[0] || it in items[1..];
    }
  }

  /** One page of the crawl, as the loop body sees it. */
  datatype PageOutcome =
    | FetchFailed                                       // `_make_request` gave None
    | NoProducts                                        // no `li.product` on the page
    | Page(products: seq<Product>, next: Option<string>)  // the page's records and next URL

  /** Fetch, parse and read one page. */
  function Visit(site: Site, join: (string, string) -> string, url: string): PageOutcome
  {
    match Request(site(url), MaxRetries)
    case None => FetchFailed
    case Some(soup) =>
      var items := FindAll(soup, IsProductItem);
      if items == [] then NoProducts
      else Page(Records(items, ExtractProduct), NextPageUrl(soup, url, join))
  }

  /** `visit` gives, for every URL, what fetching and reading that page of `site` comes to. */
  ghost predicate ReadsAs(site: Site, join: (string, string) -> string, visit: string -> PageOutcome)
  {
    forall u {:trigger Visit(site, join, u)} :: visit(u) == Visit(site, join, u)
  }

  /** `max_pages` is a limit only when truthy: `None` and `0` mean no limit. */
  predicate Limited(maxPages: Option<int>)
  {
    maxPages.Some? && maxPages.value != 0
  }

  /** The URL the loop goes on with after a page: the next URL when truthy and new, else "" (stop). */
  function Follow(url: string, outcome: PageOutcome): (r: string)
    ensures r != "" ==> outcome.Page? && outcome.next == Some(r) && r != url
    ensures outcome.Page? && outcome.next.Some? && outcome.next.value != "" && outcome.next.value != url
            ==> r == outcome.next.value
  {
    match outcome
    case Page(_, Some(next)) => if next != "" && next != url then next else ""
    case _ => ""
  }

  /** The loop may fetch `url` as page number `page`. */
  predicate MayFetch(url: string, page: int, maxPages: Option<int>, fuel: nat)
  {
    url != "" && !(Limited(maxPages) && page > maxPages.value) && fuel > 0
  }

  /** The records the crawl collects from `url` on, page `page` being next. */
  function Crawl(visit: string -> PageOutcome, url: string, page: int,
                 maxPages: Option<int>, fuel: nat): seq<Product>
    decreases fuel
  {
    if !MayFetch(url, page, maxPages, fuel) then []
    else
      var outcome := visit(url);
      match outcome
      case Page(products, _) =>
        products + Crawl(visit, Follow(url, outcome), page + 1, maxPages, fuel - 1)
      case _ => []
  }

  /** The URLs the crawl fetches from `url` on, in order. */
  function Fetched(visit: string -> PageOutcome, url: string, page: int,
                   maxPages: Option<int>, fuel: nat): seq<string>
    decreases fuel
  {
    if !MayFetch(url, page, maxPages, fuel) then []
    else
      var outcome := visit(url);
      if outcome.Page? then [url] + Fetched(visit, Follow(url, outcome), page + 1, maxPages, fuel - 1)
      else [url]
  }

  /**
   * One turn of the crawl from `url`: a failed fetch or a page without products
   * ends it there, a page with products adds its records and goes on at `next`.
   * The page number only matters while there is a URL to fetch.
   */
  lemma {:induction false} CrawlAdvance(visit: string -> PageOutcome, url: string, page: int,
                                        maxPages: Option<int>, fuel: nat, next: string, nextPage: int)
    requires MayFetch(url, page, maxPages, fuel)
    requires next == Follow(url, visit(url))
    requires next != "" ==> nextPage == page + 1
    ensures Fetched(visit, url, page, maxPages, fuel)
         == [url] + Fetched(visit, next, nextPage, maxPages, fuel - 1)
    ensures Crawl(visit, url, page, maxPages, fuel)
         == PageProducts(visit, url) + Crawl(visit, next, nextPage, maxPages, fuel - 1)
  {
    if next == "" {
      assert Fetched(visit, next, nextPage, maxPages, fuel - 1) == [];
      assert Crawl(visit, next, nextPage, maxPages, fuel - 1) == [];
      assert Fetched(visit, next, page + 1, maxPages, fuel - 1) == [];
      assert Crawl(visit, next, page + 1, maxPages, fuel - 1) == [];
    }
  }

  /**
   * The loop of `scrape_category` resumes at `url` with `products` and
   * `fetched` collected so far, on its way to the whole crawl from `baseUrl`.
   */
  predicate Resumes(visit: string -> PageOutcome, baseUrl: string, maxPages: Option<int>, fuel: nat,
                    products: seq<Product>, fetched: seq<string>, url: string, page: int, budget: nat)
  {
    Crawl(visit, baseUrl, 1, maxPages, fuel) == products + Crawl(visit, url, page, maxPages, budget) &&
    Fetched(visit, baseUrl, 1, maxPages, fuel) == fetched + Fetched(visit, url, page, maxPages, budget)
  }

  /** A page with products adds its records and its URL, and the loop resumes at the next URL. */
  lemma ResumeAfterPage(visit: string -> PageOutcome, baseUrl: string, maxPages: Option<int>, fuel: nat,
                        products: seq<Product>, fetched: seq<string>, url: string, page: int, budget: nat,
                        next: string, nextPage: int)
    requires Resumes(visit, baseUrl, maxPages, fuel, products, fetched, url, page, budget)
    requires MayFetch(url, page, maxPages, budget) && visit(url).Page?
    requires next == Follow(url, visit(url)) && (next != "" ==> nextPage == page + 1)
    ensures Resumes(visit, baseUrl, maxPages, fuel, products + visit(url).products, fetched + [url],
                    next, nextPage, budget - 1)
  {
    CrawlAdvance(visit, url, page, maxPages, budget, next, nextPage);
    var rest := Crawl(visit, next, nextPage, maxPages, budget - 1);
    assert products + (visit(url).products + rest) == products + visit(url).products + rest;
    var restFetched := Fetched(visit, next, nextPage, maxPages, budget - 1);
    assert fetched + ([url] + restFetched) == fetched + [url] + restFetched;
  }

  /** The loop stops: at a URL it may not fetch, or after a page that gave no products. */
  lemma StopAt(visit: string -> PageOutcome, baseUrl: string, maxPages: Option<int>, fuel: nat,
               products: seq<Product>, fetched: seq<string>, url: string, page: int, budget: nat)
    requires Resumes(visit, baseUrl, maxPages, fuel, products, fetched, url, page, budget)
    requires !MayFetch(url, page, maxPages, budget) || !visit(url).Page?
    ensures Crawl(visit, baseUrl, 1, maxPages, fuel) == products
    ensures Fetched(visit, baseUrl, 1, maxPages, fuel)
         == fetched + (if MayFetch(url, page, maxPages, budget) then [url] else [])
  {
  }

  /** The `for product in products` loop: the records of the items that yield one, in order. */
  method ExtractItems(items: seq<Node>) returns (found: seq<Product>)
    ensures found == Records(items, ExtractProduct)
  {
    found := [];
    var i := 0;
    while i < |items|
      invariant 0 <= i <= |items|
      invariant found == Records(items[..i], ExtractProduct)
    {
      var data := ExtractProduct(items[i]);
      RecordsPrefix(items, i, ExtractProduct);
      if data.Some? {
        found := found + [data.value];
      }
      i := i + 1;
    }
    assert items[..i] == items;
  }

  /**
   * One turn of the loop of `scrape_category`: fetch `url`, give up on a failed
   * fetch or a page without `li.product`, else collect the records of the
   * items in document order and look for the next page.
   */
  method ReadPage(site: Site, join: (string, string) -> string, ghost visit: string -> PageOutcome,
                  url: string)
    returns (outcome: PageOutcome)
    requires ReadsAs(site, join, visit)
    ensures outcome == visit(url)
  {
    var response;
    ghost var tried, sleeps;
    response, tried, sleeps := MakeRequest(site(url), MaxRetries);
    if response.None? {
      assert Visit(site, join, url) == FetchFailed;
      return FetchFailed;
    }
    var soup := response.value;
    var items := FindAll(soup, IsProductItem);
    if items == [] {
      assert Visit(site, join, url) == NoProducts;
      return NoProducts;
    }
    var found := ExtractItems(items);
    outcome := Page(found, NextPageUrl(soup, url, join));
    assert outcome == Visit(site, join, url);
  }

  /**
   * `scrape_category(max_pages)` on the site whose first listing page is
   * `baseUrl`; `visit` names what each page of that site reads as.
   */
  method ScrapeCategory(site: Site, join: (string, string) -> string, ghost visit: string -> PageOutcome,
                        baseUrl: string, maxPages: Option<int>, fuel: nat)
    returns (products: seq<Product>, ghost fetched: seq<string>)
    requires ReadsAs(site, join, visit)
    ensures products == Crawl(visit, baseUrl, 1, maxPages, fuel)
    ensures fetched == Fetched(visit, baseUrl, 1, maxPages, fuel)
  {
    products, fetched := [], [];
    var current := baseUrl;
    var page := 1;
    var budget := fuel;
    while current != ""
      invariant Resumes(visit, baseUrl, maxPages, fuel, products, fetched, current, page, budget)
      decreases budget
    {
      if (Limited(maxPages) && page > maxPages.value) || budget == 0 {
        StopAt(visit, baseUrl, maxPages, fuel, products, fetched, current, page, budget);
        break;
      }
      var outcome := ReadPage(site, join, visit, current);
      if !outcome.Page? {
        StopAt(visit, baseUrl, maxPages, fuel, products, fetched, current, page, budget);
        fetched := fetched + [current];
        break;
      }
      ghost var url, urlPage, before, visitedBefore := current, page, products, fetched;
      products := products + outcome.products;
      fetched := fetched + [current];
      var next := outcome.next;
      if next.Some? && next.value != "" && next.value != current {
        current := next.value;
        page := page + 1;
      } else {
        current := "";
      }
      ResumeAfterPage(visit, baseUrl, maxPages, fuel, before, visitedBefore, url, urlPage, budget, current, page);
      budget := budget - 1;
    }
    if current == "" {
      StopAt(visit, baseUrl, maxPages, fuel, products, fetched, current, page, budget);
    }
  }

  // ---------------------------------------------------------------------------
  // What the crawl promises
  // ---------------------------------------------------------------------------

  /** The records of the page at `url`, if the crawl reads any there. */
  function PageProducts(visit: string -> PageOutcome, url: string): seq<Product>
  {
    match visit(url)
    case Page(products, _) => products
    case _ => []
  }

  /** The records of the given pages, concatenated in page order. */
  function AllPageProducts(visit: string -> PageOutcome, urls: seq<string>): seq<Product>
  {
    if urls == [] then [] else PageProducts(visit, urls[0]) + AllPageProducts(visit, urls[1..])
  }

  /**
   * The result is the concatenation, in page order, of the records of every
   * page fetched, each page's records in document order.
   */
  lemma {:induction false} CrawlIsPagesInOrder(visit: string -> PageOutcome, url: string,
                                               page: int, maxPages: Option<int>, fuel: nat)
    ensures Crawl(visit, url, page, maxPages, fuel)
         == AllPageProducts(visit, Fetched(visit, url, page, maxPages, fuel))
    decreases fuel
  {
    if MayFetch(url, page, maxPages, fuel) {
      var outcome := visit(url);
      var rest := Fetched(visit, Follow(url, outcome), page + 1, maxPages, fuel - 1);
      CrawlIsPagesInOrder(visit, Follow(url, outcome), page + 1, maxPages, fuel - 1);
      if outcome.Page? {
        assert ([url] + rest)[1..] == rest;
      } else {
        assert AllPageProducts(visit, [url]) == [];
      }
    }
  }

  /** The crawl goes on from `u` to `v`: `u` gave products and a new, non-empty next URL `v`. */
  predicate StepsTo(visit: string -> PageOutcome, u: string, v: string)
  {
    visit(u).Page? && visit(u).next == Some(v) && v != u && v != ""
  }

  /**
   * How the crawl moves on: each fetched page but the last is a page with
   * products whose next URL is the following fetched URL, non-empty and
   * different from its own URL. So a failed fetch, a page without products, or
   * a missing or unchanged next URL can only be the last page fetched.
   */
  lemma {:induction false} CrawlSteps(visit: string -> PageOutcome, url: string,
                                     page: int, maxPages: Option<int>, fuel: nat)
    ensures var f := Fetched(visit, url, page, maxPages, fuel);
      forall i :: 0 <= i < |f| - 1 ==> StepsTo(visit, f[i], f[i + 1])
    ensures var f := Fetched(visit, url, page, maxPages, fuel);
      f != [] ==> f[0] == url
    decreases fuel
  {
    var f := Fetched(visit, url, page, maxPages, fuel);
    if MayFetch(url, page, maxPages, fuel) {
      var outcome := visit(url);
      if outcome.Page? {
        var next := Follow(url, outcome);
        var rest := Fetched(visit, next, page + 1, maxPages, fuel - 1);
        CrawlSteps(visit, next, page + 1, maxPages, fuel - 1);
        assert f == [url] + rest;
        forall i | 0 <= i < |f| - 1
          ensures StepsTo(visit, f[i], f[i + 1])
        {
          if i == 0 {
            assert rest != [] && rest[0] == next;
          } else {
            assert f[i] == rest[i - 1] && f[i + 1] == rest[i];
          }
        }
      }
    }
  }

  /**
   * The crawl ends early only for a reason: when the last page fetched had
   * products and a new next URL, the page limit or the fuel was used up.
   */
  lemma {:induction false} CrawlEndsAtLimit(visit: string -> PageOutcome, url: string,
                                            page: int, maxPages: Option<int>, fuel: nat)
    ensures var f := Fetched(visit, url, page, maxPages, fuel);
      f != [] && Follow(f[|f| - 1], visit(f[|f| - 1])) != "" ==>
        |f| == fuel || (Limited(maxPages) && page + |f| > maxPages.value)
    decreases fuel
  {
    var f := Fetched(visit, url, page, maxPages, fuel);
    if MayFetch(url, page, maxPages, fuel) && visit(url).Page? {
      var next := Follow(url, visit(url));
      var rest := Fetched(visit, next, page + 1, maxPages, fuel - 1);
      CrawlEndsAtLimit(visit, next, page + 1, maxPages, fuel - 1);
      assert f == [url] + rest;
      if rest != [] {
        assert f[|f| - 1] == rest[|rest| - 1];
      }
    }
  }

  /** With a truthy `max_pages`, no more than `max_pages - page + 1` pages are fetched. */
  lemma {:induction false} PageLimit(visit: string -> PageOutcome, url: string,
                                     page: int, maxPages: Option<int>, fuel: nat)
    requires Limited(maxPages)
    ensures |Fetched(visit, url, page, maxPages, fuel)| <= if maxPages.value - page + 1 > 0 then maxPages.value - page + 1 else 0
    decreases fuel
  {
    if MayFetch(url, page, maxPages, fuel) {
      PageLimit(visit, Follow(url, visit(url)), page + 1, maxPages, fuel - 1);
    }
  }

  /** At most `max_pages` pages in a whole run, and none at all when `max_pages` is negative. */
  lemma RunPageLimit(visit: string -> PageOutcome, baseUrl: string, maxPages: Option<int>, fuel: nat)
    requires Limited(maxPages)
    ensures maxPages.value > 0 ==> |Fetched(visit, baseUrl, 1, maxPages, fuel)| <= maxPages.value
    ensures maxPages.value < 0 ==> Crawl(visit, baseUrl, 1, maxPages, fuel) == []
  {
    PageLimit(visit, baseUrl, 1, maxPages, fuel);
  }

  /** `max_pages=0` behaves as no limit at all. */
  lemma {:induction false} ZeroMeansUnlimited(visit: string -> PageOutcome, url: string,
                                              page: int, fuel: nat)
    ensures Crawl(visit, url, page, Some(0), fuel) == Crawl(visit, url, page, None, fuel)
    ensures Fetched(visit, url, page, Some(0), fuel) == Fetched(visit, url, page, None, fuel)
    decreases fuel
  {
    if MayFetch(url, page, None, fuel) {
      ZeroMeansUnlimited(visit, Follow(url, visit(url)), page + 1, fuel - 1);
    }
  }

  /**
   * Under a truthy `max_pages` the cut-off `fuel` plays no part once it covers
   * the pages the limit allows.
   */
  lemma {:induction false} FuelIrrelevantUnderLimit(visit: string -> PageOutcome, url: string,
                                                    page: int, maxPages: Option<int>, fuel1: nat, fuel2: nat)
    requires Limited(maxPages)
    requires fuel1 >= maxPages.value - page + 1 && fuel2 >= maxPages.value - page + 1
    ensures Crawl(visit, url, page, maxPages, fuel1) == Crawl(visit, url, page, maxPages, fuel2)
    ensures Fetched(visit, url, page, maxPages, fuel1) == Fetched(visit, url, page, maxPages, fuel2)
    decreases fuel1
  {
    if MayFetch(url, page, maxPages, fuel1) {
      FuelIrrelevantUnderLimit(visit, Follow(url, visit(url)), page + 1, maxPages, fuel1 - 1, fuel2 - 1);
    }
  }

  /** `max_pages=1` reads the first page only, however many pages the site has. */
  lemma FirstPageOnly(visit: string -> PageOutcome, baseUrl: string, fuel: nat)
    requires baseUrl != "" && fuel > 0
    ensures Crawl(visit, baseUrl, 1, Some(1), fuel) == PageProducts(visit, baseUrl)
    ensures Fetched(visit, baseUrl, 1, Some(1), fuel) == [baseUrl]
  {
    assert !MayFetch(Follow(baseUrl, visit(baseUrl)), 2, Some(1), fuel - 1);
  }

  /** A page whose next URL is itself ends the crawl after that page. */
  lemma SelfLinkStops(visit: string -> PageOutcome, url: string, page: int,
                      maxPages: Option<int>, fuel: nat, products: seq<Product>)
    requires MayFetch(url, page, maxPages, fuel)
    requires visit(url) == Page(products, Some(url))
    ensures Crawl(visit, url, page, maxPages, fuel) == products
    ensures Fetched(visit, url, page, maxPages, fuel) == [url]
  {
  }

  /**
   * The loop guard compares only with the current URL: two pages that link to
   * each other are fetched alternately until the page limit, so a URL can be
   * fetched again and its records collected twice.
   */
  lemma TwoPageCycleRevisits(visit: string -> PageOutcome, a: string, b: string,
                             pa: seq<Product>, pb: seq<Product>, fuel: nat)
    requires a != "" && b != "" && a != b && fuel >= 3
    requires visit(a) == Page(pa, Some(b))
    requires visit(b) == Page(pb, Some(a))
    ensures Fetched(visit, a, 1, Some(3), fuel) == [a, b, a]
    ensures Crawl(visit, a, 1, Some(3), fuel) == pa + pb + pa
  {
    assert Fetched(visit, a, 4, Some(3), fuel - 3) == [];
    assert Fetched(visit, a, 3, Some(3), fuel - 2) == [a];
    assert Fetched(visit, b, 2, Some(3), fuel - 1) == [b, a];
    assert Crawl(visit, a, 3, Some(3), fuel - 2) == pa;
    assert Crawl(visit, b, 2, Some(3), fuel - 1) == pb + pa;
  }
}
