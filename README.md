# DoctorPet category scraper, modelled in Dafny

This project models the decision logic of `DoctorPetScraper` in `scraper.py`.
The scraper walks the paginated listing of one WooCommerce product category.
For each page it fetches the HTML with retries, turns every `li.product` item
into a five-field record ("N/A" for what it cannot find), and looks for the
next page. At the end it writes the records to a CSV file.

HTTP, the HTML parser, `urljoin`, the clock and the file system become inputs
of the model:

- **The network.** Attempt `k` of a request for `url` gets `site(url)(k)`. An
  `Attempt` is `Ok(page)`, `Timeout`, `ConnError`, `HttpError(status)` or `Other`.
- **The parsed page.** A `Node` tree, which is an element (tag, classes, other
  attributes, children) or a text fragment.
  - `find` is the first match among the descendants in document (preorder) order.
  - `find_all` is every match, in that order.
  - `find_next` is the first match after the node in the whole document.
  - `get_text(strip=True)` strips every text fragment below the node with
    Python's `str.strip` whitespace set, then concatenates them.
- **`urljoin`.** The parameter `join`. Reference resolution is section 5.2 of
  RFC 3986.
- **The file.** The table of cells it would hold.

The modules follow the scraper's structure:

| module | file | models |
|---|---|---|
| `Wrappers` | wrappers.dfy | `Option` |
| `Markup` | markup.dfy | the node tree, document order, `find`/`find_all`/`find_next`, `get_text`, `.string`, `str.strip`, `str.lower`, `in`, `startswith` |
| `Fetcher` | fetcher.dfy | `_make_request`: retries, linear back-off, permanent HTTP errors |
| `Extractor` | extractor.dfy | `_extract_product_info`: the five field resolvers and the output gate |
| `Pagination` | pagination.dfy | `_get_next_page_url`: the next-button chain and the numbered-pagination fallback |
| `Crawler` | crawler.dfy | `scrape_category`: the page loop |
| `CsvWriter` | csvwriter.dfy | `save_to_csv`: its control decisions and the rows it writes |

`_make_request`, `scrape_category` and `save_to_csv` are loops in the source.
Each becomes a method proved against a specification function:

- `Fetcher.MakeRequest` is proved against `Request`, `AttemptCount` and `Backoff`.
- `Crawler.ScrapeCategory` is proved against `Crawl` and `Fetched`.
- `CsvWriter.SaveToCsv` is proved against `Table` and `FileName`.

The lemmas then state what the source promises about those functions.
Extraction and next-page selection are pure decision chains and are modelled
as functions.

`ScrapeCategory` gets its pages through `ReadPage`, which fetches one page
(`MakeRequest`), finds its items and reads them (`ExtractItems`), and looks
for the next URL. The crawl lemmas are stated over `visit`, which is what
each URL reads as. The predicate `ReadsAs` ties `visit` to the site.

Two behaviours of the source are worth spelling out, because they are easy to
misread:

- **The sample price `45.000&nbsp;<span>$</span>`** (test_scraper.py:31).
  `get_text(strip=True)` (scraper.py:274) strips each text fragment on its own.
  The no-break space at the end of "45.000\xa0" is therefore removed, and the
  price reads "45.000$". `Markup.SamplePriceText` proves this for the sample. The sale price `28.000&nbsp;$` (test_scraper.py:43) is a
  single fragment, so its inner no-break space stays.
- **A next URL equal to the current one.** `_get_next_page_url` can return
  the current URL. Only the crawl loop stops on it (scraper.py:453).
  `Pagination.NextPageUrl` may return the current URL, and `Crawler.Follow`
  stops on it.

## Model

| member | source | states |
|---|---|---|
| Markup.FirstIndex | scraper.py:245 | the position found holds a match |
| Markup.FirstIndexSpec | scraper.py:245 | nothing before the found position matches; no position means no match anywhere |
| Markup.FirstIndexAt | scraper.py:245 | a first match at position `i` is exactly what the search finds |
| Markup.FindSpec | scraper.py:245-259 | `find` gives nothing iff no descendant matches; otherwise it gives a matching descendant, the one first in document order |
| Markup.Descendants | scraper.py:245 | the nodes below a node in document order; `ForestSubtree` and `SubtreeSlice` state the shape of that order |
| Markup.Find | scraper.py:245 | `find`: the first matching descendant; specified by `FindSpec` |
| Markup.FindAll | scraper.py:422 | `find_all`: the matching descendants in document order; specified by `Filter`, `FilterSingle`, `FilterAppend` and `FindIsHeadOfFindAll` |
| Markup.Filter | scraper.py:422 | `find_all` keeps exactly the matching nodes and never more nodes than it scans |
| Markup.FilterSingle | scraper.py:422 | one node is kept iff it matches |
| Markup.FilterAppend | scraper.py:422 | the matches of `a + b` are the matches of `a` followed by those of `b`, so document order and multiplicity are kept |
| Markup.StringOf | scraper.py:345-346 | `.string`: the text of a node whose only content is one text fragment, through single-child elements; used by the text heuristics that `HreflessNextClassShadows` and `NoNextPageIff` order |
| Markup.FindIsHeadOfFindAll | scraper.py:422 | `find` is empty iff `find_all` is, and otherwise `find` gives the head of `find_all` |
| Markup.ForestSubtree | scraper.py:363 | in document order a node is immediately followed by exactly its own subtree, the basis of `find_next` |
| Markup.SubtreeSlice | scraper.py:360-363 | the subtree of the node at position `i` of a page is the block right after `i` |
| Markup.Strip | scraper.py:259 | `str.strip` leaves no whitespace at either end; it is the slice of its input with only whitespace before and after it, and it is empty iff the input is all whitespace |
| Markup.JoinStripped | scraper.py:259 | the concatenation of stripped fragments has no whitespace at either end; `JoinStrippedSingle` and `JoinStrippedAppend` fix its value |
| Markup.JoinStrippedSingle | scraper.py:259 | one node contributes its own stripped text if it is a text fragment, and nothing otherwise |
| Markup.JoinStrippedAppend | scraper.py:259 | the text of two runs of nodes is the text of the first followed by that of the second: each fragment is stripped on its own, and the pieces are joined in document order with no separator |
| Markup.GetText | scraper.py:259 | `get_text(strip=True)` has no whitespace at either end; its value is `JoinStripped` over the descendants in document order |
| Markup.SamplePriceText | test_scraper.py:31 | the sample amount `45.000&nbsp;<span>$</span>` reads "45.000$" under `get_text(strip=True)` (scraper.py:274), while stripping the joined text once would keep the no-break space |
| Markup.Lower | scraper.py:298-299 | `lower()` keeps the length and maps each character on its own |
| Markup.ContainsAt | scraper.py:299 | `sub in s` holds iff `sub` occurs as a slice of `s` at some position |
| Fetcher.FirstFinal | scraper.py:160-190 | finds the first attempt within the budget that succeeds or fails permanently; every attempt before it is retryable |
| Fetcher.Backoff | scraper.py:197-200 | the pauses are 2, 4, 6, … seconds: pause `i` is `DELAY_BETWEEN_REQUESTS * (i + 1)` |
| Fetcher.Request | scraper.py:160-203 | the page the request comes to; specified by `RequestSucceedsIff`, `PermanentErrorStops` and `TransientFailuresExhaust` |
| Fetcher.AttemptCount | scraper.py:160-190 | the attempts made; bounded by `AttemptBounds` and fixed by `PermanentErrorStops` and `TransientFailuresExhaust` |
| Fetcher.WaitCount | scraper.py:197-200 | the pauses taken, one fewer than attempts (`AttemptBounds`) |
| Fetcher.MakeRequest | scraper.py:141-203 | the method returns `Request`, tries exactly `AttemptCount` attempts in order, and sleeps `Backoff(WaitCount)` |
| Fetcher.FirstFinalAt | scraper.py:160-190 | an attempt that ends the request, with only retryable ones before it, is where the request stops |
| Fetcher.RequestSucceedsIff | scraper.py:160-178 | a page is returned iff some attempt within the budget returns it and every earlier attempt failed in a retryable way |
| Fetcher.PermanentErrorStops | scraper.py:186-190 | a 401, 403 or 404 gives `None` at once, after `k + 1` attempts and `k` pauses |
| Fetcher.TransientFailuresExhaust | scraper.py:180-203 | timeouts, connection errors, other statuses and other exceptions are retried: all `retries` attempts, pauses 2…2(retries-1), result `None` |
| Fetcher.AttemptBounds | scraper.py:160-203 | at most `retries` attempts; none iff `retries <= 0`; one pause fewer than attempts |
| Extractor.Link | scraper.py:245-247 | the link field; specified by `LinkIsFirstHref` |
| Extractor.Name | scraper.py:252-259 | the name field; specified by `NamePriority` |
| Extractor.AmountOf | scraper.py:267-271 | the amount span, inside `ins` if there is one; specified by `SaleAmountWins`, `SaleWithoutAmountFallsBack` and `RegularPrice` |
| Extractor.Price | scraper.py:264-277 | the price field; specified by `PriceNeedsPriceSpan`, `SaleAmountWins`, `SaleWithoutAmountFallsBack` and `RegularPrice` |
| Extractor.Image | scraper.py:282-290 | the image field; specified by `ImageSourceOrder` and `ImageNeverEmpty` |
| Extractor.Availability | scraper.py:297-310 | the availability field; specified by `AvailabilityPriority` and `SoldOutBeatsAddToCart` |
| Extractor.ExtractProduct | scraper.py:234-317 | the record is dropped iff both name and link are "N/A"; otherwise it has all five resolved fields |
| Extractor.LinkIsFirstHref | scraper.py:245-247 | the link is the `href` of the first anchor that has one; "N/A" when there is none |
| Extractor.NamePriority | scraper.py:252-259 | the name is the stripped text of the first titled `h2`, else titled `h3`, else any `h2`, else any `h3`, however early a lower-priority heading comes; "N/A" with no heading |
| Extractor.PriceNeedsPriceSpan | scraper.py:264-265 | without a `span.price` the price is "N/A" |
| Extractor.SaleAmountWins | scraper.py:267-274 | with an `ins`, the amount span inside the `ins` gives the price |
| Extractor.SaleWithoutAmountFallsBack | scraper.py:267-277 | an `ins` without an amount span gives the whole price text, never the `del` amount |
| Extractor.RegularPrice | scraper.py:270-277 | without an `ins`, the first amount span of the price gives it, else the whole price text |
| Extractor.ImageSourceOrder | scraper.py:282-290 | the image is `src` if non-empty, else `data-src` if non-empty, else "N/A" |
| Extractor.ImageNeverEmpty | scraper.py:286-290 | the image field is never the empty string |
| Extractor.AvailabilityPriority | scraper.py:297-310 | sold-out text wins, then an add-to-cart button, then the first stock badge's text, else "N/A" |
| Extractor.SoldOutBeatsAddToCart | scraper.py:302-305 | sold-out text anywhere beats an add-to-cart button |
| Extractor.UnresolvedFieldsStayNA | scraper.py:234-315 | a field with nothing to resolve it stays "N/A" in a kept record |
| Extractor.NoNameNoLinkNoRecord | scraper.py:314-317 | an item with no heading and no anchor with an `href` yields no record |
| Pagination.NextPageUrl | scraper.py:323-371 | `_get_next_page_url`; specified by `NextButtonPriority`, `ButtonWithHrefDecides`, `HreflessButtonFallsBack`, `HreflessNextClassShadows`, `NoNextPageIff`, `AbsoluteUrlUnchanged`, `NumberedNextIsFollowingLink` and `NumberedNextNone` |
| Pagination.NextButton | scraper.py:342-347 | the first of the four next-button searches that finds an anchor decides, with or without an `href`; `NextButtonPriority` states the order, and `HreflessButtonFallsBack` and `ButtonWithHrefDecides` the consequence |
| Pagination.NextButtonPriority | scraper.py:342-347 | the first `a.next` wins; without one, the first `a.next-page`; without either, the first anchor whose `.string` mentions "siguiente"; then "next"; with none of them there is no button |
| Pagination.HreflessButtonFallsBack | scraper.py:342-371 | a found button without an `href`, whichever search found it, leaves only the numbered fallback |
| Pagination.NumberedNext | scraper.py:358-369 | the numbered fallback's raw `href`; specified by `NumberedNextIsFollowingLink` and `NumberedNextNone` |
| Pagination.FollowingMatch | scraper.py:358-364 | what the numbered fallback finds is an anchor with an `href` |
| Pagination.Resolve | scraper.py:352-368 | a URL starting with `http` is returned unchanged |
| Pagination.ButtonWithHrefDecides | scraper.py:342-355 | a next-button with a non-empty `href` decides the next URL |
| Pagination.HreflessNextClassShadows | scraper.py:342-371 | an `a.next` without an `href` shadows the other three button heuristics: only numbered pagination is tried |
| Pagination.NoNextPageIff | scraper.py:349-371 | the result is `None` iff there is no button with an `href` and no numbered link |
| Pagination.AbsoluteUrlUnchanged | scraper.py:349-355 | an absolute button URL is returned exactly as written |
| Pagination.FollowingMatchOf | scraper.py:358-364 | the fallback is the composition of its three searches |
| Pagination.FirstInSubtree | scraper.py:360 | the first `span.current` of the pagination `nav`, found by its position in the page |
| Pagination.FollowingMatchAt | scraper.py:358-364 | the fallback, stated on page positions: first `nav` at `i`, its first `cur` at `c`, and the first `link` after `c` at `k` |
| Pagination.FollowingMatchNoNav | scraper.py:358-359 | no `nav` match anywhere: the fallback finds nothing |
| Pagination.FollowingMatchNoCur | scraper.py:358-361 | the first `nav` holds no `cur` match: the fallback finds nothing |
| Pagination.FollowingMatchNoLink | scraper.py:358-364 | no `link` match anywhere after the marker: the fallback finds nothing |
| Pagination.NumberedNextNone | scraper.py:358-371 | with no pagination `nav`, no `span.current` in the first one, or no anchor with an `href` after it, the fallback gives `None` |
| Pagination.NumberedNextIsFollowingLink | scraper.py:358-365 | the numbered fallback returns the `href` of the first anchor with an `href` after the current-page marker, anywhere in the document |
| Crawler.Records | scraper.py:437-441 | a page yields at most one record per item |
| Crawler.RecordsComplete | scraper.py:437-441 | every record comes from an item of the page, and every item that yields a record has it in the result |
| Crawler.Visit | scraper.py:410-451 | what one URL reads as: fetch failure, no items, or the page's records and next URL; `ReadPage` is proved to compute it |
| Crawler.Follow | scraper.py:451-463 | the loop goes on exactly with a truthy next URL different from the current one, after a page with products |
| Crawler.Crawl | scraper.py:390-469 | the records the loop collects; specified by `CrawlIsPagesInOrder`, `PageLimit`, `ZeroMeansUnlimited` and the other crawl lemmas |
| Crawler.Fetched | scraper.py:399-463 | the URLs the loop fetches; specified by `CrawlSteps`, `CrawlEndsAtLimit` and `PageLimit` |
| Crawler.CrawlAdvance | scraper.py:399-463 | one turn of the loop: the page's URL is fetched and its records come first |
| Crawler.ExtractItems | scraper.py:437-445 | the item loop collects the records of the items that yield one, in document order |
| Crawler.ReadPage | scraper.py:410-451 | one page: fetch failure, no items, or the records and the next URL, exactly as `Visit` defines |
| Crawler.ScrapeCategory | scraper.py:373-469 | the method returns `Crawl` and fetches the URLs of `Fetched`, in order |
| Crawler.CrawlIsPagesInOrder | scraper.py:399-463 | the result is the records of every fetched page concatenated in page order |
| Crawler.CrawlSteps | scraper.py:399-463 | each fetched page but the last had products and named the next fetched URL, non-empty and different from its own; so failure, no products, or no new next URL ends the crawl |
| Crawler.CrawlEndsAtLimit | scraper.py:399-463 | when the last page fetched had products and a new next URL, the page limit or the fuel was used up, so the crawl ends early only for a reason |
| Crawler.PageLimit | scraper.py:402-404 | with a truthy `max_pages`, at most `max_pages - page + 1` pages are fetched |
| Crawler.RunPageLimit | scraper.py:402-404 | a whole run fetches at most `max_pages` pages, and none for a negative limit |
| Crawler.ZeroMeansUnlimited | scraper.py:402 | `max_pages=0` behaves exactly as `None` |
| Crawler.FuelIrrelevantUnderLimit | scraper.py:402-404 | under a page limit the model's fuel bound plays no part once it covers the limit |
| Crawler.FirstPageOnly | scraper.py:402-404 | `max_pages=1` reads the first page only |
| Crawler.SelfLinkStops | scraper.py:453 | a page whose next URL is itself ends the crawl |
| Crawler.TwoPageCycleRevisits | scraper.py:453 | two pages linking to each other are fetched alternately up to the limit, and their records collected again |
| CsvWriter.FileName | scraper.py:495-497 | the file name is never empty |
| CsvWriter.SaveToCsv | scraper.py:471-524 | an empty list returns "" and writes nothing; otherwise it writes the header and one row per product, returns the file name, or re-raises when the file cannot be opened |
| CsvWriter.FileNameChoice | scraper.py:495-497 | a given non-empty name is used as it is; otherwise `doctorpet_alimentos_<timestamp>.csv` |
| CsvWriter.Row | scraper.py:516-517 | `writerow`: the product's fields in the column order of scraper.py:508; specified by `RowRoundTrip` |
| CsvWriter.Table | scraper.py:508-517 | the header and one row per product, in order; specified by `TableRoundTrip` |
| CsvWriter.RowRoundTrip | scraper.py:508-517 | each row has one cell per column, in column order, and reads back as the product |
| CsvWriter.TableRoundTrip | scraper.py:508-517 | the file starts with the header `nombre, precio, disponibilidad, enlace, imagen` and reads back as exactly the products, in order |

## Left out

- The HTTP session, its headers, the request timeout and redirects (scraper.py:118-139, 164-168). They are network I/O; a request is its sequence of attempt outcomes.
- HTML parsing by lxml and BeautifulSoup. The page is the `Node` tree, and the `text=`/`string=` matchers are the predicates over it.
- `urljoin` is the parameter `join`. Only the rule that `http`-prefixed URLs are returned unchanged is stated.
- Markup.Lower: only ASCII letters and the KELVIN SIGN are lower-cased. Those are the only characters whose lower case can take part in matching the ASCII words the scraper looks for.
- The pauses of `scrape_category`: 0.5 s after every item and 2 s before the next page. They are pacing only. The back-off pauses of `_make_request` are modelled as the ghost list `sleeps`.
- A site answers a URL the same way every time it is fetched: attempt `k` for `url` is `site(url)(k)`, and the crawl lemmas read each URL through one `visit`. So `Crawler.TwoPageCycleRevisits` and `Crawler.CrawlSteps` on a revisited URL hold for such a server; one whose pages change between fetches is not modelled.
- Logging throughout, including the HTML preview on an empty page.
- Crawler.ScrapeCategory: the crawl takes a `fuel` bound on the number of pages fetched. With no page limit, the source loops for ever over pages that link in a cycle. `FuelIrrelevantUnderLimit` shows that the bound changes nothing once it covers a page limit.
- The exception catch-all of `_extract_product_info` (scraper.py:319-321). No step of the modelled extraction can fail on a parsed tree: `find('a', href=True)` guarantees the `href` it then reads.
- CSV quoting, the `utf-8-sig` encoding and file writing (scraper.py:506-524). The file is its table of cells. Failing to open it is the parameter `opens`. A write that fails part-way is not modelled.
- The clock: the formatted `datetime.now()` stamp of the default file name is the parameter `timestamp`.
- `main` and its `KeyboardInterrupt` handling (scraper.py:530-586).
- The sample listing of test_scraper.py:20-62 is not restated as concrete examples, except its first price (`Markup.SamplePriceText`). Its other scenarios are covered by general lemmas:
  - sale price in `ins`: `Extractor.SaleAmountWins`;
  - `h3` title: `Extractor.NamePriority`;
  - lazy `data-src` image: `Extractor.ImageSourceOrder`;
  - "Agotado" text: `Extractor.AvailabilityPriority`.
