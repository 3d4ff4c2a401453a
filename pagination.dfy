/**
 * `DoctorPetScraper._get_next_page_url` (scraper.py:323-371): the URL of the
 * next listing page, found by an ordered chain of heuristics over the whole
 * parsed page.
 *
 * Relative links are resolved against the current URL with `urljoin`
 * (reference resolution, section 5.2 of RFC 3986); that resolution is the
 * parameter `join`, applied as `join(base, reference)`.
 */
module Pagination {
  import opened Wrappers
  import opened Markup

  /** `find('a', class_='next')` */
  predicate IsNextClassLink(n: Node) { TagWithClass(n, "a", "next") }

  /** `find('a', class_='next-page')` */
  predicate IsNextPageClassLink(n: Node) { TagWithClass(n, "a", "next-page") }

  /** The `.string` of `n` is non-empty and, lower-cased, mentions `word`. */
  predicate StringMentions(n: Node, word: string)
  {
    StringOf(n).Some? && StringOf(n).value != "" && Contains(Lower(StringOf(n).value), word)
  }

  /** `find('a', text=...)` with "siguiente" */
  predicate IsSiguienteLink(n: Node) { IsTag(n, "a") && StringMentions(n, "siguiente") }

  /** `find('a', text=...)` with "next" */
  predicate IsNextTextLink(n: Node) { IsTag(n, "a") && StringMentions(n, "next") }

  /** `find('nav', class_='woocommerce-pagination')` */
  predicate IsPaginationNav(n: Node) { TagWithClass(n, "nav", "woocommerce-pagination") }

  /** `find('span', class_='current')` */
  predicate IsCurrentPage(n: Node) { TagWithClass(n, "span", "current") }

  /** `find_next('a', href=True)` */
  predicate IsHrefLink(n: Node) { TagWithAttr(n, "a", "href") }

  /** Python truthiness of `tag.get('href')`. */
  predicate HasFilledHref(n: Node)
  {
    n.Elem? && "href" in n.attrs && n.attrs["href"] != ""
  }

  /**
   * The anchor chosen by the first four heuristics, joined with `or`: the first
   * of them that finds an anchor decides, whether or not that anchor has an `href`.
   */
  function NextButton(soup: Node): Option<Node>
  {
    match Find(soup, IsNextClassLink)
    case Some(a) => Some(a)
    case None =>
      match Find(soup, IsNextPageClassLink)
      case Some(a) => Some(a)
      case None =>
        match Find(soup, IsSiguienteLink)
        case Some(a) => Some(a)
        case None => Find(soup, IsNextTextLink)
  }

  /**
   * Inside the first `nav` match, the first `cur` match; then the first `link`
   * match that follows it anywhere in the document (`find_next`).
   */
  function FollowingMatch(soup: Node, nav: Node -> bool, cur: Node -> bool, link: Node -> bool): (r: Option<Node>)
    ensures r.Some? ==> link(r.value)
  {
    var d := Descendants(soup);
    match FirstIndex(d, nav)
    case None => None
    case Some(i) =>
      match FirstIndex(Descendants(d[i]), cur)
      case None => None
      case Some(j) =>
        SubtreeSlice(soup, i);
        var c := i + 1 + j;
        match FirstIndex(d[c + 1..], link)
        case None => None
        case Some(k) => Some(d[c + 1 + k])
  }

  /**
   * The numbered-pagination fallback: inside the first pagination `nav`, the
   * first `span.current`; then the first anchor with an `href` that follows it
   * anywhere in the document. Returns the raw `href`.
   */
  function NumberedNext(soup: Node): Option<string>
  {
    match FollowingMatch(soup, IsPaginationNav, IsCurrentPage, IsHrefLink)
    case None => None
    case Some(a) => Some(a.attrs["href"])
  }

  /** An absolute (`http`-prefixed) link as it is, any other resolved against the current URL. */
  function Resolve(href: string, current: string, join: (string, string) -> string): (r: string)
    ensures StartsWith(href, "http") ==> r == href
  {
    if StartsWith(href, "http") then href else join(current, href)
  }

  /** `_get_next_page_url(soup, current_url)` */
  function NextPageUrl(soup: Node, current: string, join: (string, string) -> string): Option<string>
  {
    var button := NextButton(soup);
    if button.Some? && HasFilledHref(button.value) then
      Some(Resolve(button.value.attrs["href"], current, join))
    else
      match NumberedNext(soup)
      case Some(href) => Some(Resolve(href, current, join))
      case None => None
  }

  // ---------------------------------------------------------------------------
  // What the heuristics promise
  // ---------------------------------------------------------------------------

  /** A next-button with an `href` decides the result. */
  lemma ButtonWithHrefDecides(soup: Node, current: string, join: (string, string) -> string, button: Node)
    requires NextButton(soup) == Some(button) && HasFilledHref(button)
    ensures NextPageUrl(soup, current, join) == Some(Resolve(button.attrs["href"], current, join))
  {
  }

  /**
   * An `a.next` without an `href` shadows the `a.next-page` and the
   * "siguiente"/"next" text heuristics: only numbered pagination is tried,
   * whatever other next-links the page holds.
   */
  lemma HreflessNextClassShadows(soup: Node, current: string, join: (string, string) -> string, a: Node)
    requires Find(soup, IsNextClassLink) == Some(a) && !HasFilledHref(a)
    ensures NextPageUrl(soup, current, join) ==
      match NumberedNext(soup)
      case Some(href) => Some(Resolve(href, current, join))
      case None => None
  {
  }

  /**
   * The four button searches in their order: the first `a.next` in the page
   * wins; only without one does the first `a.next-page` count; only without
   * either, the first anchor whose text mentions "siguiente"; and only then the
   * first one mentioning "next". With none of them the button is missing.
   */
  lemma NextButtonPriority(soup: Node)
    ensures NextButton(soup).None? <==>
      forall m :: m in Descendants(soup) ==>
        !IsNextClassLink(m) && !IsNextPageClassLink(m) && !IsSiguienteLink(m) && !IsNextTextLink(m)
    ensures forall i :: FirstAt(Descendants(soup), IsNextClassLink, i) ==>
      NextButton(soup) == Some(Descendants(soup)[i])
    ensures forall i :: (forall m :: m in Descendants(soup) ==> !IsNextClassLink(m)) &&
                        FirstAt(Descendants(soup), IsNextPageClassLink, i) ==>
      NextButton(soup) == Some(Descendants(soup)[i])
    ensures forall i :: (forall m :: m in Descendants(soup) ==> !IsNextClassLink(m) && !IsNextPageClassLink(m)) &&
                        FirstAt(Descendants(soup), IsSiguienteLink, i) ==>
      NextButton(soup) == Some(Descendants(soup)[i])
    ensures forall i :: (forall m :: m in Descendants(soup) ==>
                           !IsNextClassLink(m) && !IsNextPageClassLink(m) && !IsSiguienteLink(m)) &&
                        FirstAt(Descendants(soup), IsNextTextLink, i) ==>
      NextButton(soup) == Some(Descendants(soup)[i])
  {
    FindSpec(soup, IsNextClassLink);
    FindSpec(soup, IsNextPageClassLink);
    FindSpec(soup, IsSiguienteLink);
    FindSpec(soup, IsNextTextLink);
  }

  /**
   * Whichever heuristic found the button, a button without an `href` is not
   * passed over for a later heuristic: only numbered pagination is tried.
   */
  lemma HreflessButtonFallsBack(soup: Node, current: string, join: (string, string) -> string)
    requires NextButton(soup).Some? && !HasFilledHref(NextButton(soup).value)
    ensures NextPageUrl(soup, current, join) ==
      match NumberedNext(soup)
      case Some(href) => Some(Resolve(href, current, join))
      case None => None
  {
  }

  /** Nothing matches exactly when no button with an `href` and no numbered link is found. */
  lemma NoNextPageIff(soup: Node, current: string, join: (string, string) -> string)
    ensures NextPageUrl(soup, current, join).None? <==>
      !(NextButton(soup).Some? && HasFilledHref(NextButton(soup).value)) && NumberedNext(soup).None?
  {
  }

  /** A found absolute URL comes back exactly as written in the page. */
  lemma AbsoluteUrlUnchanged(soup: Node, current: string, join: (string, string) -> string)
    requires NextButton(soup).Some? && HasFilledHref(NextButton(soup).value)
    requires StartsWith(NextButton(soup).value.attrs["href"], "http")
    ensures NextPageUrl(soup, current, join) == Some(NextButton(soup).value.attrs["href"])
  {
  }

  /** `FollowingMatch` in terms of the three searches it makes. */
  lemma FollowingMatchOf(soup: Node, nav: Node -> bool, cur: Node -> bool, link: Node -> bool, i: nat, c: nat, k: nat)
    requires FirstIndex(Descendants(soup), nav) == Some(i)
    requires i < c < |Descendants(soup)| && FirstIndex(Descendants(Descendants(soup)[i]), cur) == Some(c - i - 1)
    requires c < k && FirstIndex(Descendants(soup)[c + 1..], link) == Some(k - c - 1)
    ensures FollowingMatch(soup, nav, cur, link) == Some(Descendants(soup)[k])
  {
  }

  /** The first `cur` match inside the subtree at `i`, found by its position `c` in the whole document. */
  lemma FirstInSubtree(soup: Node, i: nat, c: nat, cur: Node -> bool)
    requires i < |Descendants(soup)| && i < c <= i + |Descendants(Descendants(soup)[i])| && c < |Descendants(soup)|
    requires cur(Descendants(soup)[c])
    requires forall m :: i < m < c ==> !cur(Descendants(soup)[m])
    ensures FirstIndex(Descendants(Descendants(soup)[i]), cur) == Some(c - i - 1)
  {
    var d := Descendants(soup);
    SubtreeSlice(soup, i);
    FirstIndexInBlock(d, Descendants(d[i]), i + 1, cur, c);
  }

  /**
   * `FollowingMatch`, stated on positions in the document: the first `nav` at
   * `i`, the first `cur` of its subtree at `c`, and the first `link` after `c`
   * at `k` (inside the `cur` match, inside the `nav`, or anywhere later).
   */
  lemma FollowingMatchAt(soup: Node, i: nat, c: nat, k: nat, nav: Node -> bool, cur: Node -> bool, link: Node -> bool)
    requires FirstAt(Descendants(soup), nav, i)
    requires i < c <= i + |Descendants(Descendants(soup)[i])| && c < |Descendants(soup)|
    requires cur(Descendants(soup)[c])
    requires forall m :: i < m < c ==> !cur(Descendants(soup)[m])
    requires c < k < |Descendants(soup)| && link(Descendants(soup)[k])
    requires forall m :: c < m < k ==> !link(Descendants(soup)[m])
    ensures FollowingMatch(soup, nav, cur, link) == Some(Descendants(soup)[k])
  {
    FirstIndexAt(Descendants(soup), nav, i);
    FirstInSubtree(soup, i, c, cur);
    FirstIndexInSuffix(Descendants(soup), c + 1, link, k);
    FollowingMatchOf(soup, nav, cur, link, i, c, k);
  }

  /**
   * The numbered fallback on positions in the page: the first pagination
   * `nav` at `i`, its first `span.current` at `c`, and the first anchor with
   * an `href` after `c` at `k`.
   */
  lemma NumberedNextIsFollowingLink(soup: Node, i: nat, c: nat, k: nat)
    requires FirstAt(Descendants(soup), IsPaginationNav, i)
    requires i < c <= i + |Descendants(Descendants(soup)[i])| && c < |Descendants(soup)|
    requires IsCurrentPage(Descendants(soup)[c])
    requires forall m :: i < m < c ==> !IsCurrentPage(Descendants(soup)[m])
    requires c < k < |Descendants(soup)| && IsHrefLink(Descendants(soup)[k])
    requires forall m :: c < m < k ==> !IsHrefLink(Descendants(soup)[m])
    ensures NumberedNext(soup) == Some(Descendants(soup)[k].attrs["href"])
  {
    FollowingMatchAt(soup, i, c, k, IsPaginationNav, IsCurrentPage, IsHrefLink);
  }

  // ---------------------------------------------------------------------------
  // When the numbered fallback finds nothing
  // ---------------------------------------------------------------------------

  /** No `nav` match anywhere: nothing is found. */
  lemma FollowingMatchNoNav(soup: Node, nav: Node -> bool, cur: Node -> bool, link: Node -> bool)
    requires forall m :: m in Descendants(soup) ==> !nav(m)
    ensures FollowingMatch(soup, nav, cur, link) == None
  {
    FirstIndexSpec(Descendants(soup), nav);
  }

  /** The first `nav` holds no `cur` match: nothing is found, whatever follows. */
  lemma FollowingMatchNoCur(soup: Node, i: nat, nav: Node -> bool, cur: Node -> bool, link: Node -> bool)
    requires FirstAt(Descendants(soup), nav, i)
    requires forall m :: m in Descendants(Descendants(soup)[i]) ==> !cur(m)
    ensures FollowingMatch(soup, nav, cur, link) == None
  {
    FirstIndexAt(Descendants(soup), nav, i);
    FirstIndexSpec(Descendants(Descendants(soup)[i]), cur);
  }

  /** No `link` match anywhere after the first `cur` of the first `nav`: nothing is found. */
  lemma FollowingMatchNoLink(soup: Node, i: nat, c: nat, nav: Node -> bool, cur: Node -> bool, link: Node -> bool)
    requires FirstAt(Descendants(soup), nav, i)
    requires i < c <= i + |Descendants(Descendants(soup)[i])| && c < |Descendants(soup)|
    requires cur(Descendants(soup)[c])
    requires forall m :: i < m < c ==> !cur(Descendants(soup)[m])
    requires forall m :: c < m < |Descendants(soup)| ==> !link(Descendants(soup)[m])
    ensures FollowingMatch(soup, nav, cur, link) == None
  {
    var d := Descendants(soup);
    FirstIndexAt(d, nav, i);
    FirstInSubtree(soup, i, c, cur);
    var after := d[c + 1..];
    forall k | 0 <= k < |after| ensures !link(after[k]) {
      assert after[k] == d[c + 1 + k];
    }
  }

  /**
   * The numbered fallback finds nothing when the page has no pagination
   * `nav`, when the first one has no `span.current`, or when no anchor with an
   * `href` follows that marker anywhere in the document.
   */
  lemma NumberedNextNone(soup: Node)
    ensures (forall m :: m in Descendants(soup) ==> !IsPaginationNav(m)) ==> NumberedNext(soup) == None
    ensures forall i :: FirstAt(Descendants(soup), IsPaginationNav, i) &&
                        (forall m :: m in Descendants(Descendants(soup)[i]) ==> !IsCurrentPage(m))
                        ==> NumberedNext(soup) == None
    ensures forall i, c :: FirstAt(Descendants(soup), IsPaginationNav, i) &&
                           i < c <= i + |Descendants(Descendants(soup)[i])| && c < |Descendants(soup)| &&
                           IsCurrentPage(Descendants(soup)[c]) &&
                           (forall m :: i < m < c ==> !IsCurrentPage(Descendants(soup)[m])) &&
                           (forall m :: c < m < |Descendants(soup)| ==> !IsHrefLink(Descendants(soup)[m]))
                           ==> NumberedNext(soup) == None
  {
    var d := Descendants(soup);
    if forall m :: m in d ==> !IsPaginationNav(m) {
      FollowingMatchNoNav(soup, IsPaginationNav, IsCurrentPage, IsHrefLink);
    }
    forall i | FirstAt(d, IsPaginationNav, i) && (forall m :: m in Descendants(d[i]) ==> !IsCurrentPage(m))
      ensures NumberedNext(soup) == None
    {
      FollowingMatchNoCur(soup, i, IsPaginationNav, IsCurrentPage, IsHrefLink);
    }
    forall i, c | FirstAt(d, IsPaginationNav, i) &&
                  i < c <= i + |Descendants(d[i])| && c < |d| &&
                  IsCurrentPage(d[c]) && (forall m :: i < m < c ==> !IsCurrentPage(d[m])) &&
                  (forall m :: c < m < |d| ==> !IsHrefLink(d[m]))
      ensures NumberedNext(soup) == None
    {
      FollowingMatchNoLink(soup, i, c, IsPaginationNav, IsCurrentPage, IsHrefLink);
    }
  }
}
