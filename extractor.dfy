/**
 * `DoctorPetScraper._extract_product_info` (scraper.py:205-321): one listing
 * item (`li.product`) becomes a five-field record, each field resolved by its
 * own ordered list of lookups and left at "N/A" when none applies; the record
 * is dropped when neither a name nor a link came out.
 */
module Extractor {
  import opened Wrappers
  import opened Markup

  /** The placeholder of an unresolved field. */
  const NA: string := "N/A"

  const TitleClass: string := "woocommerce-loop-product__title"
  const AmountClass: string := "woocommerce-Price-amount"
  const SoldOut: string := "Agotado"
  const InStock: string := "Disponible"

  /** The record built for one listing item, one field per CSV column. */
  datatype Product = Product(
    nombre: string,          // name
    precio: string,          // price
    disponibilidad: string,  // availability
    enlace: string,          // link
    imagen: string)          // image URL

  // ---------------------------------------------------------------------------
  // The lookups, one per `find` in the source
  // ---------------------------------------------------------------------------

  /** `find('a', href=True)` */
  predicate IsLinkAnchor(n: Node) { TagWithAttr(n, "a", "href") }

  /** `find('h2', class_='woocommerce-loop-product__title')` */
  predicate IsTitleH2(n: Node) { TagWithClass(n, "h2", TitleClass) }

  /** `find('h3', class_='woocommerce-loop-product__title')` */
  predicate IsTitleH3(n: Node) { TagWithClass(n, "h3", TitleClass) }

  /** `find('h2')` */
  predicate IsH2(n: Node) { IsTag(n, "h2") }

  /** `find('h3')` */
  predicate IsH3(n: Node) { IsTag(n, "h3") }

  /** `find('span', class_='price')` */
  predicate IsPriceSpan(n: Node) { TagWithClass(n, "span", "price") }

  /** `find('ins')`: the sale price of a discounted product. */
  predicate IsIns(n: Node) { IsTag(n, "ins") }

  /** `find('span', class_='woocommerce-Price-amount')` */
  predicate IsAmountSpan(n: Node) { TagWithClass(n, "span", AmountClass) }

  /** `find('img')` */
  predicate IsImg(n: Node) { IsTag(n, "img") }

  /** `find('a', class_='add_to_cart_button')` */
  predicate IsAddToCart(n: Node) { TagWithClass(n, "a", "add_to_cart_button") }

  /** `find('span', class_='stock')` */
  predicate IsStockBadge(n: Node) { TagWithClass(n, "span", "stock") }

  /** `find(string=...)`: a non-empty text fragment mentioning "agotado" or "out of stock" in any case. */
  predicate IsSoldOutText(n: Node)
  {
    n.Text? && n.text != "" &&
    (Contains(Lower(n.text), "agotado") || Contains(Lower(n.text), "out of stock"))
  }

  /** Python truthiness of `tag.get(name)`: the attribute is there and not empty. */
  predicate Filled(v: Option<string>)
  {
    v.Some? && v.value != ""
  }

  // ---------------------------------------------------------------------------
  // The five fields
  // ---------------------------------------------------------------------------

  /** The `href` of the first anchor that has one. */
  function Link(item: Node): string
  {
    match Find(item, IsLinkAnchor)
    case Some(a) => a.attrs["href"]
    case None => NA
  }

  /** The stripped text of the first heading found, by the order of preference of the source. */
  function Name(item: Node): string
  {
    var title :=
      match Find(item, IsTitleH2)
      case Some(h) => Some(h)
      case None =>
        match Find(item, IsTitleH3)
        case Some(h) => Some(h)
        case None =>
          match Find(item, IsH2)
          case Some(h) => Some(h)
          case None => Find(item, IsH3);
    match title
    case Some(h) => GetText(h)
    case None => NA
  }

  /** The amount span of a price: inside its sale `ins` if it has one, else anywhere in it. */
  function AmountOf(price: Node): Option<Node>
  {
    match Find(price, IsIns)
    case Some(ins) => Find(ins, IsAmountSpan)
    case None => Find(price, IsAmountSpan)
  }

  /** The price: the amount's text, or the whole price text when no amount span is found. */
  function Price(item: Node): string
  {
    match Find(item, IsPriceSpan)
    case None => NA
    case Some(price) =>
      match AmountOf(price)
      case Some(amount) => GetText(amount)
      case None => GetText(price)
  }

  /** The first image's `src`, else its `data-src`, where an empty value counts as missing. */
  function Image(item: Node): string
  {
    match Find(item, IsImg)
    case None => NA
    case Some(img) =>
      if Filled(Attr(img, "src")) then Attr(img, "src").value
      else if Filled(Attr(img, "data-src")) then Attr(img, "data-src").value
      else NA
  }

  /** Sold-out text first, then an add-to-cart button, then the stock badge's text. */
  function Availability(item: Node): string
  {
    if Find(item, IsSoldOutText).Some? then SoldOut
    else if Find(item, IsAddToCart).Some? then InStock
    else match Find(item, IsStockBadge)
      case Some(badge) => GetText(badge)
      case None => NA
  }

  /**
   * The record of one listing item, or `None` when both the name and the link
   * are still "N/A" (scraper.py:314).
   */
  function ExtractProduct(item: Node): (r: Option<Product>)
    ensures r.None? <==> Name(item) == NA && Link(item) == NA
    ensures r.Some? ==> r.value == Product(Name(item), Price(item), Availability(item), Link(item), Image(item))
  {
    var p := Product(Name(item), Price(item), Availability(item), Link(item), Image(item));
    if p.nombre != NA || p.enlace != NA then Some(p) else None
  }

  // ---------------------------------------------------------------------------
  // What the resolution rules promise
  // ---------------------------------------------------------------------------

  /** The link is the `href` of the first anchor, in document order, that has one. */
  lemma LinkIsFirstHref(item: Node)
    ensures (forall m :: m in Descendants(item) ==> !IsLinkAnchor(m)) ==> Link(item) == NA
    ensures forall i :: FirstAt(Descendants(item), IsLinkAnchor, i) ==>
      Link(item) == Descendants(item)[i].attrs["href"]
  {
    FindSpec(item, IsLinkAnchor);
  }

  /**
   * A heading with the product-title class wins over any plain heading, even
   * one that comes earlier in the item, and an `h2` wins over an `h3` of the
   * same kind; with no `h2` or `h3` at all the name stays "N/A".
   */
  lemma NamePriority(item: Node)
    ensures (forall m :: m in Descendants(item) ==> !IsH2(m) && !IsH3(m)) ==> Name(item) == NA
    ensures forall i :: FirstAt(Descendants(item), IsTitleH2, i) ==>
      Name(item) == GetText(Descendants(item)[i])
    ensures forall i :: (forall m :: m in Descendants(item) ==> !IsTitleH2(m)) &&
                        FirstAt(Descendants(item), IsTitleH3, i) ==>
      Name(item) == GetText(Descendants(item)[i])
    ensures forall i :: (forall m :: m in Descendants(item) ==> !IsTitleH2(m) && !IsTitleH3(m)) &&
                        FirstAt(Descendants(item), IsH2, i) ==>
      Name(item) == GetText(Descendants(item)[i])
    ensures forall i :: (forall m :: m in Descendants(item) ==> !IsTitleH2(m) && !IsTitleH3(m) && !IsH2(m)) &&
                        FirstAt(Descendants(item), IsH3, i) ==>
      Name(item) == GetText(Descendants(item)[i])
  {
    var d := Descendants(item);
    FindSpec(item, IsTitleH2);
    FindSpec(item, IsTitleH3);
    FindSpec(item, IsH2);
    FindSpec(item, IsH3);
    if forall m :: m in d ==> !IsH2(m) && !IsH3(m) {
      assert forall m :: m in d ==> !IsTitleH2(m) && !IsTitleH3(m);
    }
  }

  /** The price is looked for only in `span.price`: without one it is "N/A", whatever else the item holds. */
  lemma PriceNeedsPriceSpan(item: Node)
    requires forall m :: m in Descendants(item) ==> !IsPriceSpan(m)
    ensures Price(item) == NA
  {
  }

  /** A sale price: the amount inside the price's `ins` is the price. */
  lemma SaleAmountWins(item: Node, price: Node, ins: Node, amount: Node)
    requires Find(item, IsPriceSpan) == Some(price)
    requires Find(price, IsIns) == Some(ins)
    requires Find(ins, IsAmountSpan) == Some(amount)
    ensures Price(item) == GetText(amount)
    ensures amount in Descendants(ins)
  {
  }

  /**
   * With an `ins` that holds no amount span the price is the whole price text:
   * the amount of the struck-through `del`, or any other amount of the price,
   * is never picked on its own.
   */
  lemma SaleWithoutAmountFallsBack(item: Node, price: Node, ins: Node)
    requires Find(item, IsPriceSpan) == Some(price)
    requires Find(price, IsIns) == Some(ins)
    requires forall m :: m in Descendants(ins) ==> !IsAmountSpan(m)
    ensures Price(item) == GetText(price)
  {
  }

  /** Without a sale, the first amount span of the price, else the price's whole text. */
  lemma RegularPrice(item: Node, price: Node)
    requires Find(item, IsPriceSpan) == Some(price)
    requires forall m :: m in Descendants(price) ==> !IsIns(m)
    ensures forall i :: FirstAt(Descendants(price), IsAmountSpan, i) ==>
      Price(item) == GetText(Descendants(price)[i])
    ensures (forall m :: m in Descendants(price) ==> !IsAmountSpan(m)) ==> Price(item) == GetText(price)
  {
    FindSpec(price, IsIns);
    FindSpec(price, IsAmountSpan);
  }

  /**
   * The first image decides: its `src` when non-empty, else its `data-src`
   * when non-empty (an empty `src` falls through), else "N/A".
   */
  lemma ImageSourceOrder(item: Node, img: Node)
    requires Find(item, IsImg) == Some(img)
    ensures Filled(Attr(img, "src")) ==> Image(item) == img.attrs["src"]
    ensures !Filled(Attr(img, "src")) && Filled(Attr(img, "data-src")) ==> Image(item) == img.attrs["data-src"]
    ensures !Filled(Attr(img, "src")) && !Filled(Attr(img, "data-src")) ==> Image(item) == NA
  {
  }

  /** The image is never an empty string: it is a non-empty attribute value or "N/A". */
  lemma ImageNeverEmpty(item: Node)
    ensures Image(item) != ""
  {
  }

  /**
   * Sold-out text anywhere in the item decides first, then an add-to-cart
   * button anywhere, then the text of the first stock badge; with none of the
   * three the availability stays "N/A".
   */
  lemma AvailabilityPriority(item: Node)
    ensures (exists m :: m in Descendants(item) && IsSoldOutText(m)) ==> Availability(item) == SoldOut
    ensures ((forall m :: m in Descendants(item) ==> !IsSoldOutText(m)) &&
             (exists m :: m in Descendants(item) && IsAddToCart(m))) ==> Availability(item) == InStock
    ensures (forall m :: m in Descendants(item) ==> !IsSoldOutText(m) && !IsAddToCart(m) && !IsStockBadge(m))
            ==> Availability(item) == NA
    ensures forall i ::
              ((forall m :: m in Descendants(item) ==> !IsSoldOutText(m) && !IsAddToCart(m)) &&
               FirstAt(Descendants(item), IsStockBadge, i)) ==> Availability(item) == GetText(Descendants(item)[i])
  {
    FindSpec(item, IsSoldOutText);
    FindSpec(item, IsAddToCart);
    FindSpec(item, IsStockBadge);
  }

  /** Sold-out text anywhere in the item beats an add-to-cart button. */
  lemma SoldOutBeatsAddToCart(item: Node, text: Node, button: Node)
    requires text in Descendants(item) && IsSoldOutText(text)
    requires button in Descendants(item) && IsAddToCart(button)
    ensures Availability(item) == SoldOut
  {
    AvailabilityPriority(item);
  }

  /**
   * Every field the item gives no material for keeps "N/A" in the record; this
   * is not a reason to drop the record.
   */
  lemma UnresolvedFieldsStayNA(item: Node)
    requires ExtractProduct(item).Some?
    ensures (forall m :: m in Descendants(item) ==> !IsPriceSpan(m)) ==> ExtractProduct(item).value.precio == NA
    ensures (forall m :: m in Descendants(item) ==> !IsImg(m)) ==> ExtractProduct(item).value.imagen == NA
    ensures (forall m :: m in Descendants(item) ==> !IsLinkAnchor(m)) ==> ExtractProduct(item).value.enlace == NA
    ensures (forall m :: m in Descendants(item) ==> !IsH2(m) && !IsH3(m)) ==> ExtractProduct(item).value.nombre == NA
    ensures (forall m :: m in Descendants(item) ==> !IsSoldOutText(m) && !IsAddToCart(m) && !IsStockBadge(m))
            ==> ExtractProduct(item).value.disponibilidad == NA
  {
    NamePriority(item);
    AvailabilityPriority(item);
  }

  /** An item with no `h2`, no `h3` and no anchor with an `href` yields no record. */
  lemma NoNameNoLinkNoRecord(item: Node)
    requires forall m :: m in Descendants(item) ==> !IsH2(m) && !IsH3(m) && !IsLinkAnchor(m)
    ensures ExtractProduct(item) == None
  {
    NamePriority(item);
  }
}
