/** The product detail page (producto.js): looking the product up from the URL,
    the image gallery and its lightbox, the quantity stepper, related products,
    comments and the two ways the page adds to a cart. */
module ProductPage {
  import opened Wrappers
  import opened Text
  import opened Seqs
  import opened Catalog
  import Carousel
  import Cart

  // ---------------------------------------------------------------------
  // loadProductData: the product named by `?id=`

  /** Outcome of the lookup: no usable id in the URL (the page stays as it
      is), no product with that id ("Producto no encontrado"), or the product. */
  datatype PageLookup = NoId | NotFound | Found(product: Product)

  function IdOf(p: Product): int
  {
    p.id
  }

  /** Position of the first product whose `String(p.id)` is `id`, or -1. */
  function FirstWithIdString(catalog: seq<Product>, id: string): (i: int)
    ensures -1 <= i < |catalog|
    ensures i >= 0 ==> PrintsAs(catalog[i], id) && forall j :: 0 <= j < i ==> !PrintsAs(catalog[j], id)
    ensures i == -1 <==> forall j :: 0 <= j < |catalog| ==> !PrintsAs(catalog[j], id)
  {
    FindIndex(catalog, (p: Product) => PrintsAs(p, id))
  }


  /** `String(p.id) === id` */
  predicate PrintsAs(p: Product, id: string)
  {
    IntToString(p.id) == id
  }

  /** `getProductIdFromUrl` gives `urlId` (None when the parameter is absent);
      an empty id stops the page, otherwise the first product whose id prints
      as `urlId` is shown. */
  function FindByUrlId(catalog: seq<Product>, urlId: Option<string>): (r: PageLookup)
    ensures r.NoId? <==> urlId.None? || urlId.value == ""
    ensures r.NotFound? <==> urlId.Some? && urlId.value != ""
                             && forall j :: 0 <= j < |catalog| ==> IntToString(catalog[j].id) != urlId.value
    ensures r.Found? ==> exists i :: 0 <= i < |catalog| && catalog[i] == r.product
                                     && IntToString(r.product.id) == urlId.value
                                     && forall j :: 0 <= j < i ==> IntToString(catalog[j].id) != urlId.value
  {
    if urlId.None? || urlId.value == "" then NoId
    else
      var i := FirstWithIdString(catalog, urlId.value);
      if i == -1 then NotFound else Found(catalog[i])
  }

  /** In a catalog whose ids are distinct, the link built from a product's id
      opens that very product. */
  lemma ProductLinkFindsProduct(catalog: seq<Product>, k: nat)
    requires k < |catalog|
    requires DistinctBy(catalog, IdOf)
    ensures FindByUrlId(catalog, Some(IntToString(catalog[k].id))) == Found(catalog[k])
  {
    var u := IntToString(catalog[k].id);
    var i := FirstWithIdString(catalog, u);
    assert PrintsAs(catalog[k], u);
    assert 0 <= i && PrintsAs(catalog[i], u);
    IntToStringInjective(catalog[i].id, catalog[k].id);
    assert IdOf(catalog[i]) == IdOf(catalog[k]);
    assert i == k;
  }

  /** `String(p.id)` never has a leading zero, so a padded id such as "01"
      finds nothing. */
  lemma PaddedIdFindsNothing(catalog: seq<Product>, u: string)
    requires |u| >= 2 && u[0] == '0'
    ensures FindByUrlId(catalog, Some(u)) == NotFound
  {
    forall j | 0 <= j < |catalog|
      ensures IntToString(catalog[j].id) != u
    {
      var s := IntToString(catalog[j].id);
      if catalog[j].id >= 0 {
        assert s == NatToString(catalog[j].id);
      }
    }
  }

  // ---------------------------------------------------------------------
  // Gallery: renderProduct and mostrarVariante

  /** `images.length ? images : (image ? [image] : [])` */
  function GalleryImages(p: Product): (r: seq<string>)
    ensures HasImages(p) ==> r == p.images.value
    ensures !HasImages(p) && p.image != "" ==> r == [p.image]
    ensures !HasImages(p) && p.image == "" ==> r == []
  {
    if HasImages(p) then p.images.value
    else if p.image != "" then [p.image]
    else []
  }

  /** A variant's gallery: its own images first, then the product's chain. */
  function VariantGalleryImages(p: Product, v: Variant): (r: seq<string>)
    ensures |v.images| > 0 ==> r == v.images
    ensures |v.images| == 0 ==> r == GalleryImages(p)
  {
    if |v.images| > 0 then v.images else GalleryImages(p)
  }

  /** The gallery is empty (no main image, no thumbnails) exactly when the
      product has neither images nor an image, and every picture it shows
      is one of the product's. */
  lemma GalleryEmptyIff(p: Product)
    ensures GalleryImages(p) == [] <==> !HasImages(p) && p.image == ""
    ensures forall k :: 0 <= k < |GalleryImages(p)| ==>
              GalleryImages(p)[k] == p.image || (p.images.Some? && GalleryImages(p)[k] in p.images.value)
  {
  }

  /** A variant's gallery is empty exactly when the variant has no images and
      the product's gallery is empty too. */
  lemma VariantGalleryEmptyIff(p: Product, v: Variant)
    ensures VariantGalleryImages(p, v) == [] <==> |v.images| == 0 && !HasImages(p) && p.image == ""
  {
    GalleryEmptyIff(p);
  }

  /** The picture of a related-product card, `(images && images[0]) || image || ''`. */
  function CardImage(p: Product): (r: string)
    ensures p.images.Some? && |p.images.value| > 0 && p.images.value[0] != "" ==> r == p.images.value[0]
    ensures !(p.images.Some? && |p.images.value| > 0 && p.images.value[0] != "") ==> r == p.image
  {
    if p.images.Some? && |p.images.value| > 0 && p.images.value[0] != "" then p.images.value[0]
    else p.image
  }

  /** The card shows the first picture of the product's gallery, when that
      picture is not blank. */
  lemma CardShowsFirstGalleryPicture(p: Product)
    requires |GalleryImages(p)| > 0 && GalleryImages(p)[0] != ""
    ensures CardImage(p) == GalleryImages(p)[0]
  {
  }

  // ---------------------------------------------------------------------
  // Lightbox: navigateLightbox

  /** `idx = (idx + dir + imgs.length) % imgs.length`; None is the NaN of an
      empty image list. */
  function NavigateLightbox(index: int, dir: int, n: nat): (r: Option<int>)
    ensures r.None? <==> n == 0
  {
    Carousel.JsRem(index + dir + n, n)
  }

  /** One step from a shown picture lands on a shown picture: the neighbour in
      the given direction, wrapping from the last to the first and back. */
  lemma LightboxStepWraps(index: int, dir: int, n: nat)
    requires 0 <= index < n
    requires dir == 1 || dir == -1
    ensures NavigateLightbox(index, dir, n).Some?
    ensures 0 <= NavigateLightbox(index, dir, n).value < n
    ensures NavigateLightbox(index, dir, n).value == (index + dir) % n
    ensures dir == 1 && index < n - 1 ==> NavigateLightbox(index, dir, n).value == index + 1
    ensures dir == 1 && index == n - 1 ==> NavigateLightbox(index, dir, n).value == 0
    ensures dir == -1 && index > 0 ==> NavigateLightbox(index, dir, n).value == index - 1
    ensures dir == -1 && index == 0 ==> NavigateLightbox(index, dir, n).value == n - 1
  {
    assert NavigateLightbox(index, dir, n) == Carousel.Go(index + dir, n);
    Carousel.GoWraps(index + dir, n);
  }

  /** Next then previous, or previous then next, shows the same picture again. */
  lemma LightboxNextPrevRestores(index: int, n: nat)
    requires 0 <= index < n
    ensures NavigateLightbox(NavigateLightbox(index, 1, n).value, -1, n) == Some(index)
    ensures NavigateLightbox(NavigateLightbox(index, -1, n).value, 1, n) == Some(index)
  {
    LightboxStepWraps(index, 1, n);
    LightboxStepWraps(NavigateLightbox(index, 1, n).value, -1, n);
    LightboxStepWraps(index, -1, n);
    LightboxStepWraps(NavigateLightbox(index, -1, n).value, 1, n);
  }

  // ---------------------------------------------------------------------
  // Quantity stepper in setupAddToCart

  datatype StepperClick = More | Less

  /** `let qty = 1` */
  const InitialQuantity: int := 1

  /** `qty++`, or `if (qty > 1) qty--` */
  function Step(qty: int, click: StepperClick): (r: int)
    ensures qty >= 1 ==> r >= 1
    ensures r == qty + 1 || r == qty - 1 || r == qty
  {
    match click
    case More => qty + 1
    case Less => if qty > 1 then qty - 1 else qty
  }

  /** The quantity after a series of clicks. */
  function Run(qty: int, clicks: seq<StepperClick>): int
    decreases |clicks|
  {
    if |clicks| == 0 then qty else Run(Step(qty, clicks[0]), clicks[1..])
  }

  /** Whatever the clicks, the quantity shown stays at least 1, and it grows
      by at most one per click. */
  lemma {:induction false} StepperStaysPositive(qty: int, clicks: seq<StepperClick>)
    requires qty >= 1
    ensures 1 <= Run(qty, clicks) <= qty + |clicks|
    decreases |clicks|
  {
    if |clicks| > 0 {
      StepperStaysPositive(Step(qty, clicks[0]), clicks[1..]);
    }
  }

  /** A decrease undoes an increase; at 1 a decrease does nothing. */
  lemma StepperLessUndoesMore(qty: int)
    requires qty >= 1
    ensures Step(Step(qty, More), Less) == qty
    ensures Step(1, Less) == 1
  {
  }

  // ---------------------------------------------------------------------
  // Related products: renderRelated

  const RelatedLimit: nat := 4

  function SameCategoryOther(p: Product): Product -> bool
  {
    (q: Product) => q.id != p.id && q.category == p.category
  }

  /** `list.filter(p => p.id !== producto.id && p.category === producto.category).slice(0, 4)` */
  function RelatedProducts(catalog: seq<Product>, p: Product): (r: seq<Product>)
    ensures |r| <= RelatedLimit
    ensures Subseq(r, catalog)
    ensures forall k :: 0 <= k < |r| ==> r[k].id != p.id && r[k].category == p.category
    ensures |r| < RelatedLimit ==>
              forall k :: 0 <= k < |catalog| && catalog[k].id != p.id && catalog[k].category == p.category
                ==> catalog[k] in r
    // the first four of the matches, in catalog order
    ensures var all := Filter(catalog, SameCategoryOther(p));
            && |r| == (if |all| < RelatedLimit then |all| else RelatedLimit)
            && r == all[..|r|]
  {
    var all := Filter(catalog, SameCategoryOther(p));
    var r := Take(all, RelatedLimit);
    SubseqPrefix(all, catalog, |r|);
    r
  }

  // ---------------------------------------------------------------------
  // Comments: loadComentarios

  /** One stored comment: `{ name, text, date }`. */
  datatype Comment = Comment(name: string, text: string, date: int)

  const CustomerName: string := "Cliente"

  /** The send button: a blank text is refused and the list kept; otherwise
      the trimmed text, signed "Cliente" and dated `now`, becomes the first
      comment. */
  function SubmitComment(list: seq<Comment>, input: string, now: int): (r: seq<Comment>)
    ensures AllSpace(input) ==> r == list
    ensures !AllSpace(input) ==> |r| == |list| + 1 && r[1..] == list
                                 && r[0] == Comment(CustomerName, Trim(input), now)
  {
    TrimEmptyIffAllSpace(input);
    if Trim(input) == "" then list else [Comment(CustomerName, Trim(input), now)] + list
  }

  /** The list changes exactly when the text is not blank, and a stored text
      is never blank and carries no surrounding white space. */
  lemma CommentAcceptedIff(list: seq<Comment>, input: string, now: int)
    ensures SubmitComment(list, input, now) != list <==> !AllSpace(input)
    ensures !AllSpace(input) ==>
              var t := SubmitComment(list, input, now)[0].text;
              t != "" && !IsJsSpace(t[0]) && !IsJsSpace(t[|t| - 1])
  {
    TrimEmptyIffAllSpace(input);
    var r := SubmitComment(list, input, now);
    if !AllSpace(input) {
      assert |r| != |list|;
      assert r[0].text == Trim(input) != "";
    }
  }

  // ---------------------------------------------------------------------
  // Adding to a cart from the page

  /** The record the page writes when no ShoppingCart is loaded:
      `{ id, qty, name, price, variantId }`. */
  datatype StoredEntry = StoredEntry(id: int, qty: int, name: string, price: Option<int>, variantId: Option<string>)

  /** `cart.push({...}); localStorage.setItem('cart', ...)` */
  function FallbackAdd(stored: seq<StoredEntry>, p: Product, qty: int, variantId: Option<string>): (r: seq<StoredEntry>)
    ensures |r| == |stored| + 1 && r[..|stored|] == stored
    ensures r[|stored|].id == p.id && r[|stored|].qty == qty
  {
    stored + [StoredEntry(p.id, qty, p.name, p.price, variantId)]
  }

  function EntryOf(id: int): StoredEntry -> bool
  {
    (e: StoredEntry) => e.id == id
  }

  /** The fallback never merges: every add leaves one more record of that
      product, even when one is already stored. */
  lemma FallbackNeverMerges(stored: seq<StoredEntry>, p: Product, qty: int, variantId: Option<string>)
    ensures |Filter(FallbackAdd(stored, p, qty, variantId), EntryOf(p.id))| == |Filter(stored, EntryOf(p.id))| + 1
  {
    FilterAppend(stored, StoredEntry(p.id, qty, p.name, p.price, variantId), EntryOf(p.id));
  }

  /** The test `window.shoppingCart` of the button handler. script.js
      declares `shoppingCart` with a top-level `let` (line 1313), which never
      becomes a property of `window`, and no file assigns one, so as the code
      stands the test fails. */
  const CartOnWindow: bool := false

  /** Where a press of "Agregar al carrito" lands: ShoppingCart in memory, or
      the raw record list stored under `'cart'`. */
  datatype ButtonResult = ViaShoppingCart(cart: Cart.CartState) | ViaStorage(stored: seq<StoredEntry>)

  /** The button handler: through ShoppingCart when `window.shoppingCart` is
      set, otherwise the fallback record. */
  function PressAddButton(cartOnWindow: bool, catalog: seq<Product>, s: Cart.CartState,
                          stored: seq<StoredEntry>, p: Product, variantId: Option<string>,
                          qty: int): (r: ButtonResult)
    ensures r.ViaShoppingCart? <==> cartOnWindow
    ensures r.ViaShoppingCart? ==> r.cart == Cart.AddToCart(catalog, s, p.id, variantId)
    ensures r.ViaStorage? ==> |r.stored| == |stored| + 1 && r.stored[..|stored|] == stored
                              && r.stored[|stored|].id == p.id && r.stored[|stored|].qty == qty
  {
    if cartOnWindow then ViaShoppingCart(AddFromPageAsWritten(catalog, s, p, variantId, qty))
    else ViaStorage(FallbackAdd(stored, p, qty, variantId))
  }

  /** As the code stands the button never reaches ShoppingCart: two presses
      for one product leave two separate stored records, each with the chosen
      quantity, where ShoppingCart keeps one line per product and variant. */
  lemma AddButtonBypassesCart(catalog: seq<Product>, s: Cart.CartState, stored: seq<StoredEntry>,
                              p: Product, variantId: Option<string>, qty: int)
    ensures var first := PressAddButton(CartOnWindow, catalog, s, stored, p, variantId, qty);
            && first.ViaStorage?
            && var second := PressAddButton(CartOnWindow, catalog, s, first.stored, p, variantId, qty);
               && second.ViaStorage?
               && |second.stored| == |stored| + 2
               && |Filter(second.stored, EntryOf(p.id))| == |Filter(stored, EntryOf(p.id))| + 2
               && second.stored[|stored|].qty == qty && second.stored[|stored| + 1].qty == qty
  {
    var once := FallbackAdd(stored, p, qty, variantId);
    FallbackNeverMerges(stored, p, qty, variantId);
    FallbackNeverMerges(once, p, qty, variantId);
    assert FallbackAdd(once, p, qty, variantId)[|stored|] == once[|stored|];
  }

  /** `shoppingCart.addToCart(producto.id, selectedVariantId, qty)`, the
      branch taken only when `window.shoppingCart` is set: ShoppingCart's
      `addToCart` takes two parameters, so `qty` is dropped. */
  function AddFromPageAsWritten(catalog: seq<Product>, s: Cart.CartState, p: Product,
                                variantId: Option<string>, qty: int): (r: Cart.CartState)
    ensures r == Cart.AddToCart(catalog, s, p.id, variantId)
  {
    Cart.AddToCart(catalog, s, p.id, variantId)
  }

  /** Whatever quantity the stepper shows, the button adds a single unit. */
  lemma AddFromPageIgnoresQuantity(catalog: seq<Product>, s: Cart.CartState, p: Product,
                                   variantId: Option<string>, qty: int)
    requires Cart.FindProduct(catalog, p.id).Some?
    ensures Cart.Count(AddFromPageAsWritten(catalog, s, p, variantId, qty).items) == Cart.Count(s.items) + 1
  {
    Cart.AddCountsOne(catalog, s, p.id, variantId);
  }

  /** `f` applied `n` times. */
  function Repeat<S>(f: S -> S, s: S, n: nat): S
    decreases n
  {
    if n == 0 then s else Repeat(f, f(s), n - 1)
  }

  /** A step that raises a measure by one raises it by `n` in `n` steps. */
  lemma {:induction false} RepeatAddsUp<S>(f: S -> S, measure: S -> int, s: S, n: nat)
    requires forall x :: measure(f(x)) == measure(x) + 1
    ensures measure(Repeat(f, s, n)) == measure(s) + n
    decreases n
  {
    if n > 0 {
      RepeatAddsUp(f, measure, f(s), n - 1);
    }
  }

  /** A property every step keeps holds after any number of steps. */
  lemma {:induction false} RepeatKeeps<S>(f: S -> S, inv: S -> bool, s: S, n: nat)
    requires forall x :: inv(x) ==> inv(f(x))
    requires inv(s)
    ensures inv(Repeat(f, s, n))
    decreases n
  {
    if n > 0 {
      RepeatKeeps(f, inv, f(s), n - 1);
    }
  }

  /** One press of ShoppingCart's `addToCart` for a fixed product and variant. */
  function AddStep(catalog: seq<Product>, productId: int, variantId: Option<string>): Cart.CartState -> Cart.CartState
  {
    (x: Cart.CartState) => Cart.AddToCart(catalog, x, productId, variantId)
  }

  /** The page's button with the quantity honoured: `addToCart` pressed `qty` times. */
  function AddFromPage(catalog: seq<Product>, s: Cart.CartState, p: Product,
                       variantId: Option<string>, qty: nat): (r: Cart.CartState)
    ensures qty == 0 ==> r == s
    ensures qty == 1 ==> r == AddFromPageAsWritten(catalog, s, p, variantId, qty)
  {
    Repeat(AddStep(catalog, p.id, variantId), s, qty)
  }

  /** The corrected button raises the badge count by exactly the chosen
      quantity and keeps the cart well-formed. */
  lemma AddFromPageCountsQuantity(catalog: seq<Product>, s: Cart.CartState, p: Product,
                                  variantId: Option<string>, qty: nat)
    requires Cart.FindProduct(catalog, p.id).Some?
    requires Cart.WellFormed(s.items)
    ensures Cart.Count(AddFromPage(catalog, s, p, variantId, qty).items) == Cart.Count(s.items) + qty
    ensures Cart.WellFormed(AddFromPage(catalog, s, p, variantId, qty).items)
  {
    var f := AddStep(catalog, p.id, variantId);
    forall x: Cart.CartState
      ensures Cart.Count(f(x).items) == Cart.Count(x.items) + 1
    {
      Cart.AddCountsOne(catalog, x, p.id, variantId);
    }
    RepeatAddsUp(f, (x: Cart.CartState) => Cart.Count(x.items), s, qty);
    forall x: Cart.CartState | Cart.WellFormed(x.items)
      ensures Cart.WellFormed(f(x).items)
    {
      Cart.AddKeepsWellFormed(catalog, x, p.id, variantId);
    }
    RepeatKeeps(f, (x: Cart.CartState) => Cart.WellFormed(x.items), s, qty);
  }
}
