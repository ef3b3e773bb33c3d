/** The storefront cart (ShoppingCart in script.js): lines keyed by product
    and variant, quantity updates located by product id, and the persisted
    snapshot that a page reload reads back. */
module Cart {
  import opened Wrappers
  import opened Text
  import opened Seqs
  import opened Catalog
  import opened Shipping

  /** One cart line as `addToCart` builds it. */
  datatype LineItem = LineItem(
    key: string,
    id: int,
    variantId: Option<string>,
    variantName: Option<string>,
    name: string,
    price: int,
    originalPrice: int,
    images: seq<string>,
    quantity: int)

  /** The in-memory lines and the snapshot last written to storage by `saveCart`. */
  datatype CartState = CartState(items: seq<LineItem>, saved: seq<LineItem>)

  /** The constructor: `JSON.parse(localStorage.getItem('cart')) || []`. */
  function Load(s: CartState): (r: CartState)
    ensures r.items == s.saved && r.saved == s.saved
  {
    CartState(s.saved, s.saved)
  }

  /** `saveCart` */
  function Save(items: seq<LineItem>): (r: CartState)
    ensures r.items == items && r.saved == items
  {
    CartState(items, items)
  }

  // ---------------------------------------------------------------------
  // Keys

  /** The composite key: `"id::variantId"` for a resolved variant, `"id"` otherwise. */
  function Key(id: int, variantId: Option<string>): (k: string)
    ensures StartsWith(k, IntToString(id))
  {
    IntToString(id) + (if variantId.Some? then "::" + variantId.value else "")
  }

  /** The key is unambiguous: distinct (product, variant) pairs get distinct
      keys, because a printed integer never contains ':'. */
  lemma KeyInjective(a: int, va: Option<string>, b: int, vb: Option<string>)
    requires Key(a, va) == Key(b, vb)
    ensures a == b && va == vb
  {
    var k := Key(a, va);
    var sa := IntToString(a);
    var sb := IntToString(b);
    ColonIndexAfter(sa, k[|sa|..]);
    ColonIndexAfter(sb, k[|sb|..]);
    assert sa == k[..|sa|] == sb;
    IntToStringInjective(a, b);
    var ta := k[|sa|..];
    assert ta == (if va.Some? then "::" + va.value else "");
    assert ta == (if vb.Some? then "::" + vb.value else "");
    if va.Some? && vb.Some? {
      assert va.value == ta[2..] == vb.value;
    }
  }

  /** Position of the first ':' in `k`, or its length. */
  function ColonIndex(k: string): (n: nat)
    ensures n <= |k|
    decreases |k|
  {
    if |k| == 0 || k[0] == ':' then 0 else 1 + ColonIndex(k[1..])
  }

  lemma {:induction false} ColonIndexAfter(a: string, b: string)
    requires ':' !in a
    requires |b| == 0 || b[0] == ':'
    ensures ColonIndex(a + b) == |a|
    decreases |a|
  {
    if |a| > 0 {
      assert (a + b)[1..] == a[1..] + b;
      assert a[0] in a;
      ColonIndexAfter(a[1..], b);
    } else {
      assert a + b == b;
    }
  }

  /** Lines of different products never share a key. */
  lemma KeysOfDifferentProducts(a: int, va: Option<string>, b: int, vb: Option<string>)
    requires a != b
    ensures Key(a, va) != Key(b, vb)
  {
    if Key(a, va) == Key(b, vb) {
      KeyInjective(a, va, b, vb);
    }
  }

  // ---------------------------------------------------------------------
  // Well-formed carts

  /** What `addToCart` maintains: every line carries the key of its product
      and variant and a positive quantity, and no key appears twice. */
  ghost predicate WellFormed(items: seq<LineItem>)
  {
    && (forall i :: 0 <= i < |items| ==> LineConsistent(items[i]))
    && DistinctBy(items, KeyOf)
  }

  ghost predicate LineConsistent(l: LineItem)
  {
    l.key == Key(l.id, l.variantId) && l.quantity >= 1
  }

  function KeyOf(l: LineItem): string
  {
    l.key
  }

  /** In a well-formed cart each (product, variant) pair has at most one line. */
  lemma OneLinePerVariant(items: seq<LineItem>, i: nat, j: nat)
    requires WellFormed(items)
    requires i < j < |items|
    ensures items[i].id != items[j].id || items[i].variantId != items[j].variantId
  {
  }

  // ---------------------------------------------------------------------
  // Sums

  function LineTotal(l: LineItem): int
  {
    l.price * l.quantity
  }

  function LineQuantity(l: LineItem): int
  {
    l.quantity
  }

  /** `items.reduce((sum, item) => sum + item.price * item.quantity, 0)` */
  function Subtotal(items: seq<LineItem>): int
  {
    SumOf(items, LineTotal)
  }

  /** `items.reduce((sum, item) => sum + item.quantity, 0)`, the badge count. */
  function Count(items: seq<LineItem>): int
  {
    SumOf(items, LineQuantity)
  }

  /** A well-formed cart counts at least one unit per line; in particular the
      badge shows 0 exactly when the cart is empty. */
  lemma {:induction false} CountAtLeastLines(items: seq<LineItem>)
    requires WellFormed(items)
    ensures Count(items) >= |items|
    ensures Count(items) == 0 <==> items == []
    decreases |items|
  {
    if |items| > 0 {
      var init := items[..|items| - 1];
      assert WellFormed(init) by {
        assert forall i :: 0 <= i < |init| ==> init[i] == items[i];
      }
      CountAtLeastLines(init);
    }
  }

  // ---------------------------------------------------------------------
  // addToCart

  /** `productManager.products.find(p => p.id === productId)` */
  function FindProduct(catalog: seq<Product>, id: int): (r: Option<Product>)
    ensures r.None? <==> forall i :: 0 <= i < |catalog| ==> catalog[i].id != id
    ensures r.Some? ==> r.value in catalog && r.value.id == id
    ensures r.Some? ==> exists i :: 0 <= i < |catalog| && catalog[i] == r.value
                                    && forall j :: 0 <= j < i ==> catalog[j].id != id
    decreases |catalog|
  {
    if |catalog| == 0 then None
    else if catalog[0].id == id then Some(catalog[0])
    else
      assert forall i :: 1 <= i < |catalog| ==> catalog[i] == catalog[1..][i - 1];
      var r := FindProduct(catalog[1..], id);
      if r.Some? then
        var i :| 0 <= i < |catalog| - 1 && catalog[1..][i] == r.value
                 && forall j :: 0 <= j < i ==> catalog[1..][j].id != id;
        assert catalog[i + 1] == r.value;
        r
      else r
  }

  /** `variants.find(v => v.id === variantId)` */
  function FindVariant(vs: seq<Variant>, id: string): (r: Option<Variant>)
    ensures r.None? <==> forall j :: 0 <= j < |vs| ==> vs[j].id != id
    ensures r.Some? ==> r.value in vs && r.value.id == id
    ensures r.Some? ==> exists i :: 0 <= i < |vs| && vs[i] == r.value
                                    && forall j :: 0 <= j < i ==> vs[j].id != id
    decreases |vs|
  {
    if |vs| == 0 then None
    else if vs[0].id == id then Some(vs[0])
    else
      assert forall j :: 1 <= j < |vs| ==> vs[j] == vs[1..][j - 1];
      var r := FindVariant(vs[1..], id);
      if r.Some? then
        var i :| 0 <= i < |vs| - 1 && vs[1..][i] == r.value
                 && forall j :: 0 <= j < i ==> vs[1..][j].id != id;
        assert vs[i + 1] == r.value;
        r
      else r
  }

  /** The variant `addToCart` resolves: only for a non-empty variant id, on a
      product that has a variant list holding that id. */
  function ResolveVariant(p: Product, variantId: Option<string>): (r: Option<Variant>)
    ensures r.Some? <==> variantId.Some? && variantId.value != "" && p.variants.Some?
                         && exists j :: 0 <= j < |p.variants.value| && p.variants.value[j].id == variantId.value
    ensures r.Some? ==> r.value in p.variants.value && r.value.id == variantId.value
  {
    if variantId.Some? && variantId.value != "" && p.variants.Some? then
      FindVariant(p.variants.value, variantId.value)
    else
      None
  }

  /** The variant id recorded on the line: that of the resolved variant, or null. */
  function ResolvedId(v: Option<Variant>): Option<string>
  {
    if v.Some? then Some(v.value.id) else None
  }

  /** `product.originalPrice || product.price || 0` */
  function OriginalOrPrice(p: Product): int
  {
    if p.originalPrice.Some? && p.originalPrice.value != 0 then p.originalPrice.value
    else PriceOrZero(p)
  }

  /** The new line `addToCart` appends for a product and its resolved variant. */
  function NewLine(p: Product, v: Option<Variant>): (l: LineItem)
    ensures l.key == Key(p.id, ResolvedId(v)) && l.id == p.id && l.quantity == 1
    ensures l.name == p.name
    ensures v.Some? && v.value.price != 0 ==> l.price == v.value.price
    ensures v.None? || v.value.price == 0 ==> l.price == PriceOrZero(p)
    ensures v.Some? && |v.value.images| > 0 ==> l.images == v.value.images
    ensures v.None? || |v.value.images| == 0 ==> l.images == p.images.GetOr([p.image])
  {
    LineItem(
      Key(p.id, ResolvedId(v)),
      p.id,
      ResolvedId(v),
      if v.Some? then Some(v.value.name) else None,
      p.name,
      if v.Some? && v.value.price != 0 then v.value.price else PriceOrZero(p),
      OriginalOrPrice(p),
      if v.Some? && |v.value.images| > 0 then v.value.images else p.images.GetOr([p.image]),
      1)
  }

  /** Position of the first line with the given key, or -1. */
  function FindKey(items: seq<LineItem>, key: string): (i: int)
    ensures -1 <= i < |items|
    ensures i >= 0 ==> items[i].key == key && forall j :: 0 <= j < i ==> items[j].key != key
    ensures i == -1 <==> forall j :: 0 <= j < |items| ==> items[j].key != key
  {
    FindIndex(items, (l: LineItem) => l.key == key)
  }


  /** `addToCart(productId, variantId)`. */
  function AddToCart(catalog: seq<Product>, s: CartState, productId: int, variantId: Option<string>): (r: CartState)
    ensures FindProduct(catalog, productId).None? ==> r == s
    ensures FindProduct(catalog, productId).Some? ==> r.saved == r.items
  {
    match FindProduct(catalog, productId)
    case None => s
    case Some(p) =>
      var v := ResolveVariant(p, variantId);
      var key := Key(productId, ResolvedId(v));
      var i := FindKey(s.items, key);
      if i >= 0 then
        Save(s.items[i := s.items[i].(quantity := s.items[i].quantity + 1)])
      else
        Save(s.items + [NewLine(p, v)])
  }

  /** The key `addToCart` files a product under. */
  function AddedKey(catalog: seq<Product>, productId: int, variantId: Option<string>): string
    requires FindProduct(catalog, productId).Some?
  {
    Key(productId, ResolvedId(ResolveVariant(FindProduct(catalog, productId).value, variantId)))
  }

  /** Adding a product of the catalog whose key already has a line: that
      line gains exactly one unit, and nothing else changes. */
  lemma AddToExistingLine(catalog: seq<Product>, s: CartState, productId: int, variantId: Option<string>)
    requires FindProduct(catalog, productId).Some?
    requires FindKey(s.items, AddedKey(catalog, productId, variantId)) >= 0
    ensures var r := AddToCart(catalog, s, productId, variantId);
            var i := FindKey(s.items, AddedKey(catalog, productId, variantId));
            && r.items == s.items[i := s.items[i].(quantity := s.items[i].quantity + 1)]
            && r.saved == r.items
  {
    var p := FindProduct(catalog, productId).value;
    var key := Key(productId, ResolvedId(ResolveVariant(p, variantId)));
    assert AddedKey(catalog, productId, variantId) == key;
  }

  /** Adding a product of the catalog whose key has no line: exactly one new
      line is appended, with quantity 1, the product's id and that key; the
      key is `"id::variant"` only for a variant that resolves. */
  lemma AddAppendsLine(catalog: seq<Product>, s: CartState, productId: int, variantId: Option<string>)
    requires FindProduct(catalog, productId).Some?
    requires FindKey(s.items, AddedKey(catalog, productId, variantId)) == -1
    ensures var r := AddToCart(catalog, s, productId, variantId);
            var p := FindProduct(catalog, productId).value;
            var v := ResolveVariant(p, variantId);
            && r.items == s.items + [NewLine(p, v)]
            && NewLine(p, v).key == AddedKey(catalog, productId, variantId)
            && NewLine(p, v).id == productId && NewLine(p, v).quantity == 1
            && r.saved == r.items
  {
  }

  /** A variant id that is given but not found files the product under its
      plain id, like no variant at all. */
  lemma UnknownVariantUsesPlainKey(catalog: seq<Product>, productId: int, variantId: string)
    requires FindProduct(catalog, productId).Some?
    requires var p := FindProduct(catalog, productId).value;
             p.variants.None? || forall j :: 0 <= j < |p.variants.value| ==> p.variants.value[j].id != variantId
    ensures AddedKey(catalog, productId, Some(variantId)) == IntToString(productId)
    ensures AddedKey(catalog, productId, Some(variantId)) == AddedKey(catalog, productId, None)
  {
  }

  /** A variant whose price is 0 (or missing) is charged at the product's price. */
  lemma ZeroVariantPriceFallsBack(p: Product, v: Variant)
    requires v.price == 0
    ensures NewLine(p, Some(v)).price == PriceOrZero(p)
    ensures NewLine(p, Some(v)).key == IntToString(p.id) + "::" + v.id
  {
  }

  lemma WellFormedBump(items: seq<LineItem>, i: nat, q: int)
    requires WellFormed(items) && i < |items| && q >= 1
    ensures WellFormed(items[i := items[i].(quantity := q)])
  {
    var r := items[i := items[i].(quantity := q)];
    assert forall j :: 0 <= j < |r| ==>
      (r[j].key == items[j].key && r[j].id == items[j].id && r[j].variantId == items[j].variantId);
  }

  lemma WellFormedAppend(items: seq<LineItem>, l: LineItem)
    requires WellFormed(items)
    requires l.key == Key(l.id, l.variantId) && l.quantity >= 1
    requires forall j :: 0 <= j < |items| ==> items[j].key != l.key
    ensures WellFormed(items + [l])
  {
    var r := items + [l];
    forall i | 0 <= i < |r|
      ensures LineConsistent(r[i])
    {
      if i < |items| {
        assert r[i] == items[i];
      }
    }
    forall a, b | 0 <= a < b < |r|
      ensures KeyOf(r[a]) != KeyOf(r[b])
    {
      assert r[a] == items[a];
      if b < |items| {
        assert r[b] == items[b];
      }
    }
    assert DistinctBy(r, KeyOf);
  }

  /** `addToCart` keeps a cart well-formed. */
  lemma AddKeepsWellFormed(catalog: seq<Product>, s: CartState, productId: int, variantId: Option<string>)
    requires WellFormed(s.items)
    ensures WellFormed(AddToCart(catalog, s, productId, variantId).items)
  {
    if FindProduct(catalog, productId).Some? {
      var i := FindKey(s.items, AddedKey(catalog, productId, variantId));
      if i >= 0 {
        AddToExistingLine(catalog, s, productId, variantId);
        WellFormedBump(s.items, i, s.items[i].quantity + 1);
      } else {
        AddAppendsLine(catalog, s, productId, variantId);
        var p := FindProduct(catalog, productId).value;
        WellFormedAppend(s.items, NewLine(p, ResolveVariant(p, variantId)));
      }
    }
  }

  /** Adding a catalog product raises the badge count by exactly one and the
      subtotal by the price of the line it lands on. */
  lemma AddCountsOne(catalog: seq<Product>, s: CartState, productId: int, variantId: Option<string>)
    requires FindProduct(catalog, productId).Some?
    ensures var r := AddToCart(catalog, s, productId, variantId);
            var i := FindKey(r.items, AddedKey(catalog, productId, variantId));
            && 0 <= i
            && Count(r.items) == Count(s.items) + 1
            && Subtotal(r.items) == Subtotal(s.items) + r.items[i].price
  {
    var key := AddedKey(catalog, productId, variantId);
    AddShape(catalog, s, productId, variantId);
    SumsAfterAdd(s.items, key, AddToCart(catalog, s, productId, variantId).items);
  }

  /** What one add does to the lines, in terms of the key alone: the line with
      that key gains one unit, or a line with that key and quantity 1 is appended. */
  ghost predicate AddedOne(items: seq<LineItem>, key: string, r: seq<LineItem>)
  {
    var i := FindKey(items, key);
    || (i >= 0 && r == items[i := items[i].(quantity := items[i].quantity + 1)])
    || (i == -1 && |r| == |items| + 1 && r[..|items|] == items
        && r[|items|].key == key && r[|items|].quantity == 1)
  }

  lemma AddShape(catalog: seq<Product>, s: CartState, productId: int, variantId: Option<string>)
    requires FindProduct(catalog, productId).Some?
    ensures AddedOne(s.items, AddedKey(catalog, productId, variantId), AddToCart(catalog, s, productId, variantId).items)
  {
    var key := AddedKey(catalog, productId, variantId);
    if FindKey(s.items, key) >= 0 {
      AddToExistingLine(catalog, s, productId, variantId);
    } else {
      AddAppendsLine(catalog, s, productId, variantId);
      var r := AddToCart(catalog, s, productId, variantId).items;
      assert r[..|s.items|] == s.items;
    }
  }

  lemma SumsAfterAdd(items: seq<LineItem>, key: string, r: seq<LineItem>)
    requires AddedOne(items, key, r)
    ensures var i := FindKey(r, key);
            && 0 <= i
            && Count(r) == Count(items) + 1
            && Subtotal(r) == Subtotal(items) + r[i].price
  {
    if FindKey(items, key) >= 0 {
      BumpSums(items, key);
    } else {
      var l := r[|items|];
      assert r == items + [l];
      AppendSums(items, l);
    }
  }

  lemma BumpSums(items: seq<LineItem>, key: string)
    requires FindKey(items, key) >= 0
    ensures var i := FindKey(items, key);
            var r := items[i := items[i].(quantity := items[i].quantity + 1)];
            && FindKey(r, key) == i
            && Count(r) == Count(items) + 1
            && Subtotal(r) == Subtotal(items) + r[i].price
  {
    var i := FindKey(items, key);
    BumpKeepsFindKey(items, key, i, items[i].quantity + 1);
    BumpLineSums(items, i);
  }

  lemma BumpKeepsFindKey(items: seq<LineItem>, key: string, i: nat, q: int)
    requires i < |items| && FindKey(items, key) == i
    ensures FindKey(items[i := items[i].(quantity := q)], key) == i
  {
    var r := items[i := items[i].(quantity := q)];
    assert r[i].key == key;
    assert forall j :: 0 <= j < i ==> r[j] == items[j];
  }

  lemma BumpLineSums(items: seq<LineItem>, i: nat)
    requires i < |items|
    ensures var r := items[i := items[i].(quantity := items[i].quantity + 1)];
            && Count(r) == Count(items) + 1
            && Subtotal(r) == Subtotal(items) + items[i].price
  {
    var l := items[i].(quantity := items[i].quantity + 1);
    SumOfUpdate(items, i, l, LineQuantity);
    SumOfUpdate(items, i, l, LineTotal);
    MulSucc(l.price, items[i].quantity);
    assert LineTotal(l) == l.price * (items[i].quantity + 1);
    assert LineTotal(items[i]) == l.price * items[i].quantity;
  }

  lemma MulSucc(p: int, q: int)
    ensures p * (q + 1) == p * q + p
  {
  }

  lemma AppendSums(items: seq<LineItem>, l: LineItem)
    requires FindKey(items, l.key) == -1
    ensures var r := items + [l];
            && FindKey(r, l.key) == |items|
            && Count(r) == Count(items) + l.quantity
            && Subtotal(r) == Subtotal(items) + l.price * l.quantity
  {
    var r := items + [l];
    SumOfAppend(items, l, LineQuantity);
    SumOfAppend(items, l, LineTotal);
    assert forall j :: 0 <= j < |items| ==> r[j] == items[j];
  }

  // ---------------------------------------------------------------------
  // updateQuantity, removeFromCart, clearCart, proceedToCheckout

  datatype Action = Increase | Decrease | OtherAction

  /** Position of the first line of a product, or -1. */
  function FindId(items: seq<LineItem>, id: int): (i: int)
    ensures -1 <= i < |items|
    ensures i >= 0 ==> HasId(id, items[i]) && forall j :: 0 <= j < i ==> !HasId(id, items[j])
    ensures i == -1 <==> forall j :: 0 <= j < |items| ==> !HasId(id, items[j])
  {
    FindIndex(items, (l: LineItem) => HasId(id, l))
  }



  predicate HasId(id: int, l: LineItem)
  {
    l.id == id
  }

  /** `removeFromCart(productId)`: drops every line of the product. It does
      not save. */
  function RemoveFromCart(s: CartState, productId: int): (r: CartState)
    ensures r.saved == s.saved
    ensures Subseq(r.items, s.items)
    ensures forall i :: 0 <= i < |r.items| ==> r.items[i] in s.items && r.items[i].id != productId
    ensures forall i :: 0 <= i < |s.items| && s.items[i].id != productId ==> s.items[i] in r.items
  {
    CartState(Filter(s.items, l => !HasId(productId, l)), s.saved)
  }

  /** `updateQuantity(productId, action)`, which locates the first line of the
      product by id, whatever its variant. */
  function UpdateQuantity(s: CartState, productId: int, action: Action): (r: CartState)
    ensures FindId(s.items, productId) == -1 ==> r == s
  {
    var i := FindId(s.items, productId);
    if i == -1 then s
    else
      match action
      case Increase =>
        Save(s.items[i := s.items[i].(quantity := s.items[i].quantity + 1)])
      case Decrease =>
        var q := s.items[i].quantity - 1;
        if q <= 0 then RemoveFromCart(s, productId)
        else Save(s.items[i := s.items[i].(quantity := q)])
      case OtherAction =>
        Save(s.items)
  }

  /** Increase and decrease act on the first line of the product: +1, or -1
      while that stays positive, all other lines untouched; a decrease to zero
      drops every line of the product. */
  lemma UpdateQuantityEffect(s: CartState, productId: int, action: Action)
    requires FindId(s.items, productId) >= 0
    ensures var r := UpdateQuantity(s, productId, action);
            var i := FindId(s.items, productId);
            var l := s.items[i];
            && (action == Increase ==>
                  r.items == s.items[i := l.(quantity := l.quantity + 1)] && r.saved == r.items)
            && (action == Decrease && l.quantity > 1 ==>
                  r.items == s.items[i := l.(quantity := l.quantity - 1)] && r.saved == r.items)
            && (action == Decrease && l.quantity <= 1 ==>
                  (forall k :: 0 <= k < |r.items| ==> r.items[k].id != productId)
                  && r == RemoveFromCart(s, productId)
                  && r.saved == s.saved)
            && (action == OtherAction ==> r.items == s.items && r.saved == s.items)
  {
  }

  /** `updateQuantity` keeps a cart well-formed. */
  lemma UpdateKeepsWellFormed(s: CartState, productId: int, action: Action)
    requires WellFormed(s.items)
    ensures WellFormed(UpdateQuantity(s, productId, action).items)
  {
    var i := FindId(s.items, productId);
    if i >= 0 {
      var l := s.items[i];
      if action == Increase {
        WellFormedBump(s.items, i, l.quantity + 1);
      } else if action == Decrease && l.quantity > 1 {
        WellFormedBump(s.items, i, l.quantity - 1);
      } else if action == Decrease {
        FilterDistinctBy(s.items, (l: LineItem) => !HasId(productId, l), KeyOf);
      }
    }
  }

  /** `clearCart`: no lines, and the empty cart is saved. */
  function ClearCart(s: CartState): (r: CartState)
    ensures r.items == [] && r.saved == []
    ensures Count(r.items) == 0 && Subtotal(r.items) == 0
  {
    Save([])
  }

  /** The cart effect of `proceedToCheckout`: an empty cart only raises an
      alert; otherwise the order is sent and the cart cleared. */
  function ProceedToCheckout(s: CartState): (r: CartState)
    ensures s.items == [] ==> r == s
    ensures s.items != [] ==> r.items == [] && r.saved == []
  {
    if s.items == [] then s else ClearCart(s)
  }

  /** Adding a product that had no line and then pressing "-" once removes
      it again from memory, but the stored snapshot still holds it. */
  lemma AddThenDecrease(catalog: seq<Product>, s: CartState, productId: int)
    requires FindProduct(catalog, productId).Some?
    requires WellFormed(s.items)
    requires forall k :: 0 <= k < |s.items| ==> s.items[k].id != productId
    ensures var added := AddToCart(catalog, s, productId, None);
            var r := UpdateQuantity(added, productId, Decrease);
            && r.items == s.items
            && r.saved == added.items
            && r.saved != s.items
  {
    var l := AddNewProduct(catalog, s, productId);
    DecreaseAppendedById(s.items, l);
  }

  /** Adding a product with no line appends one line of that product, with
      quantity 1, under the key `addToCart` files it by. */
  lemma AddNewProduct(catalog: seq<Product>, s: CartState, productId: int) returns (l: LineItem)
    requires FindProduct(catalog, productId).Some?
    requires WellFormed(s.items)
    requires forall k :: 0 <= k < |s.items| ==> s.items[k].id != productId
    ensures AddToCart(catalog, s, productId, None) == Save(s.items + [l])
    ensures l.id == productId && l.quantity == 1 && l.key == AddedKey(catalog, productId, None)
    ensures FindKey(s.items, l.key) == -1
  {
    var key := AddedKey(catalog, productId, None);
    assert FindKey(s.items, key) == -1 by {
      forall j | 0 <= j < |s.items|
        ensures s.items[j].key != key
      {
        assert LineConsistent(s.items[j]);
        KeysOfDifferentProducts(s.items[j].id, s.items[j].variantId, productId, None);
      }
    }
    AddAppendsLine(catalog, s, productId, None);
    var p := FindProduct(catalog, productId).value;
    l := NewLine(p, ResolveVariant(p, None));
  }

  /** "-" by id on a single-unit line appended after lines of other products
      removes it from memory only. */
  lemma DecreaseAppendedById(items: seq<LineItem>, l: LineItem)
    requires forall k :: 0 <= k < |items| ==> items[k].id != l.id
    requires l.quantity == 1
    ensures UpdateQuantity(Save(items + [l]), l.id, Decrease) == CartState(items, items + [l])
  {
    var n := |items|;
    var a := items + [l];
    assert FindId(a, l.id) == n by {
      assert a[n] == l;
      assert forall j :: 0 <= j < n ==> a[j] == items[j];
    }
    FilterAppend(items, l, x => !HasId(l.id, x));
    FilterKeepsAll(items, x => !HasId(l.id, x));
  }

  /** Two variants of one product share the id that the quantity buttons
      carry: pressing "-" on the second line (3 units) when the first holds a
      single unit empties the whole cart, and pressing "+" on it raises the
      first line instead. */
  lemma UpdateByIdHitsOtherVariant()
    ensures var a := LineItem(Key(7, Some("a")), 7, Some("a"), Some("A"), "P", 100, 100, [], 1);
            var b := LineItem(Key(7, Some("b")), 7, Some("b"), Some("B"), "P", 100, 100, [], 3);
            var s := Save([a, b]);
            && WellFormed(s.items)
            && UpdateQuantity(s, 7, Decrease).items == []
            && UpdateQuantity(s, 7, Increase).items == [a.(quantity := 2), b]
  {
    var a := LineItem(Key(7, Some("a")), 7, Some("a"), Some("A"), "P", 100, 100, [], 1);
    var b := LineItem(Key(7, Some("b")), 7, Some("b"), Some("B"), "P", 100, 100, [], 3);
    var s := Save([a, b]);
    assert a.key != b.key by {
      if a.key == b.key {
        KeyInjective(7, Some("a"), 7, Some("b"));
      }
    }
    assert FindId(s.items, 7) == 0;
    var r := UpdateQuantity(s, 7, Decrease);
    assert r.items == Filter(s.items, l => !HasId(7, l));
    FilterNone(s.items, l => !HasId(7, l));
  }

  // ---------------------------------------------------------------------
  // Quantity update by line key, saved on every path

  /** The quantity update the cart buttons evidently intend: it acts on the
      line whose key was clicked, and it saves on every path, removal included. */
  function UpdateLine(s: CartState, key: string, action: Action): (r: CartState)
    ensures FindKey(s.items, key) == -1 ==> r == s
    ensures FindKey(s.items, key) >= 0 ==> r.saved == r.items
  {
    var i := FindKey(s.items, key);
    if i == -1 then s
    else
      var l := s.items[i];
      match action
      case Increase => Save(s.items[i := l.(quantity := l.quantity + 1)])
      case Decrease =>
        if l.quantity - 1 <= 0 then Save(s.items[..i] + s.items[i + 1..])
        else Save(s.items[i := l.(quantity := l.quantity - 1)])
      case OtherAction => Save(s.items)
  }

  /** Only the clicked line changes: every other line keeps its place in
      order and its contents, and a line dropped to zero is the only one removed. */
  lemma UpdateLineTouchesOnlyThatLine(s: CartState, key: string, action: Action)
    requires FindKey(s.items, key) >= 0
    ensures var r := UpdateLine(s, key, action);
            var i := FindKey(s.items, key);
            var l := s.items[i];
            && (action == Decrease && l.quantity <= 1 ==>
                  r.items == s.items[..i] + s.items[i + 1..])
            && (action == Increase ==>
                  |r.items| == |s.items| && r.items[i].quantity == l.quantity + 1
                  && forall j :: 0 <= j < |s.items| && j != i ==> r.items[j] == s.items[j])
            && (action == Decrease && l.quantity > 1 ==>
                  |r.items| == |s.items| && r.items[i].quantity == l.quantity - 1
                  && forall j :: 0 <= j < |s.items| && j != i ==> r.items[j] == s.items[j])
  {
  }

  lemma WellFormedRemoveAt(items: seq<LineItem>, i: nat)
    requires WellFormed(items) && i < |items|
    ensures WellFormed(items[..i] + items[i + 1..])
  {
    var r := items[..i] + items[i + 1..];
    assert forall k :: 0 <= k < |r| ==> r[k] == items[if k < i then k else k + 1];
    forall a, b | 0 <= a < b < |r|
      ensures KeyOf(r[a]) != KeyOf(r[b])
    {
      var a' := if a < i then a else a + 1;
      var b' := if b < i then b else b + 1;
      assert a' < b';
    }
  }

  /** `UpdateLine` keeps a cart well-formed. */
  lemma UpdateLineKeepsWellFormed(s: CartState, key: string, action: Action)
    requires WellFormed(s.items)
    ensures WellFormed(UpdateLine(s, key, action).items)
  {
    if FindKey(s.items, key) >= 0 {
      match action
      case Increase => IncreaseLineKeepsWellFormed(s, key);
      case Decrease => DecreaseLineKeepsWellFormed(s, key);
      case OtherAction =>
    }
  }

  lemma IncreaseLineKeepsWellFormed(s: CartState, key: string)
    requires WellFormed(s.items) && FindKey(s.items, key) >= 0
    ensures WellFormed(UpdateLine(s, key, Increase).items)
  {
    var i := FindKey(s.items, key);
    WellFormedBump(s.items, i, s.items[i].quantity + 1);
  }

  lemma DecreaseLineKeepsWellFormed(s: CartState, key: string)
    requires WellFormed(s.items) && FindKey(s.items, key) >= 0
    ensures WellFormed(UpdateLine(s, key, Decrease).items)
  {
    var i := FindKey(s.items, key);
    if s.items[i].quantity > 1 {
      WellFormedBump(s.items, i, s.items[i].quantity - 1);
    } else {
      WellFormedRemoveAt(s.items, i);
    }
  }

  /** With the corrected update, adding a product that had no line and then
      pressing "-" on that line restores the cart exactly, stored snapshot
      included, so a reload shows what was there before. */
  lemma AddThenDecreaseLineRestores(catalog: seq<Product>, s: CartState, productId: int)
    requires FindProduct(catalog, productId).Some?
    requires WellFormed(s.items) && s.saved == s.items
    requires forall k :: 0 <= k < |s.items| ==> s.items[k].id != productId
    ensures var added := AddToCart(catalog, s, productId, None);
            var r := UpdateLine(added, AddedKey(catalog, productId, None), Decrease);
            && r == s
            && Load(r) == s
  {
    var l := AddNewProduct(catalog, s, productId);
    DecreaseAppendedLine(s.items, l);
  }

  /** "-" by key on a single-unit line appended after lines with other keys
      removes it and saves what is left. */
  lemma DecreaseAppendedLine(items: seq<LineItem>, l: LineItem)
    requires FindKey(items, l.key) == -1
    requires l.quantity == 1
    ensures UpdateLine(Save(items + [l]), l.key, Decrease) == Save(items)
  {
    var n := |items|;
    var a := items + [l];
    AppendSums(items, l);
    assert a[..n] + a[n + 1..] == items;
  }

  // ---------------------------------------------------------------------
  // Cart summary (renderCartItems)

  /** The free-shipping threshold of the cart summary, which differs from the
      200,000 of the shipping-inclusive total. */
  const CartFreeShippingThreshold: int := 100000

  /** What the cart modal shows below the lines. `LookupFailure` is the
      TypeError that reading a field of an unknown department raises. */
  datatype Summary =
    | EmptyCart
    | ChooseLocation(subtotal: int)
    | ShippingSummary(subtotal: int, shipping: int, total: int, minDays: int, maxDays: int)
    | LookupFailure

  /** The summary of `renderCartItems` for the selected location. */
  function CartSummary(items: seq<LineItem>, loc: Location): (r: Summary)
    ensures items == [] <==> r == EmptyCart
    ensures r.ChooseLocation? <==> items != [] && (loc.department == "" || loc.city == "")
    ensures r.LookupFailure? <==> items != [] && loc.department != "" && loc.city != ""
                                  && LookupDepartment(loc.department).None?
    ensures r.ShippingSummary? ==> r.subtotal == Subtotal(items)
                                   && r.total == r.subtotal + r.shipping
                                   && (r.shipping == 0 <==> r.subtotal >= CartFreeShippingThreshold)
                                   && 1 <= r.minDays <= r.maxDays
    ensures r.ShippingSummary? ==>
              && LookupDepartment(loc.department).Some?
              && var d := LookupDepartment(loc.department).value;
                 && r.shipping == (if r.subtotal >= CartFreeShippingThreshold then 0 else d.shippingCost)
                 && r.minDays == d.deliveryDays.min && r.maxDays == d.deliveryDays.max
  {
    if items == [] then EmptyCart
    else
      var subtotal := Subtotal(items);
      if loc.department == "" || loc.city == "" then ChooseLocation(subtotal)
      else
        match LookupDepartment(loc.department)
        case None => LookupFailure
        case Some(d) =>
          var shipping := if subtotal >= CartFreeShippingThreshold then 0 else d.shippingCost;
          ShippingSummary(subtotal, shipping, subtotal + shipping, d.deliveryDays.min, d.deliveryDays.max)
  }

  /** The cart summary and the checkout total agree except for subtotals in
      [100,000, 200,000): there the summary promises free shipping while the
      checkout total adds the department's cost. */
  lemma SummaryVersusCheckout(items: seq<LineItem>, loc: Location)
    requires items != [] && loc.department != "" && loc.city != ""
    requires LookupDepartment(loc.department).Some?
    ensures var sum := CartSummary(items, loc);
            var checkout := CalculateTotalWithShipping(Subtotal(items), loc);
            var cost := LookupDepartment(loc.department).value.shippingCost;
            && sum.ShippingSummary?
            && (CartFreeShippingThreshold <= Subtotal(items) < FreeShippingThreshold ==>
                  sum.total == Subtotal(items) && checkout == Subtotal(items) + cost)
            && (Subtotal(items) < CartFreeShippingThreshold || Subtotal(items) >= FreeShippingThreshold ==>
                  sum.total == checkout)
  {
  }
}
