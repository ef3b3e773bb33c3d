/** The cart of the stand-alone product pages (ProductCart in product-cart.js):
    one line per product id, persisted as a snapshot after every change. */
module ProductCart {
  import opened Seqs

  /** One line as `addToCart` builds it from the button's data attributes. */
  datatype PageLine = PageLine(id: int, name: string, price: int, image: string, quantity: int)

  /** The in-memory lines and the snapshot last written by `saveCart`. */
  datatype PageCart = PageCart(items: seq<PageLine>, saved: seq<PageLine>)

  /** The constructor: `JSON.parse(localStorage.getItem('cart')) || []`. */
  function Load(s: PageCart): (r: PageCart)
    ensures r.items == s.saved && r.saved == s.saved
  {
    PageCart(s.saved, s.saved)
  }

  /** `saveCart` */
  function Save(items: seq<PageLine>): (r: PageCart)
    ensures r.items == items && r.saved == items
  {
    PageCart(items, items)
  }

  function IdOf(l: PageLine): int
  {
    l.id
  }

  /** What `addToCart` maintains: no product id on two lines. */
  ghost predicate UniqueIds(items: seq<PageLine>)
  {
    DistinctBy(items, IdOf)
  }

  function LineTotal(l: PageLine): int
  {
    l.price * l.quantity
  }

  function LineQuantity(l: PageLine): int
  {
    l.quantity
  }

  /** `items.reduce((sum, item) => sum + item.price * item.quantity, 0)` */
  function Total(items: seq<PageLine>): int
  {
    SumOf(items, LineTotal)
  }

  /** `items.reduce((sum, item) => sum + item.quantity, 0)`, the badge count. */
  function Count(items: seq<PageLine>): int
  {
    SumOf(items, LineQuantity)
  }

  /** `items.find(item => item.id === productId)`, as a position or -1. */
  function FindLine(items: seq<PageLine>, id: int): (i: int)
    ensures -1 <= i < |items|
    ensures i >= 0 ==> items[i].id == id && forall j :: 0 <= j < i ==> items[j].id != id
    ensures i == -1 <==> forall j :: 0 <= j < |items| ==> items[j].id != id
  {
    FindIndex(items, (l: PageLine) => l.id == id)
  }


  /** `addToCart(productId, productName, productPrice, productImage)` */
  function AddToCart(s: PageCart, id: int, name: string, price: int, image: string): (r: PageCart)
    ensures r.saved == r.items
    ensures |s.items| <= |r.items| <= |s.items| + 1
  {
    var i := FindLine(s.items, id);
    if i >= 0 then
      Save(s.items[i := s.items[i].(quantity := s.items[i].quantity + 1)])
    else
      Save(s.items + [PageLine(id, name, price, image, 1)])
  }

  /** A product already in the cart: its first line gains one unit, no line is
      added, and every other line stays as it was. */
  lemma AddExistingId(s: PageCart, id: int, name: string, price: int, image: string, i: nat)
    requires i < |s.items| && s.items[i].id == id
    requires forall j :: 0 <= j < i ==> s.items[j].id != id
    ensures var r := AddToCart(s, id, name, price, image);
            && |r.items| == |s.items|
            && r.items[i] == s.items[i].(quantity := s.items[i].quantity + 1)
            && (forall j :: 0 <= j < |s.items| && j != i ==> r.items[j] == s.items[j])
  {
    assert FindLine(s.items, id) == i;
  }

  /** A product not yet in the cart: a single line with quantity 1 and the
      given name, price and image is appended. */
  lemma AddNewId(s: PageCart, id: int, name: string, price: int, image: string)
    requires forall j :: 0 <= j < |s.items| ==> s.items[j].id != id
    ensures AddToCart(s, id, name, price, image).items == s.items + [PageLine(id, name, price, image, 1)]
  {
  }

  /** Lines of other products are never touched, and any line that is new
      belongs to the added product. */
  lemma AddLeavesOtherIds(s: PageCart, id: int, name: string, price: int, image: string)
    ensures var r := AddToCart(s, id, name, price, image);
            && (forall j :: 0 <= j < |s.items| && s.items[j].id != id ==> r.items[j] == s.items[j])
            && (forall j :: 0 <= j < |r.items| ==> (j < |s.items| && r.items[j].id == s.items[j].id) || (j == |s.items| && r.items[j].id == id))
  {
  }

  /** `addToCart` keeps at most one line per product id. */
  lemma AddKeepsUniqueIds(s: PageCart, id: int, name: string, price: int, image: string)
    requires UniqueIds(s.items)
    ensures UniqueIds(AddToCart(s, id, name, price, image).items)
  {
    var r := AddToCart(s, id, name, price, image);
    var i := FindLine(s.items, id);
    if i >= 0 {
      forall a, b | 0 <= a < b < |r.items|
        ensures r.items[a].id != r.items[b].id
      {
        assert r.items[a].id == s.items[a].id && r.items[b].id == s.items[b].id;
      }
    } else {
      forall a, b | 0 <= a < b < |r.items|
        ensures r.items[a].id != r.items[b].id
      {
        if b == |s.items| {
          assert r.items[a] == s.items[a];
        } else {
          assert r.items[a] == s.items[a] && r.items[b] == s.items[b];
        }
      }
    }
  }

  /** Each click raises the badge count by one and the total by the price of
      the line it lands on. */
  lemma AddCountsOne(s: PageCart, id: int, name: string, price: int, image: string)
    ensures var r := AddToCart(s, id, name, price, image);
            var i := FindLine(r.items, id);
            && 0 <= i
            && Count(r.items) == Count(s.items) + 1
            && Total(r.items) == Total(s.items) + r.items[i].price
  {
    AddShape(s, id, name, price, image);
    SumsAfterAdd(s.items, PageLine(id, name, price, image, 1), AddToCart(s, id, name, price, image).items);
  }

  /** What one click does to the lines: the first line of the product gains
      one unit, or the new line is appended. */
  ghost predicate AddedOne(items: seq<PageLine>, l: PageLine, r: seq<PageLine>)
  {
    var i := FindLine(items, l.id);
    || (i >= 0 && r == items[i := items[i].(quantity := items[i].quantity + 1)])
    || (i == -1 && r == items + [l])
  }

  lemma AddShape(s: PageCart, id: int, name: string, price: int, image: string)
    ensures AddedOne(s.items, PageLine(id, name, price, image, 1), AddToCart(s, id, name, price, image).items)
  {
  }

  lemma SumsAfterAdd(items: seq<PageLine>, l: PageLine, r: seq<PageLine>)
    requires l.quantity == 1
    requires AddedOne(items, l, r)
    ensures var i := FindLine(r, l.id);
            && 0 <= i
            && Count(r) == Count(items) + 1
            && Total(r) == Total(items) + r[i].price
  {
    var i := FindLine(items, l.id);
    if i >= 0 {
      BumpLine(items, l.id, i);
    } else {
      AppendLine(items, l);
    }
  }

  lemma BumpLine(items: seq<PageLine>, id: int, i: nat)
    requires i < |items| && FindLine(items, id) == i
    ensures var r := items[i := items[i].(quantity := items[i].quantity + 1)];
            && FindLine(r, id) == i
            && Count(r) == Count(items) + 1
            && Total(r) == Total(items) + r[i].price
  {
    var l := items[i].(quantity := items[i].quantity + 1);
    var r := items[i := l];
    SumOfUpdate(items, i, l, LineQuantity);
    SumOfUpdate(items, i, l, LineTotal);
    MulSucc(l.price, items[i].quantity);
    assert r[i].id == id;
    assert forall j :: 0 <= j < i ==> r[j] == items[j] && r[j].id != id;
  }

  lemma AppendLine(items: seq<PageLine>, l: PageLine)
    requires FindLine(items, l.id) == -1 && l.quantity == 1
    ensures var r := items + [l];
            && FindLine(r, l.id) == |items|
            && Count(r) == Count(items) + 1
            && Total(r) == Total(items) + l.price
  {
    var r := items + [l];
    SumOfAppend(items, l, LineQuantity);
    SumOfAppend(items, l, LineTotal);
    assert forall j :: 0 <= j < |items| ==> r[j] == items[j] && r[j].id != l.id;
  }

  lemma MulSucc(p: int, q: int)
    ensures p * (q + 1) == p * q + p
  {
  }

  /** `clearCart`: no lines, stored as such, nothing to count or pay. */
  function ClearCart(s: PageCart): (r: PageCart)
    ensures r.items == [] && r.saved == []
    ensures Count(r.items) == 0 && Total(r.items) == 0
  {
    Save([])
  }

  /** `proceedToCheckout`: whatever the cart held, even nothing, the message is
      sent and the cart ends empty, in memory and in storage. */
  function ProceedToCheckout(s: PageCart): (r: PageCart)
    ensures r.items == [] && r.saved == []
    ensures Load(r).items == []
  {
    ClearCart(s)
  }

  /** After any click the persisted snapshot is what a reload shows. */
  lemma AddSurvivesReload(s: PageCart, id: int, name: string, price: int, image: string)
    ensures var r := AddToCart(s, id, name, price, image);
            Load(r) == r
  {
  }
}
