/** Browsing the catalog: category list, category filter, text search and
    pagination (ProductManager in script.js). */
module Browse {
  import opened Wrappers
  import opened Text
  import opened Seqs
  import opened Catalog

  // ---------------------------------------------------------------------
  // Categories

  function CategoryOf(ps: seq<Product>): (r: seq<string>)
    ensures |r| == |ps|
    ensures forall k :: 0 <= k < |ps| ==> r[k] == ps[k].category
  {
    seq(|ps|, k requires 0 <= k < |ps| => ps[k].category)
  }

  /** `['all', ...Array.from(new Set(products.map(p => p.category)))]` */
  function ExtractCategories(ps: seq<Product>): (r: seq<string>)
    ensures |r| >= 1 && r[0] == "all"
    ensures r[1..] == Dedup(CategoryOf(ps))
  {
    var r := ["all"] + Dedup(CategoryOf(ps));
    assert r[1..] == Dedup(CategoryOf(ps));
    r
  }

  /** The category list: 'all' first, then every category of the catalog once,
      each one that of some product, in order of first appearance. */
  lemma CategoriesListed(ps: seq<Product>)
    ensures var c := ExtractCategories(ps)[1..];
            && (forall k :: 0 <= k < |c| ==> exists i :: 0 <= i < |ps| && ps[i].category == c[k])
            && (forall i :: 0 <= i < |ps| ==> ps[i].category in c)
            && (forall a, b :: 0 <= a < b < |c| ==> c[a] != c[b])
            && (forall a, b :: 0 <= a < b < |c| ==> FirstBefore(CategoryOf(ps), c[a], c[b]))
  {
    var c := ExtractCategories(ps)[1..];
    var cats := CategoryOf(ps);
    assert c == Dedup(cats);
    DedupCategories(ps);
    forall i | 0 <= i < |ps|
      ensures ps[i].category in c
    {
      assert cats[i] == ps[i].category && cats[i] in c;
    }
  }

  /** The distinct categories, indexed from 0: each that of some product. */
  lemma DedupCategories(ps: seq<Product>)
    ensures var d := Dedup(CategoryOf(ps));
            forall k :: 0 <= k < |d| ==> exists i :: 0 <= i < |ps| && ps[i].category == d[k]
  {
    var cats := CategoryOf(ps);
    var d := Dedup(cats);
    forall k | 0 <= k < |d|
      ensures exists i :: 0 <= i < |ps| && ps[i].category == d[k]
    {
      var i :| 0 <= i < |cats| && cats[i] == d[k];
      assert ps[i].category == d[k];
    }
  }

  // ---------------------------------------------------------------------
  // Category filter

  /** The category test of `getFilteredProducts`. */
  predicate InCategory(p: Product, filter: string)
  {
    filter == "all" || p.category == filter
  }

  /** `getFilteredProducts`: the products of the current category, in catalog order. */
  function GetFilteredProducts(ps: seq<Product>, filter: string): (r: seq<Product>)
    ensures Subseq(r, ps)
    ensures forall i :: 0 <= i < |r| ==> r[i] in ps && InCategory(r[i], filter)
    ensures forall i :: 0 <= i < |ps| && InCategory(ps[i], filter) ==> ps[i] in r
    ensures forall p :: multiset(r)[p] == if InCategory(p, filter) then multiset(ps)[p] else 0
  {
    FilterCounts(ps, p => InCategory(p, filter));
    Filter(ps, p => InCategory(p, filter))
  }

  /** The 'all' filter shows the whole catalog. */
  lemma AllShowsEverything(ps: seq<Product>)
    ensures GetFilteredProducts(ps, "all") == ps
  {
    FilterKeepsAll(ps, p => InCategory(p, "all"));
  }

  // ---------------------------------------------------------------------
  // Search

  /** The category test of `searchProducts`: unlike `getFilteredProducts`, an
      empty filter admits every product too. */
  predicate InSearchCategory(p: Product, filter: string)
  {
    filter == "" || filter == "all" || p.category == filter
  }

  /** The texts a query is matched against: name, description, category, the
      features and the tags each joined with a space, and the SKU. */
  function SearchFields(p: Product): (r: seq<string>)
    ensures |r| == 6
  {
    [p.name, p.description, p.category, Join(p.features, " "), Join(p.tags, " "), p.sku]
  }

  /** The match test of `searchProducts`, with `includes` on lower-cased text. */
  predicate MatchesQuery(p: Product, q: string)
  {
    var f := SearchFields(p);
    Includes(Lower(f[0]), q) || Includes(Lower(f[1]), q) || Includes(Lower(f[2]), q)
    || Includes(Lower(f[3]), q) || Includes(Lower(f[4]), q) || Includes(Lower(f[5]), q)
  }

  /** Reference meaning of a match: the query occurs in some lower-cased field. */
  ghost predicate MatchesSpec(p: Product, q: string)
  {
    exists k :: 0 <= k < 6 && Occurs(q, Lower(SearchFields(p)[k]))
  }

  lemma MatchesQueryMeaning(p: Product, q: string)
    ensures MatchesQuery(p, q) <==> MatchesSpec(p, q)
  {
    var f := SearchFields(p);
    if MatchesSpec(p, q) {
      var k :| 0 <= k < 6 && Occurs(q, Lower(f[k]));
      assert Includes(Lower(f[k]), q);
    }
  }

  /** The normalised query: `(query || '').toString().toLowerCase().trim()`. */
  function NormalizeQuery(query: string): string
  {
    Trim(Lower(query))
  }

  /** `searchProducts(query)`. An empty normalised query falls back to the
      category listing; otherwise the products of the search category whose
      text contains the query, in catalog order. */
  function SearchProducts(ps: seq<Product>, filter: string, query: string): (r: seq<Product>)
    ensures Subseq(r, ps)
    ensures NormalizeQuery(query) == "" ==> r == GetFilteredProducts(ps, filter)
    ensures NormalizeQuery(query) != "" ==>
              forall i :: 0 <= i < |r| ==>
                r[i] in ps && InSearchCategory(r[i], filter) && MatchesSpec(r[i], NormalizeQuery(query))
    ensures NormalizeQuery(query) != "" ==>
              forall i :: (0 <= i < |ps| && InSearchCategory(ps[i], filter)
                           && MatchesSpec(ps[i], NormalizeQuery(query))) ==> ps[i] in r
    ensures NormalizeQuery(query) != "" ==>
              forall p :: multiset(r)[p] ==
                if InSearchCategory(p, filter) && MatchesSpec(p, NormalizeQuery(query))
                then multiset(ps)[p] else 0
  {
    var q := NormalizeQuery(query);
    if q == "" then
      GetFilteredProducts(ps, filter)
    else
      var r := Filter(ps, p => InSearchCategory(p, filter) && MatchesQuery(p, q));
      FilterCounts(ps, p => InSearchCategory(p, filter) && MatchesQuery(p, q));
      forall i | 0 <= i < |r|
        ensures MatchesSpec(r[i], q)
      {
        MatchesQueryMeaning(r[i], q);
      }
      forall i | 0 <= i < |ps| && InSearchCategory(ps[i], filter) && MatchesSpec(ps[i], q)
        ensures ps[i] in r
      {
        MatchesQueryMeaning(ps[i], q);
      }
      forall p
        ensures multiset(r)[p] == if InSearchCategory(p, filter) && MatchesSpec(p, q)
                                  then multiset(ps)[p] else 0
      {
        MatchesQueryMeaning(p, q);
      }
      r
  }

  /** A query found in any one tag (case-insensitively) finds the product,
      because the joined tag text contains every tag. */
  lemma SearchFindsTag(ps: seq<Product>, filter: string, query: string, i: nat, k: nat)
    requires i < |ps| && k < |ps[i].tags|
    requires InSearchCategory(ps[i], filter)
    requires NormalizeQuery(query) != ""
    requires Occurs(NormalizeQuery(query), Lower(ps[i].tags[k]))
    ensures ps[i] in SearchProducts(ps, filter, query)
  {
    var p := ps[i];
    JoinMentionsEveryPart(p.tags, " ", k);
    LowerOccurs(p.tags[k], Join(p.tags, " "));
    OccursTransitive(NormalizeQuery(query), Lower(p.tags[k]), Lower(Join(p.tags, " ")));
    assert SearchFields(p)[4] == Join(p.tags, " ");
  }

  // ---------------------------------------------------------------------
  // Pagination

  const ProductsPerPage: nat := 10

  /** `products.slice((page - 1) * 10, (page - 1) * 10 + 10)` */
  function PageSlice<T>(items: seq<T>, page: int): seq<T>
  {
    var start := (page - 1) * ProductsPerPage;
    JsSlice(items, start, start + ProductsPerPage)
  }

  /** Page p (p >= 1) shows exactly the items at positions [(p-1)*10, p*10). */
  lemma PageContents<T>(items: seq<T>, page: int)
    requires page >= 1
    ensures var start := (page - 1) * ProductsPerPage;
            var r := PageSlice(items, page);
            && |r| == (if start >= |items| then 0
                       else if start + ProductsPerPage <= |items| then ProductsPerPage
                       else |items| - start)
            && forall k :: 0 <= k < |r| ==> r[k] == items[start + k]
  {
  }

  /** `Math.ceil(totalProducts / 10)` */
  function TotalPages(n: nat): (r: nat)
    ensures n == 0 ==> r == 0
    ensures n > 0 ==> (r - 1) * ProductsPerPage < n <= r * ProductsPerPage
  {
    (n + ProductsPerPage - 1) / ProductsPerPage
  }

  /** Pages 1..count laid end to end. */
  function Pages<T>(items: seq<T>, count: nat): seq<T>
    decreases count
  {
    if count == 0 then [] else Pages(items, count - 1) + PageSlice(items, count)
  }

  lemma {:induction false} PagesPrefix<T>(items: seq<T>, count: nat)
    ensures var m := if count * ProductsPerPage <= |items| then count * ProductsPerPage else |items|;
            Pages(items, count) == items[..m]
    decreases count
  {
    if count > 0 {
      PagesPrefix(items, count - 1);
      PageContents(items, count);
    }
  }

  /** The pages partition the listing: read in order, pages 1..totalPages are
      the listing itself, nothing lost and nothing repeated. */
  lemma PagesCoverListing<T>(items: seq<T>)
    ensures Pages(items, TotalPages(|items|)) == items
  {
    PagesPrefix(items, TotalPages(|items|));
  }

  // ---------------------------------------------------------------------
  // Pagination controls (updatePagination)

  /** One control of the pagination bar. `Gap(at)` is an ellipsis drawn where
      page button `at` would have been. */
  datatype Control =
    | Previous(target: int, disabled: bool)
    | PageButton(page: int, active: bool)
    | Gap(at: int)
    | Next(target: int, disabled: bool)

  /** The pages that get a button: the first, the last, and those within two
      of the current page. */
  predicate ShowsButton(i: int, total: int, current: int)
  {
    i == 1 || i == total || (current - 2 <= i <= current + 2)
  }

  /** What the loop of `updatePagination` emits for page i. */
  function Slot(i: int, total: int, current: int): seq<Control>
  {
    if ShowsButton(i, total, current) then [PageButton(i, i == current)]
    else if i == current - 3 || i == current + 3 then [Gap(i)]
    else []
  }

  /** The position a control stands for. */
  function PositionOf(c: Control): int
  {
    match c
    case Previous(_, _) => 0
    case PageButton(p, _) => p
    case Gap(at) => at
    case Next(_, _) => 0
  }

  /** The loop `for (let i = from; i <= total; i++)`. */
  function Window(from: int, total: int, current: int): (w: seq<Control>)
    ensures forall k :: 0 <= k < |w| ==> w[k].PageButton? || w[k].Gap?
    ensures forall k :: 0 <= k < |w| ==> from <= PositionOf(w[k]) <= total
    ensures forall a, b :: 0 <= a < b < |w| ==> PositionOf(w[a]) < PositionOf(w[b])
    ensures forall i, act :: PageButton(i, act) in w <==>
              from <= i <= total && ShowsButton(i, total, current) && act == (i == current)
    ensures forall i :: Gap(i) in w <==>
              from <= i <= total && !ShowsButton(i, total, current) && (i == current - 3 || i == current + 3)
    decreases total - from + 1
  {
    if from > total then []
    else
      var rest := Window(from + 1, total, current);
      var w := Slot(from, total, current) + rest;
      assert forall k :: 0 <= k < |rest| ==> w[|w| - |rest| + k] == rest[k];
      w
  }

  /** `updatePagination(totalProducts)`: no controls at all when there is at
      most one page; otherwise Previous, the page window, Next. */
  function PaginationControls(totalProducts: nat, current: int): (r: seq<Control>)
    ensures TotalPages(totalProducts) <= 1 <==> r == []
    ensures r != [] ==> |r| >= 2
                        && r[0] == Previous(current - 1, current == 1)
                        && r[|r| - 1] == Next(current + 1, current == TotalPages(totalProducts))
                        && r[1..|r| - 1] == Window(1, TotalPages(totalProducts), current)
  {
    var total := TotalPages(totalProducts);
    if total <= 1 then []
    else
      var r := [Previous(current - 1, current == 1)] + Window(1, total, current)
               + [Next(current + 1, current == total)];
      assert r[1..|r| - 1] == Window(1, total, current);
      r
  }

  /** The page buttons are exactly page 1, the last page and the pages within
      two of the current one; the ellipses stand exactly at distance three,
      and everything is in increasing page order. */
  lemma PaginationWindowShape(totalProducts: nat, current: int, i: int)
    requires TotalPages(totalProducts) > 1
    ensures var total := TotalPages(totalProducts);
            var w := PaginationControls(totalProducts, current)[1..|PaginationControls(totalProducts, current)| - 1];
            && (PageButton(i, i == current) in w <==>
                  1 <= i <= total && (i == 1 || i == total || current - 2 <= i <= current + 2))
            && (Gap(i) in w <==>
                  1 < i < total && (i == current - 3 || i == current + 3))
  {
  }
}
