/** The product catalog as loaded from products.json, and the normalisation
    pass `ProductManager.normalizeProducts` applies to it (script.js). */
module Catalog {
  import opened Wrappers
  import opened Text

  /** A purchasable variant of a product. A missing price is 0 and missing
      images are [] (the source only tests them for truthiness / length). */
  datatype Variant = Variant(id: string, name: string, price: int, images: seq<string>, description: string)

  /** One catalog entry. Absent string fields are "", which every truthiness
      test in the source treats like `undefined`. `price`, `originalPrice`,
      `images` and `variants` are optional because the source tells
      `undefined` apart from a present value there. `rating` is a JavaScript
      number, kept exact as a real. */
  datatype Product = Product(
    id: int,
    name: string,
    title: string,
    description: string,
    descriptionHtml: string,
    shortDescription: string,
    price: Option<int>,
    originalPrice: Option<int>,
    images: Option<seq<string>>,
    image: string,
    variants: Option<seq<Variant>>,
    category: string,
    features: seq<string>,
    tags: seq<string>,
    sku: string,
    featured: bool,
    rating: real,
    reviews: int)

  /** `product.price || 0` */
  function PriceOrZero(p: Product): int
  {
    p.price.GetOr(0)
  }

  /** `p.images && p.images.length` */
  predicate HasImages(p: Product)
  {
    p.images.Some? && |p.images.value| > 0
  }

  // ---------------------------------------------------------------------
  // Description: html.replace(/<[^>]+>/g, '')

  /** Index of the first '>' at or after `from`, or |s| when there is none. */
  function NextGt(s: string, from: nat): (j: nat)
    requires from <= |s|
    ensures from <= j <= |s|
    ensures j < |s| ==> s[j] == '>'
    ensures forall k :: from <= k < j ==> s[k] != '>'
    decreases |s| - from
  {
    if from == |s| || s[from] == '>' then from else NextGt(s, from + 1)
  }

  /** A tag match starts at position 0: '<', at least one character that is
      not '>', then '>'. The match ends at the first '>' after the '<'. */
  predicate TagAtStart(s: string)
  {
    |s| > 1 && s[0] == '<' && 2 <= NextGt(s, 1) < |s|
  }

  /** `html.replace(/<[^>]+>/g, '')`: every left-to-right, non-overlapping match
      of the tag pattern is deleted. */
  function StripTags(s: string): string
    decreases |s|
  {
    if |s| == 0 then ""
    else if TagAtStart(s) then StripTags(s[NextGt(s, 1) + 1..])
    else [s[0]] + StripTags(s[1..])
  }

  /** No substring of `t` matches `<[^>]+>`: after every '<', either no '>'
      follows at all or the very next character is '>'. */
  ghost predicate NoTags(t: string)
  {
    forall i, j :: 0 <= i < j < |t| && t[i] == '<' && t[j] == '>' ==> t[i + 1] == '>'
  }

  lemma {:induction false} StripTagsKeepsNoNewGt(s: string)
    requires '>' !in s
    ensures StripTags(s) == s
    decreases |s|
  {
    if |s| > 0 {
      assert !TagAtStart(s) by {
        if |s| > 1 && s[0] == '<' {
          assert NextGt(s, 1) == |s|;
        }
      }
      StripTagsKeepsNoNewGt(s[1..]);
    }
  }

  /** Nothing left by the deletion can be matched again. */
  lemma {:induction false} StripTagsLeavesNoTags(s: string)
    ensures NoTags(StripTags(s))
    decreases |s|
  {
    if |s| > 0 {
      if TagAtStart(s) {
        StripTagsLeavesNoTags(s[NextGt(s, 1) + 1..]);
      } else {
        var rest := StripTags(s[1..]);
        StripTagsLeavesNoTags(s[1..]);
        var r := [s[0]] + rest;
        if s[0] == '<' && |s| > 1 {
          if NextGt(s, 1) == |s| {
            assert '>' !in s[1..];
            StripTagsKeepsNoNewGt(s[1..]);
            assert '>' !in rest;
          } else {
            assert s[1] == '>';
            assert !TagAtStart(s[1..]);
            assert rest[0] == '>';
          }
        }
        forall i, j | 0 <= i < j < |r| && r[i] == '<' && r[j] == '>'
          ensures r[i + 1] == '>'
        {
          if i > 0 {
            assert rest[i - 1] == '<' && rest[j - 1] == '>';
          } else {
            assert rest[j - 1] == '>';
          }
        }
      }
    }
  }

  /** Text without tags is left untouched, so stripping twice equals stripping once. */
  lemma {:induction false} StripTagsFixesTagFreeText(s: string)
    requires NoTags(s)
    ensures StripTags(s) == s
    decreases |s|
  {
    if |s| > 0 {
      assert !TagAtStart(s);
      assert NoTags(s[1..]) by {
        forall i, j | 0 <= i < j < |s[1..]| && s[1..][i] == '<' && s[1..][j] == '>'
          ensures s[1..][i + 1] == '>'
        {
          assert s[i + 1] == '<' && s[j + 1] == '>';
        }
      }
      StripTagsFixesTagFreeText(s[1..]);
    }
  }

  lemma StripTagsIdempotent(s: string)
    ensures StripTags(StripTags(s)) == StripTags(s)
  {
    StripTagsLeavesNoTags(s);
    StripTagsFixesTagFreeText(StripTags(s));
  }

  // ---------------------------------------------------------------------
  // Image paths

  /** `/^(https?:)?\/\//i.test(src)` */
  predicate IsUrlLike(src: string)
  {
    var l := Lower(src);
    StartsWith(l, "//") || StartsWith(l, "http://") || StartsWith(l, "https://")
  }

  /** The test under which an image path is kept as given: a URL, an absolute
      or `./`-relative path, or any path with a '/' in it. */
  predicate KeptAsGiven(src: string)
  {
    IsUrlLike(src) || StartsWith(src, "/") || StartsWith(src, "./") || Includes(src, "/")
  }

  /** Every alternative of the test implies the last one, so the test is just
      "contains a '/'". */
  lemma KeptAsGivenIffSlash(src: string)
    ensures KeptAsGiven(src) <==> '/' in src
  {
    var l := Lower(src);
    if IsUrlLike(src) {
      assert src[|src| - |src|..][..0] == "";
      var k :| 0 <= k < |l| && l[k] == '/' && (l[..2] == "//" || l[..7] == "http://" || l[..8] == "https://") by {
        if StartsWith(l, "//") {
          assert l[0] == '/';
        } else if StartsWith(l, "http://") {
          assert l[5] == '/';
        } else {
          assert l[6] == '/';
        }
      }
      assert LowerChar(src[k]) == '/';
      assert src[k] == '/';
    }
    if StartsWith(src, "/") || StartsWith(src, "./") {
      assert src[|src[..1]| - 1] == '/' || src[1] == '/';
    }
    if '/' in src {
      var k :| 0 <= k < |src| && src[k] == '/';
      assert OccursAt("/", src, k);
    }
    if Includes(src, "/") {
      var k :| OccursAt("/", src, k);
      assert src[k] == src[k..k + 1][0];
    }
  }

  /** The path rewrite applied to every product and variant image: empty
      entries and paths already located stay as they are; a bare file name is
      placed under `imagenes/` after URI-encoding (`encode` stands for
      `encodeURI`). */
  function ResolveImagePath(src: string, encode: string -> string): (r: string)
    ensures r == "" || '/' in r
    ensures src == "" || '/' in src ==> r == src
    ensures src != "" && '/' !in src ==> r == "imagenes/" + encode(src)
  {
    KeptAsGivenIffSlash(src);
    if src == "" then src
    else if KeptAsGiven(src) then src
    else
      var r := "imagenes/" + encode(src);
      assert r[8] == '/';
      r
  }

  function ResolveImagePaths(srcs: seq<string>, encode: string -> string): (r: seq<string>)
    ensures |r| == |srcs|
    ensures forall k :: 0 <= k < |r| ==> r[k] == ResolveImagePath(srcs[k], encode)
  {
    seq(|srcs|, k requires 0 <= k < |srcs| => ResolveImagePath(srcs[k], encode))
  }

  /** Variant images are rewritten only when the variant has some; every
      other field of the variant is kept. */
  function NormalizeVariant(v: Variant, encode: string -> string): (r: Variant)
    ensures r == v.(images := r.images)
    ensures |r.images| == |v.images| && PathsResolved(r.images)
    ensures forall k :: 0 <= k < |v.images| && (v.images[k] == "" || '/' in v.images[k]) ==>
              r.images[k] == v.images[k]
    ensures forall k :: 0 <= k < |v.images| && v.images[k] != "" && '/' !in v.images[k] ==>
              r.images[k] == "imagenes/" + encode(v.images[k])
  {
    if |v.images| > 0 then v.(images := ResolveImagePaths(v.images, encode)) else v
  }

  function NormalizeVariants(vs: seq<Variant>, encode: string -> string): (r: seq<Variant>)
    ensures |r| == |vs|
    ensures forall k :: 0 <= k < |r| ==> r[k] == NormalizeVariant(vs[k], encode)
  {
    seq(|vs|, k requires 0 <= k < |vs| => NormalizeVariant(vs[k], encode))
  }

  // ---------------------------------------------------------------------
  // normalizeProducts

  /** Every image path is empty or already located (holds a '/'). */
  ghost predicate PathsResolved(srcs: seq<string>)
  {
    forall k :: 0 <= k < |srcs| ==> srcs[k] == "" || '/' in srcs[k]
  }

  /** Images step: fill `images` from `image`, rewrite every path, default
      `image` to the first entry, rewrite variant images. */
  function NormalizeImages(p: Product, encode: string -> string): (r: Product)
    ensures r == p.(images := r.images, image := r.image, variants := r.variants)
    ensures HasImages(p) || p.image != "" ==>
              r.variants == if p.variants.Some? then Some(NormalizeVariants(p.variants.value, encode)) else None
    ensures HasImages(p) ==> r.images == Some(ResolveImagePaths(p.images.value, encode))
    ensures !HasImages(p) && p.image != "" ==> r.images == Some([ResolveImagePath(p.image, encode)])
    ensures !HasImages(p) && p.image == "" ==> r == p
    ensures HasImages(p) || p.image != "" ==> HasImages(r) && PathsResolved(r.images.value)
    ensures p.image != "" ==> r.image == p.image
    ensures p.image == "" && HasImages(r) ==> r.image == r.images.value[0]
    ensures p.image == "" && !HasImages(r) ==> r.image == ""
  {
    var p3 := if !HasImages(p) && p.image != "" then p.(images := Some([p.image])) else p;
    assert ResolveImagePaths([p.image], encode) == [ResolveImagePath(p.image, encode)];
    if HasImages(p3) then
      var imgs := ResolveImagePaths(p3.images.value, encode);
      var p4 := if p3.image == "" then p3.(images := Some(imgs), image := imgs[0])
                else p3.(images := Some(imgs));
      if p4.variants.Some? then p4.(variants := Some(NormalizeVariants(p4.variants.value, encode)))
      else p4
    else
      p3
  }

  /** Name and description step. */
  function NormalizeText(p: Product): (r: Product)
    ensures r == p.(name := r.name, description := r.description)
    ensures p.name != "" ==> r.name == p.name
    ensures p.name == "" ==> r.name == p.title
    ensures p.description != "" ==> r.description == p.description
    ensures p.description == "" && p.descriptionHtml != "" ==>
              r.description == StripTags(p.descriptionHtml) && NoTags(r.description)
    ensures p.description == "" && p.descriptionHtml == "" ==> r.description == p.shortDescription
  {
    StripTagsLeavesNoTags(p.descriptionHtml);
    var p1 := if p.name == "" && p.title != "" then p.(name := p.title) else p;
    if p1.description == "" then
      p1.(description := if p1.descriptionHtml != "" then StripTags(p1.descriptionHtml)
                         else p1.shortDescription)
    else p1
  }

  /** Price step: `price` defaults to 0, `originalPrice` to the price. */
  function NormalizePrices(p: Product): (r: Product)
    ensures r == p.(price := r.price, originalPrice := r.originalPrice)
    ensures r.price == Some(PriceOrZero(p))
    ensures r.originalPrice == if p.originalPrice.Some? then p.originalPrice else Some(PriceOrZero(p))
  {
    var p5 := if p.price.None? then p.(price := Some(0)) else p;
    if p5.originalPrice.None? then p5.(originalPrice := p5.price) else p5
  }

  /** One product through the normalisation pass of script.js. */
  function NormalizeProduct(p: Product, encode: string -> string): (r: Product)
    // identity and the fields the pass never touches
    ensures r.id == p.id && r.category == p.category && r.features == p.features
    ensures r.tags == p.tags && r.sku == p.sku && r.featured == p.featured
    ensures r.rating == p.rating && r.reviews == p.reviews
    // name falls back to title
    ensures p.name != "" ==> r.name == p.name
    ensures p.name == "" ==> r.name == p.title
    // description falls back to the tag-free html, then to the short description
    ensures p.description != "" ==> r.description == p.description
    ensures p.description == "" && p.descriptionHtml != "" ==>
              r.description == StripTags(p.descriptionHtml) && NoTags(r.description)
    ensures p.description == "" && p.descriptionHtml == "" ==> r.description == p.shortDescription
    // prices default to 0 and to the price
    ensures r.price == Some(PriceOrZero(p))
    ensures r.originalPrice == if p.originalPrice.Some? then p.originalPrice else Some(PriceOrZero(p))
    // images: kept, else taken from `image`; every entry located
    ensures HasImages(p) ==> r.images == Some(ResolveImagePaths(p.images.value, encode))
    ensures !HasImages(p) && p.image != "" ==> r.images == Some([ResolveImagePath(p.image, encode)])
    ensures !HasImages(p) && p.image == "" ==> r.images == p.images && r.variants == p.variants
    // variant images are resolved only alongside the product's own
    ensures HasImages(p) || p.image != "" ==>
              r.variants == if p.variants.Some? then Some(NormalizeVariants(p.variants.value, encode)) else None
    ensures HasImages(p) || p.image != "" ==> HasImages(r) && PathsResolved(r.images.value)
    // the main image defaults to the first (rewritten) gallery image
    ensures p.image != "" ==> r.image == p.image
    ensures p.image == "" && HasImages(r) ==> r.image == r.images.value[0]
    ensures p.image == "" && !HasImages(r) ==> r.image == ""
  {
    NormalizePrices(NormalizeImages(NormalizeText(p), encode))
  }

  /** `this.products = this.products.map(normalize)` */
  function NormalizeProducts(ps: seq<Product>, encode: string -> string): (r: seq<Product>)
    ensures |r| == |ps|
    ensures forall k :: 0 <= k < |r| ==> r[k] == NormalizeProduct(ps[k], encode)
  {
    seq(|ps|, k requires 0 <= k < |ps| => NormalizeProduct(ps[k], encode))
  }

  lemma ResolveImagePathsIdempotent(srcs: seq<string>, encode: string -> string)
    ensures ResolveImagePaths(ResolveImagePaths(srcs, encode), encode) == ResolveImagePaths(srcs, encode)
  {
  }

  /** Rewriting a variant's images twice is rewriting them once. */
  lemma NormalizeVariantIdempotent(v: Variant, encode: string -> string)
    ensures NormalizeVariant(NormalizeVariant(v, encode), encode) == NormalizeVariant(v, encode)
  {
    ResolveImagePathsIdempotent(v.images, encode);
  }

  /** The pass is idempotent: a catalog normalised once is a fixed point, so
      running it on already normalised data changes nothing. */
  lemma NormalizeIdempotent(p: Product, encode: string -> string)
    ensures NormalizeProduct(NormalizeProduct(p, encode), encode) == NormalizeProduct(p, encode)
  {
    var t := NormalizeText(p);
    var i := NormalizeImages(t, encode);
    var r := NormalizePrices(i);
    assert NormalizeText(r) == r;
    assert NormalizePrices(r) == r;
    if HasImages(p) || p.image != "" {
      var imgs := r.images.value;
      assert ResolveImagePaths(imgs, encode) == imgs;
      if r.variants.Some? {
        var vs := r.variants.value;
        forall k | 0 <= k < |vs|
          ensures NormalizeVariant(vs[k], encode) == vs[k]
        {
          NormalizeVariantIdempotent(p.variants.value[k], encode);
        }
        assert NormalizeVariants(vs, encode) == vs;
      }
      assert NormalizeImages(r, encode) == r;
    }
  }

  lemma NormalizeProductsIdempotent(ps: seq<Product>, encode: string -> string)
    ensures NormalizeProducts(NormalizeProducts(ps, encode), encode) == NormalizeProducts(ps, encode)
  {
    forall k | 0 <= k < |ps| {
      NormalizeIdempotent(ps[k], encode);
    }
  }
}
