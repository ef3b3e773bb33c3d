/** Wrap-around index arithmetic of the carousels and the choice of featured
    products (script.js: `initModalCarousel`, `initCarousels`, `FeaturedCarousel`). */
module Carousel {
  import opened Wrappers
  import opened Seqs
  import opened Catalog

  lemma {:induction false} MulAtLeast(b: nat, d: int)
    requires d >= 1
    ensures b * d >= b
    decreases d
  {
    if d > 1 {
      MulAtLeast(b, d - 1);
      assert b * d == b * (d - 1) + b;
    }
  }

  /** Euclidean division is unique: a quotient and a remainder in [0, b) that
      rebuild `a` are the ones `/` and `%` give. */
  lemma DivModUnique(a: int, b: nat, q: int, r: int)
    requires b > 0
    requires a == b * q + r && 0 <= r < b
    ensures a % b == r && a / b == q
  {
    var q' := a / b;
    assert a == b * q' + a % b;
    var d := q - q';
    assert b * d == a % b - r;
    if d >= 1 {
      MulAtLeast(b, d);
    }
    if d <= -1 {
      assert b * (-d) == -(b * d);
      MulAtLeast(b, -d);
    }
    assert d == 0;
  }

  /** JavaScript's `a % b` with a length as divisor: the remainder of division
      truncated toward zero, so it takes the sign of the dividend; `None` stands
      for the NaN that a zero divisor yields. */
  function JsRem(a: int, b: nat): (r: Option<int>)
    ensures r.None? <==> b == 0
    ensures r.Some? && a >= 0 ==> 0 <= r.value < b
    ensures r.Some? && a < 0 ==> 0 < r.value + b && r.value <= 0
  {
    if b == 0 then None
    else if a >= 0 then Some(a % b)
    else Some(-((-a) % b))
  }

  /** The truncating remainder is the `r` of the division `a == b * q + r`
      whose `r` has the dividend's sign and is smaller than `b` in magnitude. */
  lemma JsRemIsTruncatedRemainder(a: int, b: nat, q: int, r: int)
    requires b > 0
    requires a == b * q + r
    requires a >= 0 ==> 0 <= r < b
    requires a < 0 ==> 0 < r + b && r <= 0
    ensures JsRem(a, b) == Some(r)
  {
    if a >= 0 {
      DivModUnique(a, b, q, r);
    } else {
      assert -a == b * (-q) + (-r);
      DivModUnique(-a, b, -q, -r);
    }
  }

  // ---------------------------------------------------------------------
  // Slide carousels: `go(i)` in initModalCarousel and initCarousels

  /** `index = (i + slides.length) % slides.length` */
  function Go(i: int, n: nat): Option<int>
  {
    JsRem(i + n, n)
  }

  /** For a non-empty carousel and any request from one full turn back onward,
      `go` selects the request modulo the slide count: in range requests are
      kept, -1 wraps to the last slide and n to the first. */
  lemma GoWraps(i: int, n: nat)
    requires n > 0 && i + n >= 0
    ensures Go(i, n) == Some(i % n)
    ensures 0 <= i < n ==> Go(i, n) == Some(i)
    ensures i == -1 ==> Go(i, n) == Some(n - 1)
    ensures i == n ==> Go(i, n) == Some(0)
  {
    assert i == n * (i / n) + i % n;
    JsRemIsTruncatedRemainder(i + n, n, i / n + 1, i % n);
    if 0 <= i < n {
      DivModUnique(i, n, 0, i);
    } else if i == -1 {
      DivModUnique(i, n, -1, n - 1);
    } else if i == n {
      DivModUnique(i, n, 1, 0);
    }
  }

  /** `slides.findIndex(s => s.classList.contains('active'))` */
  function FindActive(active: seq<bool>): (r: int)
    ensures -1 <= r < |active|
    ensures r >= 0 ==> active[r] && forall k :: 0 <= k < r ==> !active[k]
    ensures r == -1 <==> forall k :: 0 <= k < |active| ==> !active[k]
    decreases |active|
  {
    if |active| == 0 then -1
    else if active[0] then 0
    else
      var t := FindActive(active[1..]);
      if t == -1 then
        forall k | 1 <= k < |active|
          ensures !active[k]
        {
          assert active[k] == active[1..][k - 1];
        }
        -1
      else 1 + t
  }

  /** `findIndex(...) || 0`: only a falsy 0 is replaced, so the -1 of "no
      active slide" survives. */
  function InitialIndex(active: seq<bool>): int
  {
    var f := FindActive(active);
    if f != 0 then f else 0
  }

  /** Opening the modal carousel with `go(index)`: the first active slide is
      shown, and when no slide is marked active the last slide is shown rather
      than the first. */
  lemma OpeningShowsSlide(active: seq<bool>)
    requires |active| > 0
    ensures var g := Go(InitialIndex(active), |active|);
            && g.Some? && 0 <= g.value < |active|
            && ((exists k :: 0 <= k < |active| && active[k]) ==>
                  active[g.value] && forall k :: 0 <= k < g.value ==> !active[k])
            && ((forall k :: 0 <= k < |active| ==> !active[k]) ==> g.value == |active| - 1)
  {
    GoWraps(InitialIndex(active), |active|);
  }

  // ---------------------------------------------------------------------
  // FeaturedCarousel

  const ItemsPerSlide: nat := 4
  const FeaturedLimit: nat := 8

  /** `Math.ceil(featuredProducts.length / itemsPerSlide)` */
  function SlideCount(len: nat): (r: nat)
    ensures len == 0 <==> r == 0
    ensures len > 0 ==> (r - 1) * ItemsPerSlide < len <= r * ItemsPerSlide
  {
    (len + ItemsPerSlide - 1) / ItemsPerSlide
  }

  /** `nextSlide`: `(currentSlide + 1) % totalSlides` (NaN when there are no slides). */
  function FeaturedNext(current: int, len: nat): Option<int>
  {
    JsRem(current + 1, SlideCount(len))
  }

  /** `prevSlide`: wraps from slide 0 to the last slide. */
  function FeaturedPrev(current: int, len: nat): int
  {
    if current == 0 then SlideCount(len) - 1 else current - 1
  }

  /** Next keeps the current slide in range and wraps from the last to the first. */
  lemma FeaturedNextInRange(current: int, len: nat)
    requires 0 <= current < SlideCount(len)
    ensures FeaturedNext(current, len).Some?
    ensures 0 <= FeaturedNext(current, len).value < SlideCount(len)
    ensures FeaturedNext(current, len).value ==
              (if current + 1 == SlideCount(len) then 0 else current + 1)
  {
    var t := SlideCount(len);
    if current + 1 == t {
      JsRemIsTruncatedRemainder(current + 1, t, 1, 0);
    } else {
      JsRemIsTruncatedRemainder(current + 1, t, 0, current + 1);
    }
  }

  /** Prev keeps the current slide in range, and prev and next undo each other. */
  lemma FeaturedPrevNextInverse(current: int, len: nat)
    requires 0 <= current < SlideCount(len)
    ensures 0 <= FeaturedPrev(current, len) < SlideCount(len)
    ensures FeaturedNext(FeaturedPrev(current, len), len) == Some(current)
    ensures FeaturedPrev(FeaturedNext(current, len).value, len) == current
  {
    FeaturedNextInRange(current, len);
    FeaturedNextInRange(FeaturedPrev(current, len), len);
  }

  /** The featured ranking: higher rating first, then more reviews. */
  predicate RanksAtLeast(a: Product, b: Product)
  {
    a.rating > b.rating || (a.rating == b.rating && a.reviews >= b.reviews)
  }

  /** `b` ranks strictly below `a`, so the comparator puts `a` first. */
  predicate Outranks(a: Product, b: Product)
  {
    a.rating > b.rating || (a.rating == b.rating && a.reviews > b.reviews)
  }

  ghost predicate Ranked(s: seq<Product>)
  {
    forall i, j :: 0 <= i < j < |s| ==> RanksAtLeast(s[i], s[j])
  }

  /** Insert `x` into a ranked sequence after every element it does not outrank
      (ties keep arrival order, as the stable `Array.prototype.sort` does). */
  function Insert(s: seq<Product>, x: Product): (r: seq<Product>)
    requires Ranked(s)
    ensures Ranked(r)
    ensures multiset(r) == multiset(s) + multiset{x}
    decreases |s|
  {
    if |s| == 0 then [x]
    else if Outranks(x, s[0]) then
      RankedCons(x, s);
      [x] + s
    else
      var t := Insert(s[1..], x);
      assert s == [s[0]] + s[1..];
      forall k | 0 <= k < |t|
        ensures RanksAtLeast(s[0], t[k])
      {
        assert t[k] in multiset(t);
        if t[k] != x {
          assert t[k] in multiset(s[1..]);
          var j :| 0 <= j < |s[1..]| && s[1..][j] == t[k];
          assert s[j + 1] == t[k];
        }
      }
      RankedCons(s[0], t);
      assert multiset([s[0]] + t) == multiset{s[0]} + multiset(t);
      [s[0]] + t
  }

  /** A ranked sequence stays ranked under a head that ranks at least as high
      as each of its elements. */
  lemma RankedCons(h: Product, t: seq<Product>)
    requires Ranked(t)
    requires forall k :: 0 <= k < |t| ==> RanksAtLeast(h, t[k])
    ensures Ranked([h] + t)
  {
    var r := [h] + t;
    forall i, j | 0 <= i < j < |r|
      ensures RanksAtLeast(r[i], r[j])
    {
      assert r[j] == t[j - 1];
      if i > 0 {
        assert r[i] == t[i - 1];
      }
    }
  }

  /** The sort of `setupFeaturedProducts`, by rating then reviews, descending. */
  function SortByRank(s: seq<Product>): (r: seq<Product>)
    ensures Ranked(r)
    ensures multiset(r) == multiset(s)
    decreases |s|
  {
    if |s| == 0 then []
    else
      assert s == s[..|s| - 1] + [s[|s| - 1]];
      Insert(SortByRank(s[..|s| - 1]), s[|s| - 1])
  }

  /** `all.filter(p => p.featured === true)` */
  function Flagged(all: seq<Product>): seq<Product>
  {
    Filter(all, (p: Product) => p.featured)
  }

  /** `setupFeaturedProducts`: the first eight products flagged as featured,
      or, when none is flagged, the eight best ranked products. */
  function SetupFeatured(all: seq<Product>): (r: seq<Product>)
    ensures |r| <= FeaturedLimit
    ensures var flagged := Flagged(all);
            |flagged| > 0 ==> r == Take(flagged, FeaturedLimit)
    ensures var flagged := Flagged(all);
            |flagged| == 0 ==> Ranked(r) && r == Take(SortByRank(all), FeaturedLimit)
  {
    var flagged := Flagged(all);
    if |flagged| > 0 then Take(flagged, FeaturedLimit)
    else Take(SortByRank(all), FeaturedLimit)
  }

  /** Featured selection when products are flagged: flagged products only, in
      catalog order, as many as there are up to eight. */
  lemma FeaturedFlaggedChoice(all: seq<Product>)
    requires exists i :: 0 <= i < |all| && all[i].featured
    ensures var r := SetupFeatured(all);
            && Subseq(r, all)
            && (forall k :: 0 <= k < |r| ==> r[k].featured)
            && |r| == (if |Flagged(all)| < FeaturedLimit
                       then |Flagged(all)| else FeaturedLimit)
  {
    var flagged := Flagged(all);
    var i :| 0 <= i < |all| && all[i].featured;
    assert all[i] in flagged;
    SubseqPrefix(flagged, all, |SetupFeatured(all)|);
  }

  /** Fallback selection: eight products (or all of them), drawn from the
      catalog, and none of the products left out ranks above a chosen one. */
  lemma FeaturedFallbackIsTop(all: seq<Product>)
    requires forall i :: 0 <= i < |all| ==> !all[i].featured
    ensures var r := SetupFeatured(all);
            && |r| == (if |all| < FeaturedLimit then |all| else FeaturedLimit)
            && multiset(r) <= multiset(all)
            && forall p, k :: p in multiset(all) - multiset(r) && 0 <= k < |r| ==> RanksAtLeast(r[k], p)
  {
    FilterNone(all, (p: Product) => p.featured);
    var sorted := SortByRank(all);
    var r := SetupFeatured(all);
    var n := |r|;
    assert sorted == r + sorted[n..];
    assert multiset(all) == multiset(r) + multiset(sorted[n..]);
    forall p, k | p in multiset(all) - multiset(r) && 0 <= k < |r|
      ensures RanksAtLeast(r[k], p)
    {
      assert p in multiset(sorted[n..]);
      var j :| 0 <= j < |sorted[n..]| && sorted[n..][j] == p;
      assert sorted[n + j] == p && sorted[k] == r[k];
    }
  }
}
