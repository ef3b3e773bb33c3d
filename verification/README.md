# dropshi storefront: a verified model of its business rules

dropshi is a small JavaScript storefront for products imported into Colombia.
Its business logic is spread through DOM handlers. This project lifts that logic
into pure Dafny functions over immutable datatypes and proves what the code
promises. The modelled logic covers:

- the catalog normalisation, category filter, search and pagination of `ProductManager`;
- the slide carousels and the featured-products carousel;
- the `ShoppingCart` of the main page and the `ProductCart` of the stand-alone product pages;
- the Colombian department table, region matching, business-day delivery
  estimate, shipping-inclusive total and WhatsApp message enhancer of `ColombiaAutomation`;
- the product detail page (`producto.js`): URL lookup, gallery, lightbox,
  quantity stepper, related products, comments, and its add-to-cart button, whose guard decides
  between `ShoppingCart` and a raw record in storage.

Modules, one file each:

| file | module | models |
|---|---|---|
| wrappers.dfy | Wrappers | `Option`, for `undefined`/`null` and "not found" |
| text.dfy | Text | `toLowerCase`, `includes`, `trim`, `join`, `String(n)` |
| seqs.dfy | Seqs | `filter`, `slice`, sums by `reduce`, `Array.from(new Set(..))` |
| catalog.dfy | Catalog | products, variants, `normalizeProducts` |
| browse.dfy | Browse | categories, filter, search, page slices, pagination controls |
| carousel.dfy | Carousel | JavaScript `%`, carousel `go`, `FeaturedCarousel` |
| shipping.dfy | Shipping | department table, region matching, `calculateTotalWithShipping` |
| delivery.dfy | Delivery | weekdays, 2024 holidays, `isBusinessDay`, `calculateDeliveryDate` |
| whatsapp.dfy | WhatsApp | `enhanceWhatsAppMessage` |
| cart.dfy | Cart | `ShoppingCart` (script.js) |
| product_cart.dfy | ProductCart | `ProductCart` (product-cart.js) |
| product_page.dfy | ProductPage | producto.js |

Conventions:

- An absent string field of a product or variant is `""`, because every test the code makes on one is a truthiness test. The geolocation region, which the code lower-cases without any test, is an `Option` instead (`Shipping.DetectedDepartment`).
- Fields where the code tells `undefined` apart from a present value are `Option`s: `price`, `originalPrice`, `images`, `variants`.
- Dates are integer day numbers; day 0 is 1970-01-01, a Thursday.
- Persistence is a snapshot: each cart state holds its in-memory lines and the lines last written by `saveCart`. A page reload (`Load`) reads the snapshot back.
- JavaScript's `%` truncates toward zero, and a zero divisor gives NaN. `Carousel.JsRem` models both, with NaN as `None`.
- Prices are whole pesos (integers), so `Currency.getPriceValue`, which rounds, is the identity on them.

## Model

| member | source | states |
|---|---|---|
| Text.Lower | script.js:539 | lower-cases each character and keeps the length |
| Text.LowerIdempotent | script.js:539-552 | lower-casing an already lower-cased string changes nothing |
| Text.Includes | script.js:552 | `s.includes(sub)` is true exactly when `sub` occurs as a contiguous piece of `s` |
| Text.LowerOccurs | script.js:539-552 | a piece of a string is still a piece of it after both are lower-cased |
| Text.Trim | script.js:539 | the result is the piece of the input between a leading and a trailing run of white space, and does not itself start or end with white space |
| Text.TrimEmptyIffAllSpace | producto.js:192-193 | trimming gives "" exactly when the input is all white space |
| Text.IntToString | script.js:836 | `String(n)` is non-empty, never contains ':' and starts with '-' exactly for negative n |
| Text.NatToString | script.js:836 | only digits, with a leading '0' exactly for 0 |
| Text.IntToStringInjective | producto.js:12 | `String(a) === String(b)` only when `a == b` |
| Text.NatToStringRoundTrip | producto.js:12 | reading back the decimal digits of `String(n)` gives `n` |
| Text.JoinMentionsEveryPart | script.js:548-549 | every joined feature or tag occurs in the joined string |
| Seqs.Filter | script.js:532-535 | the filtered list is an order-preserving subsequence of the input; every element in it passes, and every element that passes is in it |
| Seqs.FilterCounts | script.js:532-535 | filtering keeps each passing element as many times as it occurs and drops every other one: the multiset of the result is that of the input cut down to the test |
| Seqs.FindIndex | script.js:838 | the position of the element `find` returns: the first one that passes, or -1 exactly when none does |
| Seqs.Take | script.js:1175 | `slice(0, n)` is the prefix of length min(n, len) |
| Seqs.FilterDistinctBy | script.js:1009 | filtering keeps elements apart by a key |
| Seqs.Dedup | script.js:183-184 | each distinct element once, in order of first appearance |
| Seqs.SumOfUpdate | script.js:935 | replacing one line changes a sum by the difference of its two terms |
| Catalog.NormalizeProduct | script.js:118-168 | name falls back to title. Description falls back to tag-free html, then to the short description. Price defaults to 0 and originalPrice to price. Empty images come from `image`, and every entry gets a resolved path. A missing `image` becomes the first image. When the product has or gets images, its variants (if any) are each normalised; otherwise they are untouched. id, category, features, tags, sku, featured flag and rating are untouched |
| Catalog.NormalizeText | script.js:121-123 | name falls back to title. Description falls back to the tag-free html, which keeps no tag, then to the short description. Nothing else changes |
| Catalog.NormalizeImages | script.js:125-163 | empty images are replaced by `[image]` when there is an image, and every image path is resolved. A missing `image` becomes the first resolved image. The variants are normalised exactly when the product has or gets images. With neither, the product is left alone. Nothing else changes |
| Catalog.NormalizeVariant | script.js:147-159 | only the variant's images change. Their count is kept and every entry ends up resolved; a bare file name gets the `imagenes/` prefix, and any other entry is kept |
| Catalog.NormalizeVariants | script.js:146-161 | the same variants, in order, each normalised |
| Catalog.NormalizeVariantIdempotent | script.js:147-159 | normalising a variant twice is normalising it once |
| Catalog.NormalizePrices | script.js:165-166 | price defaults to 0, and originalPrice defaults to the (defaulted) price. Nothing else changes |
| Catalog.NormalizeProducts | script.js:118 | the count and order of products are unchanged, and each is normalised |
| Catalog.NormalizeIdempotent | script.js:117-169 | normalising twice is normalising once |
| Catalog.NormalizeProductsIdempotent | script.js:117-169 | normalising the catalog twice is normalising it once |
| Catalog.StripTagsLeavesNoTags | script.js:123 | no `<...>` tag remains after `replace(/<[^>]+>/g, '')` |
| Catalog.StripTagsIdempotent | script.js:123 | stripping tags twice is stripping once |
| Catalog.StripTagsFixesTagFreeText | script.js:123 | text without tags comes through `replace` unchanged |
| Catalog.KeptAsGivenIffSlash | script.js:133-135 | an image path is left as written exactly when it contains '/' |
| Catalog.ResolveImagePath | script.js:131-140 | a path with '/' or an empty one is kept; a bare file name becomes `imagenes/` followed by its encoded form |
| Catalog.ResolveImagePaths | script.js:130-140 | the same number of paths, each resolved on its own |
| Catalog.ResolveImagePathsIdempotent | script.js:130-140 | resolving paths that are already resolved changes nothing |
| Browse.ExtractCategories | script.js:182-185 | 'all' followed by the distinct categories |
| Browse.CategoriesListed | script.js:182-185 | each listed category belongs to some product, and every product's category is listed. The list has no duplicates and follows first appearance |
| Browse.GetFilteredProducts | script.js:531-536 | an order-preserving subsequence holding exactly the products of the chosen category, each as many times as the catalog holds it |
| Browse.AllShowsEverything | script.js:533 | the 'all' filter shows the whole catalog |
| Browse.MatchesQueryMeaning | script.js:545-552 | a product matches exactly when the query occurs in one of the six lower-cased fields |
| Browse.SearchProducts | script.js:538-559 | a blank query falls back to the category listing. Otherwise the result is an order-preserving subsequence holding exactly the products in the category that match the query, each as many times as the catalog holds it |
| Browse.SearchFindsTag | script.js:549-552 | a product whose tag contains the query is found |
| Browse.PageContents | script.js:601-603 | page p shows the products at positions (p-1)*10 to p*10, cut at the end of the list |
| Browse.TotalPages | script.js:693 | the page count is the ceiling of n/10 |
| Browse.PagesCoverListing | script.js:601-603 | the pages, taken in order, are exactly the listing |
| Browse.Window | script.js:709-717 | buttons are shown for page 1, the last page and pages within 2 of the current page; a gap appears at exactly ±3; everything is in page order |
| Browse.PaginationControls | script.js:692-730 | no controls when there is at most one page; otherwise Previous, the window, then Next, with Previous disabled on page 1 and Next disabled on the last page |
| Browse.PaginationWindowShape | script.js:709-717 | the page-button and gap conditions, both directions |
| Carousel.JsRem | script.js:492 | `a % b` is None for b == 0, and otherwise takes the dividend's sign with magnitude below b |
| Carousel.JsRemIsTruncatedRemainder | script.js:492 | the remainder is that of division truncated toward zero |
| Carousel.GoWraps | script.js:491-492 | for a request no further back than one full turn, `go` selects it modulo the slide count; -1 gives the last slide and n the first |
| Carousel.FindActive | script.js:489 | the first active slide, or -1 when none is |
| Carousel.OpeningShowsSlide | script.js:489-522 | the opening slide is the first active one; with none active, `findIndex(..) \|\| 0` gives -1 and `go(-1)` opens the last slide |
| Carousel.SlideCount | script.js:1282 | the slide count is the ceiling of len/4 |
| Carousel.FeaturedNextInRange | script.js:1281-1285 | next stays in range and wraps from the last slide to 0 |
| Carousel.FeaturedPrevNextInverse | script.js:1281-1291 | prev stays in range, and prev and next undo each other |
| Carousel.SortByRank | script.js:1180-1183 | a permutation ordered by rating, then by reviews |
| Carousel.Insert | script.js:1180-1183 | inserting into a ranked list keeps it ranked and adds exactly the one product |
| Carousel.SetupFeatured | script.js:1170-1184 | at most 8 products: the first flagged ones if any are flagged, else the top of the ranking |
| Carousel.FeaturedFlaggedChoice | script.js:1172-1176 | with flagged products, the result is an order-preserving subsequence of them of size min(8, flagged) |
| Carousel.FeaturedFallbackIsTop | script.js:1179-1183 | without flagged products, the result has min(8, n) products, and every product left out ranks no higher than each chosen one |
| Shipping.DepartmentsWellFormed | colombia-automation.js:6-42 | every department has 1 <= min <= max delivery days, a positive shipping cost and its capital among its cities, and no key appears twice |
| Shipping.LookupDepartment | colombia-automation.js:403 | `colombianDepartments[key]` is present exactly for the table's keys, and a found department has a valid delivery window and a positive cost |
| Shipping.LookupIn | colombia-automation.js:403 | a key lookup finds a department exactly when one in the table has that key, and returns that one |
| Shipping.FindDepartmentByRegion | colombia-automation.js:122-130 | the first department in table order whose lower-cased name contains the lower-cased region or is contained in it; null when none does |
| Shipping.DetectedDepartment | colombia-automation.js:114-130 | an undefined region chooses no department, because `toLowerCase` throws and the caller only logs; a present region chooses what `findDepartmentByRegion` finds |
| Shipping.MissingAndEmptyRegionDiffer | colombia-automation.js:91-130 | a missing region chooses nothing, while an empty one chooses Antioquia |
| Shipping.FirstMatch | colombia-automation.js:123-129 | none exactly when no department matches; otherwise the matching department with no match before it |
| Shipping.EmptyRegionSelectsAntioquia | colombia-automation.js:122-127 | an empty region matches the first entry, 'antioquia' |
| Shipping.ExactNameSelectsDepartment | colombia-automation.js:123-127 | a region equal to a department's name up to case selects that department |
| Shipping.CalculateTotalWithShipping | colombia-automation.js:429-440 | the subtotal unchanged without a known department; otherwise subtotal <= total <= subtotal + cost, with total == subtotal exactly when subtotal >= 200000 |
| Shipping.ShippingAllOrNothing | colombia-automation.js:436-439 | shipping is either free or the full department cost |
| Shipping.TotalIgnoresCity | colombia-automation.js:429-440 | the total does not depend on the city |
| Shipping.TotalDipsAtThreshold | colombia-automation.js:436-439 | a subtotal of 199999 costs more in total than one of 200000 |
| Delivery.WeekdayNext | colombia-automation.js:248 | weekdays advance by one a day and wrap from Saturday to Sunday |
| Delivery.CountBusinessDays | colombia-automation.js:230-236 | the business days counted in (lo, hi] are at most the days in it |
| Delivery.CalendarAnchors | colombia-automation.js:44-49 | the day numbering puts 1970-01-01 at 0 and 2024-01-01 on a Monday, and counts 29 February 2024 |
| Delivery.HolidaysJanuaryToMay | colombia-automation.js:44-46 | the first seven listed holidays are the day numbers of 2024-01-01 through 2024-05-13 |
| Delivery.HolidaysJuneToAugust | colombia-automation.js:46-47 | the next seven are 2024-06-03 through 2024-08-19 |
| Delivery.HolidaysOctoberToDecember | colombia-automation.js:47-48 | the last five are 2024-10-14 through 2024-12-25 |
| Delivery.ChristmasIsNoBusinessDay | colombia-automation.js:247-258 | a listed holiday on a weekday is not a business day; the next weekday is |
| Delivery.WeekHasFiveBusinessDays | colombia-automation.js:247-258 | any seven days without holidays hold exactly five business days |
| Delivery.CountSplit | colombia-automation.js:230-236 | business-day counts over adjacent ranges add up |
| Delivery.CalculateDeliveryDate | colombia-automation.js:224-237 | for max >= 1, the result is after today, is a business day, and closes exactly max business days in (today, result]. No earlier day reaches the count |
| Delivery.DeliveryDayUnique | colombia-automation.js:224-237 | only one day after today is a business day closing the count |
| Delivery.OneDayFromFridayIsMonday | colombia-automation.js:230-236 | one business day from a Friday is the next Monday when that is no holiday |
| WhatsApp.DeliveryBlock | colombia-automation.js:406-412 | the appended block names the city, the department and the estimated day |
| WhatsApp.EnhanceWhatsAppMessage | colombia-automation.js:400-415 | the message is unchanged when the department or city is missing or the department is unknown. Otherwise the message is a proper prefix of the result, and the rest is the delivery block for the estimated delivery day |
| Cart.KeyInjective | script.js:836 | distinct (product, variant) pairs get distinct keys, because a printed integer has no ':' |
| Cart.KeysOfDifferentProducts | script.js:836 | lines of different products never share a key |
| Cart.OneLinePerVariant | script.js:838-854 | a well-formed cart has at most one line per product and variant |
| Cart.CountAtLeastLines | script.js:867 | a well-formed cart counts at least one unit per line, and the badge shows 0 exactly for the empty cart |
| Cart.FindProduct | script.js:826 | the first catalog product with the id, or none when no product has it |
| Cart.ResolveVariant | script.js:830-833 | a variant is resolved exactly for a non-empty variant id found among the product's variants |
| Cart.FindVariant | script.js:832 | the first variant with the id, or none exactly when no variant has it |
| Cart.NewLine | script.js:843-853 | quantity 1 under the composite key. The price is the variant's when non-zero, else `product.price \|\| 0`. Images are the variant's when non-empty, else the product's |
| Cart.AddToCart | script.js:825-859 | a product outside the catalog leaves the cart, snapshot included, unchanged; any other add is saved |
| Cart.FindKey | script.js:838 | the first line with the key, or -1 exactly when no line has it |
| Cart.AddToExistingLine | script.js:838-840 | an add on an existing key raises that line by exactly one and changes nothing else |
| Cart.AddAppendsLine | script.js:841-854 | an add on a new key appends exactly one new line |
| Cart.UnknownVariantUsesPlainKey | script.js:830-836 | a variant id that is not found files the product under the plain id key |
| Cart.ZeroVariantPriceFallsBack | script.js:848 | a variant priced 0 gets the product's price |
| Cart.AddKeepsWellFormed | script.js:838-854 | adding keeps keys unique and quantities positive |
| Cart.AddCountsOne | script.js:838-854 | an add raises the badge count by exactly 1 and the subtotal by the price of its line |
| Cart.RemoveFromCart | script.js:1008-1010 | an order-preserving subsequence without any line of the product, keeping every other line; nothing is saved |
| Cart.FindId | script.js:988 | the first line of the product, or -1 exactly when no line has it |
| Cart.UpdateQuantity | script.js:987-1006 | an id with no line leaves the cart, snapshot included, unchanged |
| Cart.UpdateQuantityEffect | script.js:987-1005 | increase adds 1 to the first line of the product and saves. Decrease subtracts 1, and at 0 or below removes every line of the product, exactly as `removeFromCart` does (every other line kept, in order), without saving. An unknown id changes nothing |
| Cart.UpdateKeepsWellFormed | script.js:987-1009 | updating keeps the cart well-formed |
| Cart.ClearCart | script.js:1012-1014 | the cart and its snapshot are empty, with count and subtotal 0 |
| Cart.ProceedToCheckout | script.js:1056-1060 | an empty cart stays as it is; any other ends empty, snapshot included |
| Cart.AddThenDecrease | script.js:995-999 | the removal path leaves the snapshot with the removed line, so a reload brings it back |
| Cart.UpdateByIdHitsOtherVariant | script.js:987-988 | pressing "-" on one variant's line can remove another variant's line, and "+" can raise another variant |
| Cart.UpdateLine | script.js:987-1005 | an update by line key that saves on every path; a key with no line changes nothing |
| Cart.UpdateLineTouchesOnlyThatLine | script.js:987-1005 | only the clicked line changes or goes; every other line keeps its place and contents |
| Cart.UpdateLineKeepsWellFormed | script.js:987-1005 | the corrected update keeps the cart well-formed |
| Cart.AddThenDecreaseLineRestores | script.js:995-999 | with the corrected update, adding a new product and pressing "-" restores the cart and its snapshot |
| Cart.CartSummary | script.js:901-984 | empty cart, "choose a location", a lookup failure for an unknown department, or subtotal + shipping. Shipping is 0 from 100000 and otherwise the department's cost, and the delivery window is the department's |
| Cart.SummaryVersusCheckout | script.js:945 | the modal's total and the checkout total differ exactly for subtotals in [100000, 200000) |
| ProductCart.FindLine | product-cart.js:41 | the first line with the product id, or -1 when none has it |
| ProductCart.AddToCart | product-cart.js:40-59 | every add is saved, and adds at most one line |
| ProductCart.AddExistingId | product-cart.js:43-44 | an id already in the cart raises its first line by one and leaves every other line as it was |
| ProductCart.AddNewId | product-cart.js:45-54 | a new id appends a single line with quantity 1 |
| ProductCart.AddLeavesOtherIds | product-cart.js:41-54 | lines of other products are untouched, and a new line belongs to the added product |
| ProductCart.AddKeepsUniqueIds | product-cart.js:41-54 | at most one line per product id is kept |
| ProductCart.AddCountsOne | product-cart.js:40-67 | an add raises the count by 1 and the total by the line's price |
| ProductCart.AddSurvivesReload | product-cart.js:56 | after an add, a reload shows the same cart |
| ProductCart.ClearCart | product-cart.js:277-281 | the cart and its snapshot are empty, with count and total 0 |
| ProductCart.ProceedToCheckout | product-cart.js:241-275 | whatever the cart held, it ends empty, snapshot included |
| ProductPage.FindByUrlId | producto.js:8-16 | no id gives no lookup. Otherwise the result is the first product whose `String(id)` equals the URL id, or "not found" when none does |
| ProductPage.ProductLinkFindsProduct | producto.js:12 | with distinct ids, a product's own id finds that product |
| ProductPage.PaddedIdFindsNothing | producto.js:12 | an id with a leading zero, such as "01", finds nothing |
| ProductPage.GalleryImages | producto.js:39 | `images` if non-empty, else `[image]` if present, else none |
| ProductPage.GalleryEmptyIff | producto.js:39-40 | the gallery is empty exactly when there are neither images nor an image, and it shows only the product's pictures |
| ProductPage.VariantGalleryImages | producto.js:79 | the variant's images first, then the product's chain |
| ProductPage.VariantGalleryEmptyIff | producto.js:79-80 | a variant gallery is empty exactly when the variant has no images and neither has the product |
| ProductPage.CardShowsFirstGalleryPicture | producto.js:174 | a related card shows the first gallery picture when it is not blank |
| ProductPage.CardImage | producto.js:174 | the first image when it is not blank, otherwise `image` |
| ProductPage.NavigateLightbox | producto.js:143 | the step is NaN exactly for an empty picture list |
| ProductPage.LightboxStepWraps | producto.js:139-146 | a step of ±1 stays in [0, n), moves to the neighbour, and wraps at both ends |
| ProductPage.LightboxNextPrevRestores | producto.js:139-146 | next then prev, or prev then next, restores the index |
| ProductPage.Step | producto.js:99-100 | from 1 or more the quantity stays at least 1 and moves by at most one |
| ProductPage.StepperStaysPositive | producto.js:98-100 | from the initial 1, any click sequence leaves a quantity of at least 1 and at most 1 plus the number of clicks |
| ProductPage.StepperLessUndoesMore | producto.js:99-100 | decrease undoes increase, and at 1 it does nothing |
| ProductPage.RelatedProducts | producto.js:167 | the first min(4, n) of the n other products of its category, in catalog order |
| ProductPage.SubmitComment | producto.js:192-196 | blank text leaves the list unchanged; otherwise the trimmed text, signed "Cliente", becomes element 0 and the list grows by 1 |
| ProductPage.CommentAcceptedIff | producto.js:192-196 | the list changes exactly for non-blank text, and a stored text has no surrounding white space |
| ProductPage.FallbackAdd | producto.js:112-114 | the fallback always appends one record and keeps the stored ones |
| ProductPage.FallbackNeverMerges | producto.js:112-114 | every fallback add leaves one more record of that product, even when one is stored |
| ProductPage.PressAddButton | producto.js:102-117 | the press goes through `ShoppingCart` exactly when `window.shoppingCart` is set; otherwise one `{id, qty, ...}` record is appended to the stored list |
| ProductPage.AddButtonBypassesCart | producto.js:108-115 | with `window.shoppingCart` unset, as the code stands, two presses store two separate records of the product, each with the chosen quantity |
| ProductPage.AddFromPageIgnoresQuantity | producto.js:109 | were the guard to hold, line 109 would add a single unit whatever the stepper shows |
| ProductPage.AddFromPageAsWritten | producto.js:109 | line 109 adds like the two-parameter `addToCart` of script.js, whatever the quantity |
| ProductPage.AddFromPage | producto.js:109 | the add that honours the quantity agrees with the code for a quantity of 1 |
| ProductPage.AddFromPageCountsQuantity | producto.js:109 | the corrected add raises the count by exactly the chosen quantity and keeps the cart well-formed |

## Left out

- DOM rendering, modals, notifications, event wiring and timers are not modelled. This includes autoplay, the `IntersectionObserver` and `MutationObserver` enhancers, and `debounce`.
- Network and asynchronous code is not modelled: catalog `fetch`, geolocation, IP lookup, reverse geocoding and the exchange-rate API. The catalog and the selected location are parameters instead.
- `localStorage` is not modelled as JSON. It is a snapshot of the line sequence, and comments are a list passed in and returned.
- `toLocaleString`, `toLocaleDateString`, `encodeURI` and `encodeURIComponent` are parameters (`money`, `date`, `encode`) or are not modelled. The wording of the WhatsApp order messages is not modelled; only the cart-clearing effect and the enhancer's appended block are.
- Clocks are not modelled: `new Date()` and `Date.now()` are the parameters `today` and `now`. The local `getDay` against UTC `toISOString` mismatch of colombia-automation.js:248-249 is not modelled either, since a day number has one weekday and one calendar date.
- Floating point is not modelled. Ratings are exact reals, and prices are integers, so `parseFloat` prices, discount percentages, `exchangeRate` and `taxRate` are left out.
- `parseInt` yielding NaN for a product id (product-cart.js:15) is not modelled, because ids are integers.
- Lookups by key do not model the `Object` prototype: `colombianDepartments[key]` is taken to be present only for the five table keys.
- Which variant button is active on the product page is a parameter (`variantId`), since it is DOM state.
- The fallback records of producto.js, `ProductCart`'s lines and `ShoppingCart`'s lines share the `'cart'` key (script.js:787, product-cart.js:6 and 62, producto.js:112-114), but they have different shapes: the fallback record has no `key` and no `quantity`. The model keeps each store separate and does not model one class loading another's records.
- The related-product buttons of producto.js:176 test `window.shoppingCart` as well, so as written they do nothing. They are not modelled further.
- Catalog.NormalizeVariant: `Number(variant.price)` is the identity on the model's integer prices; a price stored as a string is not modelled.
- Text.LowerChar: maps only the Basic Latin and Latin-1 capitals, the letters the department names and the catalog use, not every Unicode capital.
- Text.IntToString: covers integers below 10^21 in magnitude; beyond that JavaScript prints exponent notation.
- Carousel.GoWraps: does not state what `go` returns for requests more than one turn back (i < -n), where the truncating `%` gives a negative index.
- Carousel.SortByRank: states the ranking and the permutation but not the stability of `Array.prototype.sort`.
- Carousel.SetupFeatured: treats `p.featured === true` as a boolean field, so a truthy non-boolean flag is not modelled.
- ProductPage.NavigateLightbox: assumes the stored index is a number; `Number` on a corrupt `dataset.index` is not modelled.
- Text.Trim: takes one fixed set of white-space characters and ignores other `Zs` code points that a newer Unicode version might add.
- scripts/scrape-dropi.js, product-carousel.js and the React files under src/ are not part of this model. They are browser automation, timer-driven DOM, and presentational components whose index arithmetic is already covered by `Carousel.Go` and `ProductPage.NavigateLightbox`.

## Findings

| source | as written | input that shows it | evidently intended | confidence | as-written member | corrected member |
|---|---|---|---|---|---|---|
| script.js:995-999 | a decrease that takes a line to 0 removes it and returns before `saveCart` | an empty stored cart: add product 5, then press "-" on its line; the screen shows an empty cart, but storage still holds the line and a reload brings it back | the removal is saved like every other update | high, not executed | Cart.AddThenDecrease | Cart.AddThenDecreaseLineRestores |
| script.js:987-988 | quantity buttons find the line by product id, so they act on the first line of that product | lines 7::a (quantity 1) and 7::b (quantity 3); "-" on line b removes both lines, and "+" on line b raises line a | the button acts on the line it belongs to, by key | high, not executed | Cart.UpdateByIdHitsOtherVariant | Cart.UpdateLine |
| producto.js:108-115 | the guard `window.shoppingCart` never holds, because script.js:1313 declares `shoppingCart` with a top-level `let`, which creates no `window` property. So the button always takes the fallback, which appends a raw `{id, qty, name, price, variantId}` record to `'cart'` on every press and never merges. The branch at line 109 would in any case drop `qty`, which the two-parameter `addToCart` ignores | press "Agregar al carrito" twice on one product with the stepper at 3: storage gains two separate records of that product instead of one cart line of quantity 6 | the press goes through the shopping cart, which merges lines and counts the chosen quantity | medium, not executed | ProductPage.AddButtonBypassesCart | ProductPage.AddFromPageCountsQuantity |

The model keeps both halves of each finding. `Cart.UpdateQuantity` and
`ProductPage.PressAddButton` model the code as written. `Cart.UpdateLine`
and `ProductPage.AddFromPage` are the corrected operations, and the lemmas on
the right-hand side prove the intended property about them.

The model also follows the code where it differs from a natural reading of the design:

- The cart summary in the modal offers free shipping from 100,000 (script.js:945). The shipping-inclusive checkout total offers it from 200,000 (colombia-automation.js:436). They are kept as two functions, and `Cart.SummaryVersusCheckout` pins down where they disagree.
- `ShoppingCart.proceedToCheckout` refuses an empty cart (script.js:1057-1060). `ProductCart.proceedToCheckout` sends the message and clears the cart whatever it holds (product-cart.js:241-275).
