# SportsStore catalog and product administration — a Dafny model

This project models the product-facing core of the SportsStore ASP.NET Core
web application. It covers:

- **The storefront catalog (`ProductController`)**:
  - the paginated listing, filtered by category and ordered by product
    identity, with its ViewBag values (the distinct category names, the
    current category label, the page number, the filtered total and the
    page size);
  - the price/category filter (`FilterProducts`);
  - the product detail lookup.
- **The admin JSON API (`ProductsApiController`)**: GET all, GET one, POST,
  PUT, DELETE, and the `ProductExists` check, with their HTTP outcomes
  (200, 201, 204, 400, 404, and a rethrown concurrency conflict).
- **The admin pages (`AdminController`)**: Index, Edit (GET and POST),
  Create and Delete, with the TempData messages they write.
- **The product repository** the controllers write through. It is a class
  holding the stored products and the next identity to assign. A save with
  ProductID 0 creates a product under a fresh identity; any other ProductID
  updates the stored product. A delete returns the removed product or
  nothing.

Module layout:

| file | module | models |
|---|---|---|
| `domain.dfy` | `Domain` | Category, Product and ProductFilter; lookup by identity (`FirstOrDefault`, `Any`) |
| `query.dfy` | `Query` | the LINQ operators `Where`, `Skip` and `Take`, with LINQ to Objects semantics |
| `paging.dfy` | `Paging` | the page window `Skip((page - 1) * size).Take(size)` and the page count; pages tile the list |
| `ordinal.dfy` | `Ordinal` | ordinal string order; strictly ascending name lists |
| `product_controller.dfy` | `ProductController` | List, FilterProducts, Details |
| `repository.dfy` | `Repository` | the product repository as a class: SaveProduct, DeleteProduct |
| `products_api_controller.dfy` | `ProductsApiController` | the admin REST endpoints |
| `admin_controller.dfy` | `AdminController` | the admin MVC actions and their TempData |

Conventions:

- Prices are whole cents. The column is `decimal(18, 2)`, so every stored
  price is a whole number of cents.
- Strings are sequences of characters. Names are compared ordinally, by character code.
- Two things the controllers cannot observe or decide are parameters of the
  operations:
  - `modelValid` is ASP.NET's `ModelState.IsValid`;
  - `concurrentEdit` says whether another request changed the target row
    between read and write (a row-version mismatch).
- Edge cases the model follows as the code has them:
  - **Empty category in the listing.** The comment at
    Controllers/ProductController.cs:96 says the category filter applies
    only when the category is "not null or empty". The test at line 98
    checks only for null, so an empty category lists only products whose
    category name is empty. `FilterProducts` does skip an empty category
    (`IsNullOrEmpty`, line 158).
  - **Update conflicts.** A concurrency conflict during PUT becomes 404
    only when the product no longer exists. Otherwise the exception is
    rethrown (Areas/Admin/Controllers/ProductsApiController.cs:71-80).
  - **Page size.** The page size from configuration is not checked by the
    listing. A page size of 0 or less yields empty pages.
  - **Page number.** A page number below 1 is not rejected. While
    `(productPage - 1) * itemsPerPage` fits in an `int`, its negative skip
    count skips nothing, so it shows page 1. For page numbers where the
    product overflows, see "## Findings".

## Model

| member | source | states |
|---|---|---|
| Domain.DefaultProduct | Controllers/AdminController.cs:54 | `new Product()`: identity 0, the "not yet stored" sentinel, with empty name, description and image, price 0, category 0, not featured |
| Domain.IndexOfId | Controllers/ProductController.cs:129 | the index of the first product with the identity, or -1 exactly when none has it |
| Domain.FirstWithId | Controllers/ProductController.cs:129 | `FirstOrDefault` by identity: None iff no product has the identity; otherwise the first stored product, in repository order, with that identity |
| Domain.AnyWithId | Areas/Admin/Controllers/ProductsApiController.cs:97 | `Any` by identity holds iff some stored product has the identity |
| Domain.FirstWithIdIsUnique | Areas/Admin/Controllers/ProductsApiController.cs:32 | with unique identities, the lookup returns the one product with that identity |
| Query.Where | Controllers/ProductController.cs:98 | the result keeps exactly the elements satisfying the predicate and is no longer than the input |
| Query.WhereCount | Controllers/ProductController.cs:98 | each element keeps its multiplicity if it satisfies the predicate, and disappears otherwise |
| Query.WhereIsSubsequence | Controllers/ProductController.cs:157-169 | `Where` preserves the input's order: its result is a subsequence of the input |
| Query.WhereWhere | Controllers/ProductController.cs:157-169 | two chained `Where`s equal one `Where` by the conjunction |
| Query.WhereExt | Controllers/ProductController.cs:160 | `Where` depends only on the predicate's values |
| Query.WhereNone | Controllers/ProductController.cs:98 | a predicate no element satisfies gives the empty sequence |
| Query.WhereAll | Controllers/ProductController.cs:98 | a predicate every element satisfies gives the input unchanged |
| Query.Skip | Controllers/ProductController.cs:101 | a suffix of the input: all of it for a count ≤ 0, none for a count ≥ the length, otherwise length minus the count |
| Query.Take | Controllers/ProductController.cs:102 | a prefix of the input: none for a count ≤ 0, all of it for a count ≥ the length, otherwise exactly the count |
| Paging.Wrap32 | Controllers/ProductController.cs:101 | C# unchecked `int` arithmetic: the result is in the 32-bit range, congruent to the input modulo 2^32, and unchanged inside the range |
| Paging.PageStart | Controllers/ProductController.cs:101 | a page starts at (page - 1) × size, clipped to the list; a page below 1 starts at 0 |
| Paging.PageEnd | Controllers/ProductController.cs:102 | a page ends at page × size, clipped, never before its start; a page below 1 ends at the page size |
| Paging.Page | Controllers/ProductController.cs:99-103 | the shown page is the window between page start and page end, at most one page size long, and empty for a non-positive size |
| Paging.PageBeforeFirst | Controllers/ProductController.cs:101 | every page number below 1 shows the same products as page 1 |
| Paging.PageCount | Controllers/ProductController.cs:112-113 | the number of pages is ceil(total / size): the least c with total ≤ c × size, and 0 only for no items |
| Paging.PagesArePrefix | Controllers/ProductController.cs:99-103 | pages 1 to c concatenated are the first c × size items |
| Paging.AllPagesRebuildList | Controllers/ProductController.cs:99-103 | all pages up to the page count, in order, rebuild the list exactly |
| Paging.PageInRangeNonEmpty | Controllers/ProductController.cs:101-102 | every page from 1 to the page count is non-empty, and every one before the last is full |
| Paging.LaterPageEmpty | Controllers/ProductController.cs:101-102 | a page past the page count is empty |
| Paging.FiveItemsTwoPerPage | Controllers/ProductController.cs:99-103 | worked example: ids 1..5 at two per page give [1, 2], [3, 4], [5], then [] |
| Paging.WindowsDisjoint | Controllers/ProductController.cs:101-102 | in a list without repeats, non-overlapping windows share nothing |
| Paging.PagesDisjoint | Controllers/ProductController.cs:99-103 | in a list without repeats, two different pages share nothing |
| Paging.PageAsWritten | Controllers/ProductController.cs:101 | the window with the skip count in 32-bit arithmetic; it agrees with `Page` whenever the product fits in 32 bits |
| Paging.PageAsWrittenWrapsAround | Controllers/ProductController.cs:101 | for five items at four per page, page 2^30 + 1 is past the page count, yet as written it shows the first four items; for five items at five per page, page -2^29 should show page 1 (all five), yet as written it is empty |
| Paging.PageOutOfRange | Controllers/ProductController.cs:101-102 | outside the page range the window is what is intended: past the page count it is empty, and below 1 it is page 1 |
| Ordinal.Less | Controllers/ProductController.cs:108 | the ordinal order `OrderBy(c => c)` sorts by; a name that sorts before another differs from it |
| Ordinal.LessIrreflexive | Controllers/ProductController.cs:108 | no name sorts before itself |
| Ordinal.LessTransitive | Controllers/ProductController.cs:108 | the ordinal order is transitive |
| Ordinal.LessTotal | Controllers/ProductController.cs:108 | any two different names are ordered one way or the other |
| Ordinal.LessAsymmetric | Controllers/ProductController.cs:108 | the ordinal order is asymmetric |
| Ordinal.AscendingUnique | Controllers/ProductController.cs:105-109 | two strictly ascending lists with the same names are equal |
| Ordinal.InsertDistinct | Controllers/ProductController.cs:107-108 | inserting into a strictly ascending list keeps it strictly ascending and adds exactly the new name |
| ProductController.InsertById | Controllers/ProductController.cs:100 | insertion into a list sorted by identity keeps it sorted and adds exactly the one product |
| ProductController.SortById | Controllers/ProductController.cs:100 | `OrderBy(ProductID)`: sorted by identity and a permutation of the input |
| ProductController.InsertKeepsUniqueIds | Controllers/ProductController.cs:100 | inserting a product with a new identity keeps identities unique |
| ProductController.SortKeepsUniqueIds | Controllers/ProductController.cs:100 | sorting keeps identities unique |
| ProductController.SortedUniqueIsDistinct | Controllers/ProductController.cs:100 | sorted with unique identities means identities strictly ascend and no product repeats |
| ProductController.CategoryNames | Controllers/ProductController.cs:105-109 | `Select(Name).Distinct().OrderBy()`: strictly ascending, holding exactly the category names in use |
| ProductController.CategoryNamesDetermined | Controllers/ProductController.cs:105-109 | any strictly ascending list of exactly the names in use equals `CategoryNames` |
| ProductController.InCategory | Controllers/ProductController.cs:98 | a null category admits every product; an empty category is not "all" and admits only products whose category name is empty |
| ProductController.CategoryQuery | Controllers/ProductController.cs:98 | the category query keeps exactly the stored products in the category, is never longer than the catalog, and is the whole catalog for a null category |
| ProductController.Listed | Controllers/ProductController.cs:98-100 | the listing the pages are cut from: sorted by identity, a permutation of the category query, holding exactly the stored products in the category |
| ProductController.List | Controllers/ProductController.cs:90-118 | the page holds at most one page size of products, sorted by identity, each a stored product in the category; the total is at most the catalog size and equals it for no category; the categories are ascending and exactly those in use; the label is the category or "Tất cả sản phẩm"; page and size are echoed |
| ProductController.ListedSpec | Controllers/ProductController.cs:98-100 | the listing is sorted by identity and holds each in-category product as often as the repository, and nothing else |
| ProductController.ListedStrictlyAscending | Controllers/ProductController.cs:98-100 | with unique identities, the listing's identities strictly ascend, so the order is unique and repeatable |
| ProductController.WhereUniqueIds | Controllers/ProductController.cs:98 | filtering keeps identities unique |
| ProductController.ListIsPageOfListed | Controllers/ProductController.cs:98-112 | the shown products are page `productPage` of the whole listing, and the total is the listing's length |
| ProductController.TotalItemsIgnoresPage | Controllers/ProductController.cs:112 | the total does not depend on the page asked for |
| ProductController.ListPagesCoverListing | Controllers/ProductController.cs:99-112 | pages 1 to ceil(total / size), in order, are the whole listing with each product once |
| ProductController.ListPageInRange | Controllers/ProductController.cs:101-112 | the page is empty iff the total is 0 or the page number is past the page count |
| ProductController.ListPagesDisjoint | Controllers/ProductController.cs:99-103 | with unique identities, two different page numbers (≥ 1) show no product in common |
| ProductController.ListUnknownCategory | Controllers/ProductController.cs:98-112 | a category no product has gives total 0 and an empty page, whatever the page number |
| ProductController.NarrowByCategory | Controllers/ProductController.cs:158-161 | narrowing by a non-empty category equals filtering by the category criterion, which every product meets when the category is null or empty |
| ProductController.NarrowByMin | Controllers/ProductController.cs:162-165 | narrowing by the minimum price, when set, equals filtering by the minimum criterion |
| ProductController.NarrowByMax | Controllers/ProductController.cs:166-169 | narrowing by the maximum price, when set, equals filtering by the maximum criterion |
| ProductController.FilterProducts | Controllers/ProductController.cs:154-172 | a product is kept iff it is stored and meets every criterion set (non-empty category, minimum, maximum); never longer than the input |
| ProductController.FilterProductsIsConjunction | Controllers/ProductController.cs:157-169 | the chained narrowings equal a single `Where` by the conjunction of the set criteria |
| ProductController.FilterProductsKeepsOrder | Controllers/ProductController.cs:157-172 | the filtered list keeps repository order: it is a subsequence |
| ProductController.EmptyFilterKeepsAll | Controllers/ProductController.cs:157-172 | with no criterion set (or only an empty category) every product is returned, in order |
| ProductController.InStockOnlyIgnored | Controllers/ProductController.cs:170-171 | flipping InStockOnly never changes the result |
| ProductController.Details | Controllers/ProductController.cs:127-139 | NotFound iff no product has the identity; otherwise the first stored product with that identity |
| Repository.RemoveAt | Areas/Admin/Controllers/ProductsApiController.cs:88 | removing one position shortens the list by one and adds nothing |
| Repository.RemoveAtUnique | Areas/Admin/Controllers/ProductsApiController.cs:88 | removal keeps identities unique and leaves no product with the removed identity |
| Repository.MaxId | SportsStore.Infrastructure/Data/ApplicationDbContext.cs:58-88 | an upper bound (≥ 0) on every identity in the list |
| Repository.ProductRepository.constructor | SportsStore.Infrastructure/Data/ApplicationDbContext.cs:58-88 | a repository over the seeded products satisfies the invariant (identities unique, positive and below the next one) |
| Repository.ProductRepository.SaveProduct | Areas/Admin/Controllers/ProductsApiController.cs:48-71 | identity 0 appends the product under a fresh identity and reports it. Any other identity replaces the stored product with it. A missing target or a concurrent edit is a conflict that changes nothing. The invariant is kept |
| Repository.ProductRepository.DeleteProduct | Areas/Admin/Controllers/ProductsApiController.cs:88 | returns the product found by identity, or None and changes nothing; afterwards no product has the identity; the invariant is kept |
| ProductsApiController.GetProducts | Areas/Admin/Controllers/ProductsApiController.cs:24-27 | 200 with every stored product, in repository order |
| ProductsApiController.ProductExists | Areas/Admin/Controllers/ProductsApiController.cs:95-98 | true iff some stored product has the identity |
| ProductsApiController.GetProduct | Areas/Admin/Controllers/ProductsApiController.cs:30-38 | 404 iff no product has the identity; otherwise 200 with the first stored product that has it |
| ProductsApiController.GetProductAgreesWithGetProducts | Areas/Admin/Controllers/ProductsApiController.cs:24-38 | with unique identities, GET one returns exactly the listed product with that identity |
| ProductsApiController.PostProduct | Areas/Admin/Controllers/ProductsApiController.cs:41-54 | an invalid body gives 400 and no write. Identity 0 gives 201 with a fresh identity and the product appended. A non-zero identity updates or fails with a conflict. After a 201, GET of the returned identity yields the returned product |
| ProductsApiController.PutProduct | Areas/Admin/Controllers/ProductsApiController.cs:57-83 | mismatched identities, then an invalid body, give 400 with no write. For a non-zero identity: 404 iff it was absent; a rethrown conflict iff present and concurrently edited; 204 iff present and not concurrently edited, with the product replaced, after which GET yields it. Identity 0 creates the product |
| ProductsApiController.DeleteProduct | Areas/Admin/Controllers/ProductsApiController.cs:86-94 | 404 iff the identity was absent (no change); otherwise 204 with that product removed; afterwards GET of it is 404 |
| AdminController.NatToString | Controllers/AdminController.cs:67 | the decimal rendering of a natural number: non-empty, digits only, no leading zero, and its digits denote the number |
| AdminController.IntToString | Controllers/AdminController.cs:67 | the rendering of an `int` in the message: a minus sign exactly for a negative number, then the digits of its magnitude |
| AdminController.IntToStringInjective | Controllers/AdminController.cs:67 | different numbers render differently |
| AdminController.NotFoundMessage | Controllers/AdminController.cs:67 | the not-found message is the fixed opening words, the rendered identity, and the fixed closing words |
| AdminController.NotFoundMessageNamesId | Controllers/AdminController.cs:67 | the identity can be read back from the not-found message: different identities give different messages |
| AdminController.SavedMessage | Controllers/AdminController.cs:41 | the saved message begins with the product's name |
| AdminController.DeletedMessage | Controllers/AdminController.cs:63 | the deleted message begins with the product's name |
| AdminController.Index | Controllers/AdminController.cs:20 | the Index view shows every stored product |
| AdminController.EditGet | Controllers/AdminController.cs:22-32 | 404 iff no product has the identity; otherwise the Edit view of the first stored product with that identity, with the category list |
| AdminController.EditPost | Controllers/AdminController.cs:34-49 | an invalid form re-shows the posted product with no write and no message. A valid one is saved and redirects to Index with the saved message. Identity 0 creates, any other identity updates, and the saved product is then the one found by its identity. A conflict escapes with no write |
| AdminController.Create | Controllers/AdminController.cs:51-55 | the Edit view of a new product with identity 0, so that saving it creates one, with the category list |
| AdminController.Delete | Controllers/AdminController.cs:57-71 | always redirects to Index. A present product is removed and named in the message. An absent one leaves the repository unchanged, with the not-found message and type "danger". Afterwards no product has the identity |

## Left out

- Routing, dependency injection, authentication and authorisation (JWT
  bearer, roles, antiforgery), logging, and the async/await plumbing of
  every action. The actions are modelled as the synchronous computations
  they perform.
- The account API, the home controller, the customer entity and the
  identity seeding are not part of this model.
- `ProductController.Create` (GET and POST), `ErrorExample` and
  `SimulateError` are left out. They only render views, log, or assign a
  random identity (`new Random()`), and they touch no stored state.
- PostProduct: the 201 response reads `product.ProductID` after the save
  (Areas/Admin/Controllers/ProductsApiController.cs:48-52). That names the
  new identity only if the repository writes the key back into the
  caller's object. The model assumes it does: `SaveProduct` returns the
  identity and the controller puts it into the product it reports. The
  write-back into the shared object (aliasing) is not modelled.
- The repository implementation registered in Program.cs is not part of this
  model. Its behaviour is the one the controllers rely on, as stated in
  `repository.dfy`. Whether another request interfered is the
  `concurrentEdit` parameter.
- Model validation (the data annotations on Product) is not part of this
  model. Its outcome is the `modelValid` parameter.
- Culture-sensitive string ordering is not modelled. `OrderBy(c => c)` on
  category names uses the current culture's collation; the model uses
  ordinal order. The two can disagree on names with accents or mixed case.
- ProductController.FilterProducts: filter bounds are whole cents, as stored
  prices are. A bound with more than two decimals is equivalent to the bound
  rounded towards the inside of the range, which the model does not show.
- ProductController.SortById: stability (equal identities keep their input
  order) is not proved. With unique identities, which the repository
  invariant guarantees, the order is fully determined
  (`ListedStrictlyAscending`).
- Rendering of views, ViewBag and TempData is not modelled. The model states
  the values handed to them.
- ProductController.List: the page window uses the unbounded skip count
  `(productPage - 1) * itemsPerPage`. It agrees with the code exactly when
  that product fits in an `int` (the second ensures of
  `Paging.PageAsWritten`). For page numbers where the product overflows, the
  code's window is `PageAsWritten`, described under "## Findings".
- Integer width: apart from the page window, identities and the identity
  counter are unbounded integers. Database identity overflow is not
  modelled.

## Findings

| source | as written | input that shows it | evidently intended | confidence | as-written member | corrected member |
|---|---|---|---|---|---|---|
| Controllers/ProductController.cs:101 | the skip count `(productPage - 1) * itemsPerPage` is computed in unchecked 32-bit `int` arithmetic and wraps around | five products, four per page, `productPage` = 1073741825: the product 2^30 × 4 wraps to a skip count of 0, and the first page is shown again. Five products, five per page, `productPage` = -536870912: the product (-2^29 - 1) × 5 wraps to the skip count 1610612731, and the page is empty instead of page 1 | a page past the last page is empty, and a page below 1 shows page 1 | not executed | Paging.PageAsWrittenWrapsAround | Paging.PageOutOfRange |
