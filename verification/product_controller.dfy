/**
  The storefront's catalog pages (ProductController): the paginated,
  category-filtered listing, the price/category filter, and the product
  detail lookup. Each action is a function of the repository's product
  sequence and its request parameters; the view it renders is its result.
 */
module ProductController {
  import opened Domain
  import opened Query
  import opened Paging
  import opened Ordinal

  /** The label shown as the current category when none is selected. */
  const AllProductsLabel: string := "Tất cả sản phẩm"

  /**
    What `List` hands to its view: the page of products as its model, and
    the ViewBag values Categories, CurrentCategory, CurrentPage, TotalItems
    and ItemsPerPage.
   */
  datatype ListView = ListView(
    products: seq<Product>,
    categories: seq<string>,
    currentCategory: string,
    currentPage: int,
    totalItems: nat,
    itemsPerPage: int)

  datatype DetailsResult = DetailsView(product: Product) | DetailsNotFound

  // ---------------------------------------------------------------------
  // Ordering by ProductID

  ghost predicate SortedById(s: seq<Product>) {
    forall i, j :: 0 <= i < j < |s| ==> s[i].productId <= s[j].productId
  }

  /** The head of a sorted list has the smallest identity. */
  lemma SortedHead(s: seq<Product>)
    requires SortedById(s) && s != []
    ensures forall q :: q in s[1..] ==> s[0].productId <= q.productId
  {
    forall q | q in s[1..] ensures s[0].productId <= q.productId {
      var k :| 0 <= k < |s[1..]| && s[1..][k] == q;
      assert s[k + 1] == q;
    }
  }

  /** A contiguous window of a sorted list is sorted. */
  lemma WindowSorted(s: seq<Product>, lo: int, hi: int)
    requires SortedById(s) && 0 <= lo <= hi <= |s|
    ensures SortedById(s[lo..hi])
  {
    assert forall i :: 0 <= i < hi - lo ==> s[lo..hi][i] == s[lo + i];
  }

  /** A product placed ahead of a sorted list whose identities are not smaller keeps it sorted. */
  lemma ConsSorted(p: Product, s: seq<Product>)
    requires SortedById(s)
    requires forall q :: q in s ==> p.productId <= q.productId
    ensures SortedById([p] + s)
  {
    var r := [p] + s;
    forall i, j | 0 <= i < j < |r| ensures r[i].productId <= r[j].productId {
      assert r[j] == s[j - 1];
      if i > 0 {
        assert r[i] == s[i - 1];
      }
    }
  }

  /** `p` placed before the first element whose identity is not smaller. */
  function InsertById(p: Product, s: seq<Product>): (r: seq<Product>)
    requires SortedById(s)
    ensures SortedById(r)
    ensures multiset(r) == multiset(s) + multiset{p}
  {
    if s == [] || p.productId <= s[0].productId then
      assert forall q :: q in s ==> p.productId <= q.productId by {
        if s != [] {
          SortedHead(s);
          assert s == [s[0]] + s[1..];
        }
      }
      ConsSorted(p, s);
      [p] + s
    else
      WindowSorted(s, 1, |s|);
      assert s[1..|s|] == s[1..];
      var rest := InsertById(p, s[1..]);
      AboveHead(p, s, rest);
      ConsSorted(s[0], rest);
      assert s == [s[0]] + s[1..];
      assert multiset([s[0]] + rest) == multiset{s[0]} + multiset(rest);
      [s[0]] + rest
  }

  /** Inserting a larger identity into the tail of a sorted list leaves the head smallest. */
  lemma AboveHead(p: Product, s: seq<Product>, rest: seq<Product>)
    requires SortedById(s) && s != [] && s[0].productId < p.productId
    requires multiset(rest) == multiset(s[1..]) + multiset{p}
    ensures forall q :: q in rest ==> s[0].productId <= q.productId
  {
    SortedHead(s);
    forall q | q in rest ensures s[0].productId <= q.productId {
      assert q in multiset(rest);
      assert q in multiset(s[1..]) || q == p;
    }
  }

  /**
    `OrderBy(p => p.ProductID)`: a stable sort (each element is inserted
    ahead of equal keys that came after it in the input).
   */
  function SortById(s: seq<Product>): (r: seq<Product>)
    ensures SortedById(r)
    ensures multiset(r) == multiset(s)
  {
    if s == [] then []
    else
      assert s == [s[0]] + s[1..];
      InsertById(s[0], SortById(s[1..]))
  }

  /** A product placed ahead of a list none of whose identities it shares keeps them unique. */
  lemma ConsUnique(p: Product, s: seq<Product>)
    requires UniqueIds(s)
    requires forall q :: q in s ==> q.productId != p.productId
    ensures UniqueIds([p] + s)
  {
    var r := [p] + s;
    forall i, j | 0 <= i < j < |r| ensures r[i].productId != r[j].productId {
      assert r[j] == s[j - 1];
      if i > 0 {
        assert r[i] == s[i - 1];
      }
    }
  }

  lemma {:induction false} InsertKeepsUniqueIds(p: Product, s: seq<Product>)
    requires SortedById(s) && UniqueIds(s)
    requires forall q :: q in s ==> q.productId != p.productId
    ensures UniqueIds(InsertById(p, s))
  {
    if s == [] || p.productId <= s[0].productId {
      ConsUnique(p, s);
    } else {
      var tail := s[1..];
      WindowSorted(s, 1, |s|);
      assert s[1..|s|] == tail;
      assert UniqueIds(tail) by {
        forall i, j | 0 <= i < j < |tail| ensures tail[i].productId != tail[j].productId {
          assert tail[i] == s[i + 1] && tail[j] == s[j + 1];
        }
      }
      InsertKeepsUniqueIds(p, tail);
      var rest := InsertById(p, tail);
      forall q | q in rest ensures q.productId != s[0].productId {
        assert q in multiset(rest);
        assert q in tail || q == p;
        if q in tail {
          var k :| 0 <= k < |tail| && tail[k] == q;
          assert s[k + 1] == q;
        }
      }
      ConsUnique(s[0], rest);
    }
  }

  /** Sorting a list with unique identities keeps them unique. */
  lemma {:induction false} SortKeepsUniqueIds(s: seq<Product>)
    requires UniqueIds(s)
    ensures UniqueIds(SortById(s))
  {
    if s != [] {
      SortKeepsUniqueIds(s[1..]);
      var rest := SortById(s[1..]);
      forall q | q in rest ensures q.productId != s[0].productId {
        assert q in multiset(rest);
        var k :| 0 <= k < |s[1..]| && s[1..][k] == q;
        assert s[k + 1] == q;
      }
      InsertKeepsUniqueIds(s[0], rest);
    }
  }

  /** Sorted with unique identities: identities strictly ascend, so no product repeats. */
  lemma SortedUniqueIsDistinct(s: seq<Product>)
    requires SortedById(s) && UniqueIds(s)
    ensures forall i, j :: 0 <= i < j < |s| ==> s[i].productId < s[j].productId
    ensures Distinct(s)
  {
  }

  // ---------------------------------------------------------------------
  // Categories

  /** The category names of the products, ordinally sorted, each once. */
  function CategoryNames(products: seq<Product>): (r: seq<string>)
    ensures StrictlyAscending(r)
    ensures forall c :: c in r <==> exists p :: p in products && p.categoryRef.name == c
  {
    if products == [] then []
    else
      var rest := CategoryNames(products[1..]);
      assert products == [products[0]] + products[1..];
      InsertDistinct(products[0].categoryRef.name, rest)
  }

  /**
    The category list is determined by its two properties: any strictly
    ascending list holding exactly the names in use (the result of
    Select, Distinct and OrderBy) equals `CategoryNames`.
   */
  lemma CategoryNamesDetermined(products: seq<Product>, names: seq<string>)
    requires StrictlyAscending(names)
    requires forall c :: c in names <==> exists p :: p in products && p.categoryRef.name == c
    ensures names == CategoryNames(products)
  {
    AscendingUnique(names, CategoryNames(products));
  }

  // ---------------------------------------------------------------------
  // List

  /** Only a null category means "all": an empty string matches only the empty name. */
  predicate InCategory(p: Product, category: Option<string>)
    ensures category.None? ==> InCategory(p, category)
    ensures category == Some("") ==> (InCategory(p, category) <==> p.categoryRef.name == "")
  {
    category.None? || p.categoryRef.name == category.value
  }

  /** The predicate of the listing's `Where`. */
  function InCategoryTest(category: Option<string>): Product -> bool {
    p => InCategory(p, category)
  }

  /** `Where(p => category == null || p.CategoryRef.Name == category)`. */
  function CategoryQuery(products: seq<Product>, category: Option<string>): (r: seq<Product>)
    ensures |r| <= |products|
    ensures forall p :: p in r <==> p in products && InCategory(p, category)
    ensures category.None? ==> r == products
  {
    var keep := InCategoryTest(category);
    if category.None? then
      WhereAll(products, keep);
      Where(products, keep)
    else Where(products, keep)
  }

  /** The products a category listing pages through, in listing order. */
  function Listed(products: seq<Product>, category: Option<string>): (r: seq<Product>)
    ensures SortedById(r)
    ensures multiset(r) == multiset(CategoryQuery(products, category))
    ensures forall p :: p in r <==> p in products && InCategory(p, category)
  {
    var query := CategoryQuery(products, category);
    var r := SortById(query);
    assert forall p :: p in r <==> p in query by {
      forall p ensures p in r <==> p in query {
        assert p in r <==> p in multiset(r);
      }
    }
    r
  }

  /**
    `List(category, productPage)` with the configured page size: page
    `productPage` of the matching products ordered by identity, plus the
    ViewBag values.
   */
  function List(products: seq<Product>, category: Option<string>, productPage: int, itemsPerPage: int): (r: ListView)
    ensures |r.products| <= itemsPerPage || r.products == []
    ensures SortedById(r.products)
    ensures forall p :: p in r.products ==> p in products && InCategory(p, category)
    ensures r.totalItems <= |products|
    ensures category.None? ==> r.totalItems == |products|
    ensures StrictlyAscending(r.categories)
    ensures forall c :: c in r.categories <==> exists p :: p in products && p.categoryRef.name == c
    ensures r.currentCategory == if category.Some? then category.value else AllProductsLabel
    ensures r.currentPage == productPage && r.itemsPerPage == itemsPerPage
  {
    var query := CategoryQuery(products, category);
    var sorted := Listed(products, category);
    var page := Page(sorted, productPage, itemsPerPage);
    assert SortedById(page) && forall p :: p in page ==> p in sorted by {
      if itemsPerPage > 0 {
        WindowSorted(sorted, PageStart(productPage, itemsPerPage, |sorted|), PageEnd(productPage, itemsPerPage, |sorted|));
      }
    }
    ListView(
      page,
      CategoryNames(products),
      if category.Some? then category.value else AllProductsLabel,
      productPage,
      |query|,
      itemsPerPage)
  }

  /**
    The listing's order and contents: sorted by identity, and each product
    occurs as often as in the repository if it is in the category, and not
    at all otherwise.
   */
  lemma ListedSpec(products: seq<Product>, category: Option<string>, p: Product)
    ensures SortedById(Listed(products, category))
    ensures multiset(Listed(products, category))[p] == if InCategory(p, category) then multiset(products)[p] else 0
  {
    WhereCount(products, InCategoryTest(category), p);
  }

  /**
    Over a repository with unique identities the listing's identities
    strictly ascend; no other sequence has the listing's elements in that
    order, so the listing is reproducible.
   */
  lemma ListedStrictlyAscending(products: seq<Product>, category: Option<string>)
    requires UniqueIds(products)
    ensures forall i, j :: 0 <= i < j < |Listed(products, category)| ==>
      Listed(products, category)[i].productId < Listed(products, category)[j].productId
    ensures Distinct(Listed(products, category))
  {
    var query := CategoryQuery(products, category);
    forall i, j | 0 <= i < j < |query| ensures query[i].productId != query[j].productId {
      WhereUniqueIds(products, InCategoryTest(category));
    }
    SortKeepsUniqueIds(query);
    SortedUniqueIsDistinct(Listed(products, category));
  }

  lemma {:induction false} WhereUniqueIds(s: seq<Product>, keep: Product -> bool)
    requires UniqueIds(s)
    ensures UniqueIds(Where(s, keep))
  {
    if s != [] {
      WhereUniqueIds(s[1..], keep);
      var rest := Where(s[1..], keep);
      forall q | q in rest ensures q.productId != s[0].productId {
        var k :| 0 <= k < |s[1..]| && s[1..][k] == q;
        assert s[k + 1] == q;
      }
    }
  }

  /** The page shown is page `productPage` of the listing; the total counts the whole listing. */
  lemma ListIsPageOfListed(products: seq<Product>, category: Option<string>, productPage: int, itemsPerPage: int)
    ensures List(products, category, productPage, itemsPerPage).products == Page(Listed(products, category), productPage, itemsPerPage)
    ensures List(products, category, productPage, itemsPerPage).totalItems == |Listed(products, category)|
  {
    var query := CategoryQuery(products, category);
    assert |SortById(query)| == |multiset(SortById(query))| == |multiset(query)| == |query|;
  }

  /** TotalItems is the same whichever page is asked for. */
  lemma TotalItemsIgnoresPage(products: seq<Product>, category: Option<string>, page1: int, page2: int, itemsPerPage: int)
    ensures List(products, category, page1, itemsPerPage).totalItems == List(products, category, page2, itemsPerPage).totalItems
  {
  }

  /**
    The pages the listing shows, from 1 to ceil(TotalItems / ItemsPerPage),
    put together in order, are the whole listing, each product once.
   */
  lemma ListPagesCoverListing(products: seq<Product>, category: Option<string>, itemsPerPage: int)
    requires itemsPerPage > 0
    ensures Pages(Listed(products, category), itemsPerPage, PageCount(List(products, category, 1, itemsPerPage).totalItems, itemsPerPage))
         == Listed(products, category)
  {
    ListIsPageOfListed(products, category, 1, itemsPerPage);
    AllPagesRebuildList(Listed(products, category), itemsPerPage);
  }

  /**
    A page number past the last page shows nothing and one from 1 up to it
    shows something; one below 1 shows the first page, so something unless
    the listing is empty.
   */
  lemma ListPageInRange(products: seq<Product>, category: Option<string>, productPage: int, itemsPerPage: int)
    requires itemsPerPage > 0
    ensures var r := List(products, category, productPage, itemsPerPage);
      r.products == [] <==> r.totalItems == 0 || productPage > PageCount(r.totalItems, itemsPerPage)
  {
    ListIsPageOfListed(products, category, productPage, itemsPerPage);
    var l := Listed(products, category);
    var r := List(products, category, productPage, itemsPerPage);
    var count := PageCount(|l|, itemsPerPage);
    assert r.products == Page(l, productPage, itemsPerPage) && r.totalItems == |l|;
    assert count == 0 <==> |l| == 0;
    var page := if productPage < 1 then 1 else productPage;
    assert Page(l, productPage, itemsPerPage) == Page(l, page, itemsPerPage) by {
      if productPage < 1 {
        PageBeforeFirst(l, productPage, itemsPerPage);
      }
    }
    if page > count {
      LaterPageEmpty(l, page, itemsPerPage);
    } else {
      PageInRangeNonEmpty(l, page, itemsPerPage);
    }
  }

  /** Over a repository with unique identities, two different pages share no product. */
  lemma ListPagesDisjoint(products: seq<Product>, category: Option<string>, page1: int, page2: int, itemsPerPage: int)
    requires UniqueIds(products)
    requires page1 >= 1 && page2 >= 1 && page1 != page2 && itemsPerPage > 0
    ensures forall p :: p in List(products, category, page1, itemsPerPage).products ==>
      p !in List(products, category, page2, itemsPerPage).products
  {
    ListIsPageOfListed(products, category, page1, itemsPerPage);
    ListIsPageOfListed(products, category, page2, itemsPerPage);
    ListedStrictlyAscending(products, category);
    PagesDisjoint(Listed(products, category), page1, page2, itemsPerPage);
  }

  /** A category no product has: nothing to count and an empty page, whatever the page number. */
  lemma ListUnknownCategory(products: seq<Product>, name: string, productPage: int, itemsPerPage: int)
    requires forall p :: p in products ==> p.categoryRef.name != name
    ensures List(products, Some(name), productPage, itemsPerPage).totalItems == 0
    ensures List(products, Some(name), productPage, itemsPerPage).products == []
  {
    WhereNone(products, InCategoryTest(Some(name)));
  }

  // ---------------------------------------------------------------------
  // FilterProducts

  /** Every criterion the filter sets holds of `p`; InStockOnly is not consulted. */
  predicate Satisfies(filter: ProductFilter, p: Product) {
    CategoryCriterion(filter)(p) && MinCriterion(filter)(p) && MaxCriterion(filter)(p)
  }

  /** The category criterion: met by every product unless a non-empty category is set. */
  function CategoryCriterion(filter: ProductFilter): Product -> bool {
    (p: Product) => filter.category.None? || filter.category.value == "" || p.categoryRef.name == filter.category.value
  }

  /** The minimum-price criterion: met by every product unless a minimum is set. */
  function MinCriterion(filter: ProductFilter): Product -> bool {
    (p: Product) => filter.minPrice.None? || p.price >= filter.minPrice.value
  }

  /** The maximum-price criterion: met by every product unless a maximum is set. */
  function MaxCriterion(filter: ProductFilter): Product -> bool {
    (p: Product) => filter.maxPrice.None? || p.price <= filter.maxPrice.value
  }

  function NameIs(name: string): Product -> bool {
    (p: Product) => p.categoryRef.name == name
  }

  function PriceAtLeast(min: int): Product -> bool {
    (p: Product) => p.price >= min
  }

  function PriceAtMost(max: int): Product -> bool {
    (p: Product) => p.price <= max
  }

  /** The conjunction of the set criteria, as one predicate. */
  function SatisfiesTest(filter: ProductFilter): Product -> bool {
    (p: Product) => Satisfies(filter, p)
  }

  /** First narrowing: by category name, only when the category is non-empty. */
  function NarrowByCategory(s: seq<Product>, filter: ProductFilter): (r: seq<Product>)
    ensures r == Where(s, CategoryCriterion(filter))
  {
    if filter.category.Some? && filter.category.value != "" then
      var name := filter.category.value;
      WhereExt(s, NameIs(name), CategoryCriterion(filter));
      Where(s, NameIs(name))
    else
      WhereAll(s, CategoryCriterion(filter));
      s
  }

  /** Second narrowing: by minimum price, when one is set. */
  function NarrowByMin(s: seq<Product>, filter: ProductFilter): (r: seq<Product>)
    ensures r == Where(s, MinCriterion(filter))
  {
    if filter.minPrice.Some? then
      var min := filter.minPrice.value;
      WhereExt(s, PriceAtLeast(min), MinCriterion(filter));
      Where(s, PriceAtLeast(min))
    else
      WhereAll(s, MinCriterion(filter));
      s
  }

  /** Third narrowing: by maximum price, when one is set. */
  function NarrowByMax(s: seq<Product>, filter: ProductFilter): (r: seq<Product>)
    ensures r == Where(s, MaxCriterion(filter))
  {
    if filter.maxPrice.Some? then
      var max := filter.maxPrice.value;
      WhereExt(s, PriceAtMost(max), MaxCriterion(filter));
      Where(s, PriceAtMost(max))
    else
      WhereAll(s, MaxCriterion(filter));
      s
  }

  /**
    `FilterProducts(filter)`: starting from all products, narrow once per
    criterion that is set (a category only when it is non-empty).
   */
  function FilterProducts(products: seq<Product>, filter: ProductFilter): (r: seq<Product>)
    ensures |r| <= |products|
    ensures forall p :: p in r <==> p in products && Satisfies(filter, p)
  {
    NarrowByMax(NarrowByMin(NarrowByCategory(products, filter), filter), filter)
  }

  /** The three chained narrowings are one `Where` by the conjunction of the set criteria. */
  lemma FilterProductsIsConjunction(products: seq<Product>, filter: ProductFilter)
    ensures FilterProducts(products, filter) == Where(products, SatisfiesTest(filter))
  {
    var cat, low, high := CategoryCriterion(filter), MinCriterion(filter), MaxCriterion(filter);
    var catLow: Product -> bool := (p: Product) => cat(p) && low(p);
    WhereWhere(products, cat, low, catLow);
    WhereWhere(products, catLow, high, SatisfiesTest(filter));
  }

  /** The filter keeps the repository's order: its result is a subsequence of it. */
  lemma FilterProductsKeepsOrder(products: seq<Product>, filter: ProductFilter)
    ensures IsSubsequence(FilterProducts(products, filter), products)
  {
    FilterProductsIsConjunction(products, filter);
    WhereIsSubsequence(products, SatisfiesTest(filter));
  }

  /** A filter that sets nothing (or only an empty category) returns every product, in order. */
  lemma EmptyFilterKeepsAll(products: seq<Product>, filter: ProductFilter)
    requires filter.category.None? || filter.category.value == ""
    requires filter.minPrice.None? && filter.maxPrice.None?
    ensures FilterProducts(products, filter) == products
  {
    FilterProductsIsConjunction(products, filter);
    WhereAll(products, SatisfiesTest(filter));
  }

  /** InStockOnly has no effect on the result. */
  lemma InStockOnlyIgnored(products: seq<Product>, filter: ProductFilter)
    ensures FilterProducts(products, filter) == FilterProducts(products, filter.(inStockOnly := !filter.inStockOnly))
  {
  }

  // ---------------------------------------------------------------------
  // Details

  /** `Details(id)`: the first product with that identity, or NotFound. */
  function Details(products: seq<Product>, id: int): (r: DetailsResult)
    ensures r.DetailsNotFound? <==> forall p :: p in products ==> p.productId != id
    ensures r.DetailsView? ==> r.product in products && IsFirstWithId(products, id, r.product)
  {
    match FirstWithId(products, id)
    case None => DetailsNotFound
    case Some(p) => DetailsView(p)
  }
}
