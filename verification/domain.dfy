/**
  The storefront's domain entities: categories, products and the transient
  product filter, together with the lookups by product identity that every
  controller performs on a product sequence.
 */
module Domain {

  datatype Option<+T> = None | Some(value: T)

  /** A catalog category; `name` is what products are listed and filtered by. */
  datatype Category = Category(categoryId: int, name: string)

  /**
    A product row. `price` is in cents: the column is decimal(18, 2), so every
    stored price is a whole number of cents. `categoryRef` is the navigation
    property the controllers read the category name through.
   */
  datatype Product = Product(
    productId: int,
    name: string,
    description: string,
    price: int,
    imageUrl: string,
    isFeatured: bool,
    categoryId: int,
    categoryRef: Category)

  /**
    The query descriptor bound from the request. Prices are in cents; a bound
    with more than two decimals is equivalent, on cent-valued prices, to the
    bound rounded towards the inside of the range.
   */
  datatype ProductFilter = ProductFilter(
    category: Option<string>,
    minPrice: Option<int>,
    maxPrice: Option<int>,
    inStockOnly: bool)

  /**
    `new Product()`: every field at its default. Identity 0 is the "not yet
    stored" sentinel, so saving this product creates one. The category
    reference, unset in a fresh object, is an empty category here.
   */
  function DefaultProduct(): (p: Product)
    ensures p.productId == 0 && p.categoryId == 0 && p.price == 0 && !p.isFeatured
    ensures p.name == "" && p.description == "" && p.imageUrl == ""
  {
    Product(0, "", "", 0, "", false, 0, Category(0, ""))
  }

  /** No two products share an identity (the table's primary key). */
  ghost predicate UniqueIds(s: seq<Product>) {
    forall i, j :: 0 <= i < j < |s| ==> s[i].productId != s[j].productId
  }

  /**
    Index of the first product with identity `id`, or -1: the position that
    `FirstOrDefault(p => p.ProductID == id)` stops at.
   */
  function IndexOfId(s: seq<Product>, id: int): (i: int)
    ensures -1 <= i < |s|
    ensures 0 <= i ==> s[i].productId == id
    ensures 0 <= i ==> forall j :: 0 <= j < i ==> s[j].productId != id
    ensures i < 0 <==> forall j :: 0 <= j < |s| ==> s[j].productId != id
  {
    if s == [] then -1
    else if s[0].productId == id then 0
    else
      var k := IndexOfId(s[1..], id);
      if k < 0 then -1 else k + 1
  }

  /** `p` is the first product in `s` with identity `id`. */
  ghost predicate IsFirstWithId(s: seq<Product>, id: int, p: Product) {
    p.productId == id &&
    exists i :: 0 <= i < |s| && s[i] == p && forall j :: 0 <= j < i ==> s[j].productId != id
  }

  /** `FirstOrDefault(p => p.ProductID == id)`, with `None` for null. */
  function FirstWithId(s: seq<Product>, id: int): (r: Option<Product>)
    ensures r.None? <==> forall p :: p in s ==> p.productId != id
    ensures r.Some? ==> r.value in s && IsFirstWithId(s, id, r.value)
  {
    var i := IndexOfId(s, id);
    if i < 0 then None else Some(s[i])
  }

  /** `Any(p => p.ProductID == id)`. */
  predicate AnyWithId(s: seq<Product>, id: int)
    ensures AnyWithId(s, id) <==> exists p :: p in s && p.productId == id
  {
    s != [] && (s[0].productId == id || AnyWithId(s[1..], id))
  }

  /** With unique identities the first match is the only match. */
  lemma {:induction false} FirstWithIdIsUnique(s: seq<Product>, id: int, p: Product)
    requires UniqueIds(s)
    requires p in s && p.productId == id
    ensures FirstWithId(s, id) == Some(p)
  {
    var i := IndexOfId(s, id);
    var k :| 0 <= k < |s| && s[k] == p;
    assert 0 <= i;
    assert i == k;
  }
}
