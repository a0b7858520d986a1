/**
  The admin JSON API over products (ProductsApiController): list, get,
  create, update and delete, each mapped to an HTTP outcome. Reads are
  functions of the repository; writes are methods that change it.
  `modelValid` is the outcome of the framework's model validation of the
  request body (ModelState.IsValid).
 */
module ProductsApiController {
  import opened Domain
  import opened Repository

  datatype ApiResult =
    | OkList(items: seq<Product>)        // 200 with a list of products
    | OkItem(item: Product)              // 200 with one product
    | NotFound                           // 404
    | BadRequest                         // 400
    | CreatedAt(id: int, item: Product)  // 201, locating GetProduct(id)
    | NoContent                          // 204
    | ConcurrencyFailure                 // the conflict is rethrown out of the action

  /** GET api/admin/products: every stored product, unfiltered and in repository order. */
  function GetProducts(repo: ProductRepository): (r: ApiResult)
    reads repo
    ensures r.OkList? && r.items == repo.products
  {
    OkList(repo.products)
  }

  /** Some stored product has identity `id`. */
  predicate ProductExists(repo: ProductRepository, id: int)
    reads repo
    ensures ProductExists(repo, id) <==> exists p :: p in repo.products && p.productId == id
  {
    AnyWithId(repo.products, id)
  }

  /** GET api/admin/products/{id}: that product, or 404 when there is none. */
  function GetProduct(repo: ProductRepository, id: int): (r: ApiResult)
    reads repo
    ensures r.OkItem? || r.NotFound?
    ensures r.NotFound? <==> forall p :: p in repo.products ==> p.productId != id
    ensures r.OkItem? ==> r.item in repo.products && IsFirstWithId(repo.products, id, r.item)
  {
    match FirstWithId(repo.products, id)
    case None => NotFound
    case Some(p) => OkItem(p)
  }

  /**
    The single-product lookup agrees with the list and with the existence
    check: it finds exactly the listed product with that identity.
   */
  lemma GetProductAgreesWithGetProducts(repo: ProductRepository, id: int, p: Product)
    requires repo.Valid()
    requires p in GetProducts(repo).items && p.productId == id
    ensures GetProduct(repo, id) == OkItem(p)
    ensures ProductExists(repo, id)
  {
    FirstWithIdIsUnique(repo.products, id, p);
  }

  /**
    POST api/admin/products: 400 on an invalid body, with nothing stored;
    otherwise the product is saved (ProductID 0 creates it under a fresh
    identity) and 201 names the identity it was saved under. A non-zero
    ProductID updates instead, and a conflict there escapes the action.
   */
  method PostProduct(repo: ProductRepository, product: Product, modelValid: bool, concurrentEdit: bool)
    returns (r: ApiResult)
    requires repo.Valid()
    modifies repo
    ensures repo.Valid()
    ensures r.BadRequest? || r.CreatedAt? || r.ConcurrencyFailure?
    ensures !modelValid ==> r == BadRequest
    ensures !r.CreatedAt? ==> repo.products == old(repo.products) && repo.nextId == old(repo.nextId)
    ensures r.CreatedAt? ==> r.item.productId == r.id && GetProduct(repo, r.id) == OkItem(r.item)
    ensures modelValid && product.productId == 0 ==>
      && r == CreatedAt(old(repo.nextId), product.(productId := old(repo.nextId)))
      && !AnyWithId(old(repo.products), r.id)
      && repo.products == old(repo.products) + [r.item]
    ensures modelValid && product.productId != 0 ==>
      if !concurrentEdit && AnyWithId(old(repo.products), product.productId) then
        && r == CreatedAt(product.productId, product)
        && repo.products == old(repo.products)[IndexOfId(old(repo.products), product.productId) := product]
      else r == ConcurrencyFailure
  {
    if !modelValid {
      return BadRequest;
    }
    var outcome := repo.SaveProduct(product, concurrentEdit);
    match outcome
    case ConcurrencyConflict =>
      r := ConcurrencyFailure;
    case Saved(id) =>
      r := CreatedAt(id, product.(productId := id));
      if product.productId != 0 {
        assert repo.products[IndexOfId(old(repo.products), id)] == r.item;
      }
      FirstWithIdIsUnique(repo.products, id, r.item);
  }

  /**
    PUT api/admin/products/{id}: 400 when the route and body identities
    differ (checked first) or the body is invalid, with nothing written;
    otherwise the product is saved and 204 returned. A conflict on save
    becomes 404 when no product with `id` exists any more and escapes the
    action otherwise.
   */
  method PutProduct(repo: ProductRepository, id: int, product: Product, modelValid: bool, concurrentEdit: bool)
    returns (r: ApiResult)
    requires repo.Valid()
    modifies repo
    ensures repo.Valid()
    ensures r.BadRequest? || r.NoContent? || r.NotFound? || r.ConcurrencyFailure?
    ensures id != product.productId ==> r == BadRequest
    ensures id == product.productId && !modelValid ==> r == BadRequest
    ensures !r.NoContent? ==> repo.products == old(repo.products) && repo.nextId == old(repo.nextId)
    ensures id == product.productId && modelValid && id != 0 ==>
      && (r == NotFound <==> !AnyWithId(old(repo.products), id))
      && (r == ConcurrencyFailure <==> AnyWithId(old(repo.products), id) && concurrentEdit)
      && (r == NoContent <==> AnyWithId(old(repo.products), id) && !concurrentEdit)
      && (r == NoContent ==> repo.products == old(repo.products)[IndexOfId(old(repo.products), id) := product])
      && (r == NoContent ==> GetProduct(repo, id) == OkItem(product))
    ensures id == product.productId && modelValid && id == 0 ==>
      && r == NoContent
      && repo.products == old(repo.products) + [product.(productId := old(repo.nextId))]
      && GetProduct(repo, old(repo.nextId)) == OkItem(product.(productId := old(repo.nextId)))
  {
    if id != product.productId {
      return BadRequest;
    }
    if !modelValid {
      return BadRequest;
    }
    var outcome := repo.SaveProduct(product, concurrentEdit);
    if outcome.ConcurrencyConflict? {
      if !ProductExists(repo, id) {
        return NotFound;
      } else {
        return ConcurrencyFailure;
      }
    }
    r := NoContent;
    if id != 0 {
      assert repo.products[IndexOfId(old(repo.products), id)] == product;
      FirstWithIdIsUnique(repo.products, id, product);
    } else {
      FirstWithIdIsUnique(repo.products, outcome.productId, product.(productId := outcome.productId));
    }
  }

  /**
    DELETE api/admin/products/{id}: 404 when the repository had no such
    product, leaving it unchanged; 204 once it is removed.
   */
  method DeleteProduct(repo: ProductRepository, id: int) returns (r: ApiResult)
    requires repo.Valid()
    modifies repo
    ensures repo.Valid() && repo.nextId == old(repo.nextId)
    ensures r == NotFound || r == NoContent
    ensures r == NotFound <==> !AnyWithId(old(repo.products), id)
    ensures r == NotFound ==> repo.products == old(repo.products)
    ensures r == NoContent ==> repo.products == RemoveAt(old(repo.products), IndexOfId(old(repo.products), id))
    ensures GetProduct(repo, id) == NotFound
  {
    var product := repo.DeleteProduct(id);
    if product.None? {
      return NotFound;
    }
    r := NoContent;
  }
}
