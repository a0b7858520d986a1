/**
  The product repository the admin controllers write through. Its
  implementation is not part of this model; what the controllers rely on
  is stated next to their calls: saving a product whose ProductID is 0
  creates it (the store assigns the identity), saving one with a non-zero
  ProductID updates the stored product with that identity, and deleting
  returns the removed product or null.

  An update whose target row is gone, or was changed by another request
  since it was read, fails with a concurrency conflict and writes nothing.
  Whether another request interfered is not visible to this request, so it
  is the `concurrentEdit` argument.

  On a create, the store writes the assigned identity back into the
  caller's product object, and the API then reads it from there. Here
  `SaveProduct` returns that identity instead; the write-back through the
  shared object is not modelled.
 */
module Repository {
  import opened Domain

  datatype SaveOutcome = Saved(productId: int) | ConcurrencyConflict

  /** `s` without its element at index `i`. */
  function RemoveAt(s: seq<Product>, i: int): (r: seq<Product>)
    requires 0 <= i < |s|
    ensures |r| == |s| - 1
    ensures forall q :: q in r ==> q in s
  {
    s[..i] + s[i + 1..]
  }

  /**
    Removing one product from a list with unique identities keeps them
    unique and leaves no product with the removed one's identity.
   */
  lemma RemoveAtUnique(s: seq<Product>, i: int)
    requires UniqueIds(s) && 0 <= i < |s|
    ensures UniqueIds(RemoveAt(s, i))
    ensures forall q :: q in RemoveAt(s, i) ==> q.productId != s[i].productId
  {
    var r := RemoveAt(s, i);
    assert forall j :: 0 <= j < |r| ==> r[j] == s[if j < i then j else j + 1];
    forall q | q in r ensures q.productId != s[i].productId {
      var j :| 0 <= j < |r| && r[j] == q;
    }
  }

  /** The largest identity in `s`, or 0 when `s` is empty. */
  function MaxId(s: seq<Product>): (m: int)
    ensures 0 <= m
    ensures forall p :: p in s ==> p.productId <= m
  {
    if s == [] then 0
    else
      var rest := MaxId(s[1..]);
      assert s == [s[0]] + s[1..];
      if s[0].productId > rest then s[0].productId else rest
  }

  class ProductRepository {
    /** The stored products, in the order the repository lists them. */
    var products: seq<Product>
    /** The identity the next created product receives. */
    var nextId: int

    /** Identities are unique, positive, and below the next one to be handed out. */
    ghost predicate Valid()
      reads this
    {
      && 1 <= nextId
      && UniqueIds(products)
      && forall p :: p in products ==> 0 < p.productId < nextId
    }

    /** A repository holding `seed`, e.g. the three seeded sample products. */
    constructor (seed: seq<Product>)
      requires UniqueIds(seed)
      requires forall p :: p in seed ==> 0 < p.productId
      ensures Valid()
      ensures products == seed
    {
      products := seed;
      nextId := MaxId(seed) + 1;
    }

    /**
      Create (ProductID 0) or update (any other ProductID). A create stores
      the product under a fresh identity and reports it; an update replaces
      the stored product with that identity, or fails with a conflict.
     */
    method SaveProduct(p: Product, concurrentEdit: bool) returns (outcome: SaveOutcome)
      requires Valid()
      modifies this
      ensures Valid()
      ensures p.productId == 0 ==>
        && outcome == Saved(old(nextId))
        && !AnyWithId(old(products), old(nextId))
        && products == old(products) + [p.(productId := old(nextId))]
        && nextId == old(nextId) + 1
      ensures p.productId != 0 && (concurrentEdit || !AnyWithId(old(products), p.productId)) ==>
        && outcome == ConcurrencyConflict
        && products == old(products)
        && nextId == old(nextId)
      ensures p.productId != 0 && !concurrentEdit && AnyWithId(old(products), p.productId) ==>
        && outcome == Saved(p.productId)
        && products == old(products)[IndexOfId(old(products), p.productId) := p]
        && nextId == old(nextId)
    {
      if p.productId == 0 {
        var created := p.(productId := nextId);
        products := products + [created];
        outcome := Saved(nextId);
        nextId := nextId + 1;
      } else {
        var i := IndexOfId(products, p.productId);
        if i < 0 || concurrentEdit {
          outcome := ConcurrencyConflict;
        } else {
          ghost var before := products;
          products := products[i := p];
          assert forall j :: 0 <= j < |products| ==> products[j].productId == before[j].productId;
          outcome := Saved(p.productId);
        }
      }
    }

    /** Remove the product with identity `id` and return it, or return None. */
    method DeleteProduct(id: int) returns (deleted: Option<Product>)
      requires Valid()
      modifies this
      ensures Valid() && nextId == old(nextId)
      ensures deleted == FirstWithId(old(products), id)
      ensures deleted.None? ==> products == old(products)
      ensures deleted.Some? ==> products == RemoveAt(old(products), IndexOfId(old(products), id))
      ensures !AnyWithId(products, id)
    {
      var i := IndexOfId(products, id);
      if i < 0 {
        deleted := None;
        assert forall q :: q in products ==> q.productId != id;
        assert deleted == FirstWithId(products, id);
        assert !AnyWithId(products, id);
      } else {
        ghost var before := products;
        deleted := Some(products[i]);
        assert deleted == FirstWithId(before, id);
        RemoveAtUnique(before, i);
        products := RemoveAt(products, i);
        assert forall q :: q in products ==> q in before && q.productId != id;
        assert !AnyWithId(products, id);
        assert UniqueIds(products);
      }
    }
  }
}
