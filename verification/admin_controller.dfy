/**
  The server-rendered admin pages over products (AdminController). Each
  action returns the view or redirect it produces together with the
  TempData entries it writes; `categories` is the category repository's
  list, and `modelValid` is ModelState.IsValid for a posted form.
 */
module AdminController {
  import opened Domain
  import opened Repository

  /** The TempData entries an action writes; None for an entry it leaves alone. */
  datatype TempData = TempData(message: Option<string>, messageType: Option<string>)

  const NoTempData: TempData := TempData(None, None)

  datatype AdminResult =
    | IndexView(products: seq<Product>)                        // the product table
    | EditView(product: Product, categories: seq<Category>)    // the Edit form with ViewBag.Categories
    | EditForm(product: Product)                               // the Edit form re-shown with the posted values
    | NotFoundResult                                           // 404
    | RedirectToIndex
    | ConcurrencyFailure                                       // a save conflict escapes the action

  /** Every character of `s` is a decimal digit. */
  predicate AllDigits(s: string) {
    forall i :: 0 <= i < |s| ==> '0' <= s[i] <= '9'
  }

  /** The number a string of decimal digits denotes, most significant digit first. */
  function DigitsValue(s: string): nat
    requires AllDigits(s)
  {
    if s == [] then 0
    else DigitsValue(s[..|s| - 1]) * 10 + (s[|s| - 1] - '0') as int
  }

  /** The decimal digits of `n`, without leading zeros. */
  function NatToString(n: nat): (s: string)
    ensures |s| > 0 && AllDigits(s)
    ensures DigitsValue(s) == n
    ensures n > 0 ==> s[0] != '0'
    decreases n
  {
    var digit := ['0' + (n % 10) as char];
    if n < 10 then digit
    else
      var prefix := NatToString(n / 10);
      var s := prefix + digit;
      assert s[..|s| - 1] == prefix;
      s
  }

  /**
    `n` as C# string interpolation renders an int: a minus sign exactly for
    a negative number, followed by the decimal digits of its magnitude.
   */
  function IntToString(n: int): (r: string)
    ensures |r| > 0
    ensures r[0] == '-' <==> n < 0
    ensures n < 0 ==> AllDigits(r[1..]) && DigitsValue(r[1..]) == -n && r[1] != '0'
    ensures n >= 0 ==> AllDigits(r) && DigitsValue(r) == n && (n > 0 ==> r[0] != '0')
  {
    if n < 0 then
      var r := "-" + NatToString(-n);
      assert r[1..] == NatToString(-n);
      r
    else NatToString(n)
  }

  /** Different numbers render differently. */
  lemma IntToStringInjective(a: int, b: int)
    requires IntToString(a) == IntToString(b)
    ensures a == b
  {
  }

  /** The message after a successful save; it opens with the product's name. */
  function SavedMessage(name: string): (m: string)
    ensures |name| <= |m| && m[..|name|] == name
  {
    name + " đã được lưu thành công."
  }

  /** The message after a successful delete; it opens with the product's name. */
  function DeletedMessage(name: string): (m: string)
    ensures |name| <= |m| && m[..|name|] == name
  {
    name + " đã được xóa."
  }

  const NotFoundPrefix: string := "Không tìm thấy sản phẩm có ID: "
  const NotFoundSuffix: string := " để xóa."

  /**
    The message when there was nothing to delete; the identity asked for
    can be read back from it, between the fixed opening and closing words.
   */
  function NotFoundMessage(productId: int): (m: string)
    ensures |NotFoundPrefix| + |NotFoundSuffix| < |m|
    ensures m[..|NotFoundPrefix|] == NotFoundPrefix
    ensures m[|m| - |NotFoundSuffix|..] == NotFoundSuffix
    ensures m[|NotFoundPrefix|..|m| - |NotFoundSuffix|] == IntToString(productId)
  {
    NotFoundPrefix + IntToString(productId) + NotFoundSuffix
  }

  /** The not-found message names the identity: different identities give different messages. */
  lemma NotFoundMessageNamesId(a: int, b: int)
    requires NotFoundMessage(a) == NotFoundMessage(b)
    ensures a == b
  {
    var m := NotFoundMessage(a);
    assert IntToString(a) == m[|NotFoundPrefix|..|m| - |NotFoundSuffix|] == IntToString(b);
    IntToStringInjective(a, b);
  }

  /** GET Admin/Index: every stored product. */
  function Index(repo: ProductRepository): (r: AdminResult)
    reads repo
    ensures r.IndexView? && r.products == repo.products
  {
    IndexView(repo.products)
  }

  /**
    GET Admin/Edit/{productId}: 404 when no product has that identity,
    otherwise the Edit form for it with the category list.
   */
  function EditGet(repo: ProductRepository, categories: seq<Category>, productId: int): (r: AdminResult)
    reads repo
    ensures r.NotFoundResult? || r.EditView?
    ensures r.NotFoundResult? <==> forall p :: p in repo.products ==> p.productId != productId
    ensures r.EditView? ==> r.product in repo.products && IsFirstWithId(repo.products, productId, r.product)
    ensures r.EditView? ==> r.categories == categories
  {
    match FirstWithId(repo.products, productId)
    case None => NotFoundResult
    case Some(p) => EditView(p, categories)
  }

  /**
    POST Admin/Edit: a valid form is saved and the browser is sent back to
    Index with a message naming the product; an invalid one re-shows the
    form and writes nothing.
   */
  method EditPost(repo: ProductRepository, product: Product, modelValid: bool, concurrentEdit: bool)
    returns (r: AdminResult, tempData: TempData)
    requires repo.Valid()
    modifies repo
    ensures repo.Valid()
    ensures !modelValid ==> r == EditForm(product) && tempData == NoTempData
    ensures modelValid ==> r == RedirectToIndex || r == ConcurrencyFailure
    ensures r == RedirectToIndex ==> tempData == TempData(Some(SavedMessage(product.name)), None)
    ensures r != RedirectToIndex ==> tempData == NoTempData
    ensures r != RedirectToIndex ==> repo.products == old(repo.products) && repo.nextId == old(repo.nextId)
    ensures modelValid && product.productId == 0 ==>
      && r == RedirectToIndex
      && repo.products == old(repo.products) + [product.(productId := old(repo.nextId))]
      && FirstWithId(repo.products, old(repo.nextId)) == Some(product.(productId := old(repo.nextId)))
    ensures modelValid && product.productId != 0 ==>
      if !concurrentEdit && AnyWithId(old(repo.products), product.productId) then
        && r == RedirectToIndex
        && repo.products == old(repo.products)[IndexOfId(old(repo.products), product.productId) := product]
        && FirstWithId(repo.products, product.productId) == Some(product)
      else r == ConcurrencyFailure
  {
    if modelValid {
      var outcome := repo.SaveProduct(product, concurrentEdit);
      if outcome.ConcurrencyConflict? {
        return ConcurrencyFailure, NoTempData;
      }
      r, tempData := RedirectToIndex, TempData(Some(SavedMessage(product.name)), None);
      if product.productId != 0 {
        assert repo.products[IndexOfId(old(repo.products), product.productId)] == product;
        FirstWithIdIsUnique(repo.products, product.productId, product);
      } else {
        FirstWithIdIsUnique(repo.products, outcome.productId, product.(productId := outcome.productId));
      }
    } else {
      r, tempData := EditForm(product), NoTempData;
    }
  }

  /**
    GET Admin/Create: the Edit form for a new, default product. Its
    identity is 0, so saving the form creates a product.
   */
  function Create(categories: seq<Category>): (r: AdminResult)
    ensures r.EditView? && r.categories == categories
    ensures r.product.productId == 0 && r.product.name == "" && r.product.imageUrl == ""
  {
    EditView(DefaultProduct(), categories)
  }

  /**
    POST Admin/Delete: always back to Index. A removed product is named in
    the message; otherwise the message says nothing was found, marked as
    "danger", and the repository is unchanged.
   */
  method Delete(repo: ProductRepository, productId: int) returns (r: AdminResult, tempData: TempData)
    requires repo.Valid()
    modifies repo
    ensures repo.Valid() && repo.nextId == old(repo.nextId)
    ensures r == RedirectToIndex
    ensures AnyWithId(old(repo.products), productId) ==>
      && tempData == TempData(Some(DeletedMessage(FirstWithId(old(repo.products), productId).value.name)), None)
      && repo.products == RemoveAt(old(repo.products), IndexOfId(old(repo.products), productId))
    ensures !AnyWithId(old(repo.products), productId) ==>
      && tempData == TempData(Some(NotFoundMessage(productId)), Some("danger"))
      && repo.products == old(repo.products)
    ensures FirstWithId(repo.products, productId) == None
  {
    var deleted := repo.DeleteProduct(productId);
    r := RedirectToIndex;
    match deleted {
      case Some(p) =>
        tempData := TempData(Some(DeletedMessage(p.name)), None);
      case None =>
        tempData := TempData(Some(NotFoundMessage(productId)), Some("danger"));
    }
  }
}
