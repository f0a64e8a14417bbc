/** The product routes of main.py. Every route acts for the caller that get_current_user resolved and
    sees only the documents whose `owner_id` is that caller's `_id`. Create, update and delete are
    methods over the products collection whose effect is given by a step function on its documents;
    the lemmas below are about the step functions. The `_id` the driver generates for a new document
    is a parameter. */
module Products {
  import opened Wrappers
  import opened Http
  import opened ObjectIds
  import opened Store
  import opened Models

  /** What a handler that may change the products collection leaves behind. */
  datatype ProductsOutcome<T> = ProductsOutcome(docs: seq<ProductDoc>, response: Result<T, HttpError>)

  /** `ObjectId(current_user["id"])`: the caller's `_id`. */
  function OwnerOf(current: UserInDB): ObjectId
    requires IsValid(current.id)
  {
    Parse(current.id)
  }

  /** No two documents share an `_id`: what the collection's unique index keeps. */
  predicate DistinctIds(docs: seq<ProductDoc>) {
    forall i, j :: 0 <= i < j < |docs| ==> docs[i].id != docs[j].id
  }

  // ---- product_helper ----------------------------------------------------------------------------

  /** `product_helper`: the response record of a stored document, `_id` rendered as a string and
      `owner_id` dropped. */
  function ProductHelper(d: ProductDoc): (r: ProductInDB)
    ensures IsValid(r.id) && Parse(r.id) == d.id
    ensures r.title == d.title && r.description == d.description && r.price == d.price
            && r.quantity == d.quantity && r.imageUrl == d.imageUrl
  {
    ParseRendering(d.id);
    ProductInDB(d.id, d.title, d.description, d.price, d.quantity, d.imageUrl)
  }

  /** The rendered `id` parses back to the document's `_id`, and the response loses nothing but the
      owner: two documents of one owner with the same response are the same document. */
  lemma HelperKeepsAllButOwner(a: ProductDoc, b: ProductDoc)
    ensures IsValid(ProductHelper(a).id) && Parse(ProductHelper(a).id) == a.id
    ensures ProductHelper(a) == ProductHelper(b) && a.ownerId == b.ownerId ==> a == b
  {
    ParseRendering(a.id);
  }

  /** `product_helper` applied to each document of `s`, in order. */
  function Rendered(s: seq<ProductDoc>): (r: seq<ProductInDB>)
    ensures |r| == |s|
    ensures forall i :: 0 <= i < |s| ==> r[i] == ProductHelper(s[i])
  {
    if s == [] then [] else Rendered(s[..|s| - 1]) + [ProductHelper(s[|s| - 1])]
  }

  // ---- the owner filter --------------------------------------------------------------------------

  /** `find({"owner_id": owner})` in natural order: the owner's documents, in the order they are stored. */
  function OwnedBy(docs: seq<ProductDoc>, owner: ObjectId): (r: seq<ProductDoc>)
    ensures |r| <= |docs|
    ensures forall d :: d in r <==> d in docs && d.ownerId == owner
  {
    if docs == [] then []
    else
      var init := docs[..|docs| - 1];
      var last := docs[|docs| - 1];
      assert docs == init + [last];
      OwnedBy(init, owner) + (if last.ownerId == owner then [last] else [])
  }

  /** Filtering distributes over concatenation. */
  lemma {:induction false} OwnedByConcat(a: seq<ProductDoc>, b: seq<ProductDoc>, owner: ObjectId)
    ensures OwnedBy(a + b, owner) == OwnedBy(a, owner) + OwnedBy(b, owner)
    decreases |b|
  {
    if b == [] {
      assert a + b == a;
    } else {
      var init := b[..|b| - 1];
      var last := b[|b| - 1];
      assert (a + b)[..|a + b| - 1] == a + init;
      assert (a + b)[|a + b| - 1] == last;
      OwnedByConcat(a, init, owner);
    }
  }

  /** Appending one document extends the owner's documents by it when it is theirs. */
  lemma OwnedBySnoc(s: seq<ProductDoc>, d: ProductDoc, owner: ObjectId)
    ensures OwnedBy(s + [d], owner) == OwnedBy(s, owner) + (if d.ownerId == owner then [d] else [])
  {
    assert (s + [d])[..|s|] == s;
  }

  /** Replacing one document by another, neither of them the owner's, leaves the owner's documents as
      they were. */
  lemma ForeignReplace(docs: seq<ProductDoc>, k: nat, d: ProductDoc, owner: ObjectId)
    requires k < |docs| && docs[k].ownerId != owner && d.ownerId != owner
    ensures OwnedBy(docs[k := d], owner) == OwnedBy(docs, owner)
  {
    var pre, post := docs[..k], docs[k + 1..];
    assert docs == (pre + [docs[k]]) + post;
    assert docs[k := d] == (pre + [d]) + post;
    OwnedByConcat(pre + [docs[k]], post, owner);
    OwnedByConcat(pre + [d], post, owner);
    OwnedBySnoc(pre, docs[k], owner);
    OwnedBySnoc(pre, d, owner);
  }

  /** Removing a document that is not the owner's leaves the owner's documents as they were. */
  lemma ForeignRemove(docs: seq<ProductDoc>, k: nat, owner: ObjectId)
    requires k < |docs| && docs[k].ownerId != owner
    ensures OwnedBy(docs[..k] + docs[k + 1..], owner) == OwnedBy(docs, owner)
  {
    var pre, post := docs[..k], docs[k + 1..];
    assert docs == (pre + [docs[k]]) + post;
    OwnedByConcat(pre + [docs[k]], post, owner);
    OwnedBySnoc(pre, docs[k], owner);
    assert OwnedBy(pre + [docs[k]], owner) == OwnedBy(pre, owner);
    OwnedByConcat(pre, post, owner);
  }

  // ---- create_product ----------------------------------------------------------------------------

  /** `create_product`: `price` or `quantity` sent as JSON null makes `float(None)` or `int(None)` raise,
      so 500 and nothing inserted; an `_id` already taken makes the insert raise, so 500; otherwise the
      document is appended with the caller as owner and answered as `product_helper` renders it. */
  function CreateProductStep(docs: seq<ProductDoc>, product: ProductCreate, current: UserInDB, newId: ObjectId)
    : (out: ProductsOutcome<ProductInDB>)
    requires IsValid(current.id)
    ensures out.response.Failure? ==> out.docs == docs && out.response.error == InternalServerError
    ensures out.response.Success? <==>
      product.price.Some? && product.quantity.Some? && ProductIndexById(docs, newId) == |docs|
    ensures out.response.Success? ==>
      && |out.docs| == |docs| + 1 && out.docs[..|docs|] == docs
      && out.docs[|docs|] == ProductDoc(newId, product.title, product.description, product.price.value,
                                        product.quantity.value, product.imageUrl, OwnerOf(current))
      && out.response.value == ProductHelper(out.docs[|docs|])
  {
    if product.price.None? || product.quantity.None? then
      ProductsOutcome(docs, Failure(InternalServerError))
    else
      var doc := ProductDoc(newId, product.title, product.description, product.price.value,
                            product.quantity.value, product.imageUrl, OwnerOf(current));
      if ProductIndexById(docs, newId) < |docs| then
        ProductsOutcome(docs, Failure(InternalServerError))
      else
        var stored := docs + [doc];
        assert stored[..|docs|] == docs;
        ProductsOutcome(stored, Success(ProductHelper(doc)))
  }

  /** A document appended under an `_id` no earlier document has is the one `find_one` by that `_id`
      returns, and the one `find_one` by that `_id` and its owner returns. */
  lemma AppendedProductIsFound(docs: seq<ProductDoc>, doc: ProductDoc)
    requires ProductIndexById(docs, doc.id) == |docs|
    ensures FindProductById(docs + [doc], doc.id) == Some(doc)
    ensures FindProduct(docs + [doc], doc.id, doc.ownerId) == Some(doc)
  {
    var s := docs + [doc];
    assert s[|docs|] == doc;
    assert forall j :: 0 <= j < |docs| ==> s[j] == docs[j];
  }

  /** The create-product handler: the insert, then `find_one` by the inserted `_id`. */
  method CreateProduct(products: ProductsCollection, product: ProductCreate, current: UserInDB, newId: ObjectId)
    returns (response: Result<ProductInDB, HttpError>)
    requires IsValid(current.id)
    modifies products
    ensures ProductsOutcome(products.docs, response) == CreateProductStep(old(products.docs), product, current, newId)
  {
    if product.price.None? || product.quantity.None? {
      return Failure(InternalServerError);
    }
    var doc := ProductDoc(newId, product.title, product.description, product.price.value,
                          product.quantity.value, product.imageUrl, OwnerOf(current));
    ghost var before := products.docs;
    var inserted := products.InsertOne(doc);
    if !inserted {
      return Failure(InternalServerError);
    }
    AppendedProductIsFound(before, doc);
    var created := FindProductById(products.docs, newId);
    response := Success(ProductHelper(created.value));
  }

  /** A body that passed validation with neither `price` nor `quantity` sent as null is stored within
      the creation limits: a title of at most 200 characters, a price and a quantity that are not
      negative, 0.0 and 1 when they were left out. */
  lemma CreateStoresValidatedFields(docs: seq<ProductDoc>, body: ProductCreateBody, current: UserInDB,
                                    newId: ObjectId)
    requires IsValid(current.id)
    requires ValidateProductCreate(body).Success?
    requires !body.price.Null? && !body.quantity.Null?
    requires ProductIndexById(docs, newId) == |docs|
    ensures var out := CreateProductStep(docs, ValidateProductCreate(body).value, current, newId);
      && out.response.Success?
      && var d := out.docs[|docs|];
      && |d.title| <= MaxTitleLength && d.price >= 0.0 && d.quantity >= 0
      && (body.price.Absent? ==> d.price == DefaultPrice)
      && (body.quantity.Absent? ==> d.quantity == DefaultQuantity)
  {
  }

  /** A created product can be read back by the `id` in the response, and it is the last entry of the
      caller's listing, after the ones that were there. */
  lemma {:induction false} CreateThenRead(docs: seq<ProductDoc>, product: ProductCreate, current: UserInDB,
                                          newId: ObjectId)
    requires IsValid(current.id)
    requires CreateProductStep(docs, product, current, newId).response.Success?
    ensures var out := CreateProductStep(docs, product, current, newId);
      && GetProduct(out.docs, out.response.value.id, current) == out.response
      && OwnedBy(out.docs, OwnerOf(current)) == OwnedBy(docs, OwnerOf(current)) + [out.docs[|docs|]]
      && Rendered(OwnedBy(out.docs, OwnerOf(current)))
         == Rendered(OwnedBy(docs, OwnerOf(current))) + [out.response.value]
  {
    var out := CreateProductStep(docs, product, current, newId);
    var doc := out.docs[|docs|];
    assert out.docs == docs + [doc];
    AppendedProductIsFound(docs, doc);
    ParseRendering(newId);
    OwnedByConcat(docs, [doc], OwnerOf(current));
    assert [doc][..0] == [];
  }

  // ---- get_products ------------------------------------------------------------------------------

  /** Rendering a sequence with one more document renders that document last. */
  lemma RenderedSnoc(s: seq<ProductDoc>, d: ProductDoc)
    ensures Rendered(s + [d]) == Rendered(s) + [ProductHelper(d)]
  {
    assert (s + [d])[..|s|] == s;
  }

  /** The list-products handler: the cursor over the caller's documents, each rendered and appended. */
  method GetProducts(products: ProductsCollection, current: UserInDB) returns (listing: seq<ProductInDB>)
    requires IsValid(current.id)
    ensures listing == Rendered(OwnedBy(products.docs, OwnerOf(current)))
  {
    var owner := OwnerOf(current);
    var docs := products.docs;
    listing := [];
    var i := 0;
    assert docs[..0] == [];
    while i < |docs|
      invariant 0 <= i <= |docs|
      invariant listing == Rendered(OwnedBy(docs[..i], owner))
    {
      ListingStep(docs, i, owner);
      listing := listing + (if docs[i].ownerId == owner then [ProductHelper(docs[i])] else []);
      i := i + 1;
    }
    assert docs[..i] == docs;
  }

  /** One step of the listing loop: the listing of a longer prefix. */
  lemma ListingStep(docs: seq<ProductDoc>, i: nat, owner: ObjectId)
    requires i < |docs|
    ensures Rendered(OwnedBy(docs[..i + 1], owner))
            == Rendered(OwnedBy(docs[..i], owner)) + (if docs[i].ownerId == owner then [ProductHelper(docs[i])] else [])
  {
    assert docs[..i + 1] == docs[..i] + [docs[i]];
    OwnedBySnoc(docs[..i], docs[i], owner);
    if docs[i].ownerId == owner {
      RenderedSnoc(OwnedBy(docs[..i], owner), docs[i]);
    }
  }

  // ---- get_product -------------------------------------------------------------------------------

  /** `get_product`: an id `ObjectId.is_valid` rejects is 400 "Invalid Id"; no document with that `_id`
      owned by the caller is 404; otherwise the document as `product_helper` renders it. */
  function GetProduct(docs: seq<ProductDoc>, productId: string, current: UserInDB): (r: Result<ProductInDB, HttpError>)
    requires IsValid(current.id)
    ensures !IsValid(productId) ==> r == Failure(HttpError(400, "Invalid Id"))
    ensures IsValid(productId) && FindProduct(docs, Parse(productId), OwnerOf(current)).None?
            ==> r == Failure(HttpError(404, "Product Not Found"))
    ensures IsValid(productId) && FindProduct(docs, Parse(productId), OwnerOf(current)).Some?
            ==> r == Success(ProductHelper(FindProduct(docs, Parse(productId), OwnerOf(current)).value))
    ensures r.Success? ==>
      && IsValid(productId) && r.value.id == Parse(productId)
      && exists d :: d in OwnedBy(docs, OwnerOf(current)) && r.value == ProductHelper(d)
  {
    if !IsValid(productId) then Failure(HttpError(400, "Invalid Id"))
    else
      match FindProduct(docs, Parse(productId), OwnerOf(current))
      case None => Failure(HttpError(404, "Product Not Found"))
      case Some(d) =>
        assert d in OwnedBy(docs, OwnerOf(current));
        Success(ProductHelper(d))
  }

  /** What get-product answers depends on the caller's own documents only: two collections that agree
      on them agree on every answer, whatever other owners hold. */
  lemma GetProductSeesOnlyOwn(a: seq<ProductDoc>, b: seq<ProductDoc>, productId: string, current: UserInDB)
    requires IsValid(current.id)
    requires DistinctIds(a) && DistinctIds(b)
    requires OwnedBy(a, OwnerOf(current)) == OwnedBy(b, OwnerOf(current))
    ensures GetProduct(a, productId, current) == GetProduct(b, productId, current)
  {
    if IsValid(productId) {
      var id, owner := Parse(productId), OwnerOf(current);
      FindInOwned(a, b, id, owner);
      FindInOwned(b, a, id, owner);
    }
  }

  /** One direction of GetProductSeesOnlyOwn: what `a` finds, `b` finds too. */
  lemma FindInOwned(a: seq<ProductDoc>, b: seq<ProductDoc>, id: ObjectId, owner: ObjectId)
    requires DistinctIds(b)
    requires OwnedBy(a, owner) == OwnedBy(b, owner)
    ensures FindProduct(a, id, owner).Some? ==> FindProduct(b, id, owner) == FindProduct(a, id, owner)
  {
    var fa := FindProduct(a, id, owner);
    if fa.Some? {
      var d := fa.value;
      assert d in OwnedBy(b, owner);
      var i :| 0 <= i < |b| && b[i] == d;
      var e := FindProduct(b, id, owner).value;
      assert e in OwnedBy(b, owner);
      var j :| 0 <= j < |b| && b[j] == e;
    }
  }

  // ---- update_product ----------------------------------------------------------------------------

  /** `update_product`: an invalid id is 400 "Invalid ID"; a non-empty update that matches no document of
      the caller is 404; a non-empty update that matches sets the given fields on the first match; an
      empty update writes nothing. Then the document is read again: when it is missing (possible only
      after an empty update) `product_helper(None)` raises, so 500. */
  function UpdateProductStep(docs: seq<ProductDoc>, productId: string, u: ProductUpdate, current: UserInDB)
    : (out: ProductsOutcome<ProductInDB>)
    requires IsValid(current.id)
    ensures out.response.Failure? ==> out.docs == docs
    ensures !IsValid(productId) ==> out.response == Failure(HttpError(400, "Invalid ID"))
    ensures IsEmptyUpdate(u) ==> out.docs == docs
    ensures out.response.Success? ==>
      && IsValid(productId) && out.response.value.id == Parse(productId)
      && FindProduct(docs, Parse(productId), OwnerOf(current)).Some?
      && exists d :: d in OwnedBy(out.docs, OwnerOf(current)) && out.response.value == ProductHelper(d)
  {
    if !IsValid(productId) then ProductsOutcome(docs, Failure(HttpError(400, "Invalid ID")))
    else
      var id, owner := Parse(productId), OwnerOf(current);
      var k := ProductIndex(docs, id, owner);
      if !IsEmptyUpdate(u) && k == |docs| then
        ProductsOutcome(docs, Failure(HttpError(404, "Product Not Found")))
      else
        var updated := if IsEmptyUpdate(u) then docs else docs[k := ApplySet(docs[k], u)];
        assert !IsEmptyUpdate(u) ==> updated[k].id == id && updated[k].ownerId == owner;
        match FindProduct(updated, id, owner)
        case None => ProductsOutcome(updated, Failure(InternalServerError))
        case Some(d) =>
          assert d in OwnedBy(updated, owner);
          ProductsOutcome(updated, Success(ProductHelper(d)))
  }

  /** Setting fields on the document at `k` keeps it the first match of its `_id` and owner. */
  lemma SetKeepsMatchIndex(docs: seq<ProductDoc>, id: ObjectId, owner: ObjectId, u: ProductUpdate)
    requires ProductIndex(docs, id, owner) < |docs|
    ensures var k := ProductIndex(docs, id, owner);
      ProductIndex(docs[k := ApplySet(docs[k], u)], id, owner) == k
  {
    var k := ProductIndex(docs, id, owner);
    var updated := docs[k := ApplySet(docs[k], u)];
    assert updated[k].id == id && updated[k].ownerId == owner;
    assert forall j :: 0 <= j < k ==> updated[j] == docs[j];
  }

  /** A non-empty update of a document the caller owns is a partial merge: the first matching document
      gets exactly the fields the update gives, every other document and field stays, and the answer is
      the merged document. An empty update answers the document unchanged. */
  lemma UpdateMerges(docs: seq<ProductDoc>, productId: string, u: ProductUpdate, current: UserInDB)
    requires IsValid(current.id) && IsValid(productId)
    requires FindProduct(docs, Parse(productId), OwnerOf(current)).Some?
    ensures var k := ProductIndex(docs, Parse(productId), OwnerOf(current));
      var merged := ApplySet(docs[k], u);
      && UpdateProductStep(docs, productId, u, current)
         == ProductsOutcome(docs[k := merged], Success(ProductHelper(merged)))
      && (IsEmptyUpdate(u) ==> merged == docs[k])
  {
    var id, owner := Parse(productId), OwnerOf(current);
    SetKeepsMatchIndex(docs, id, owner, u);
    var k := ProductIndex(docs, id, owner);
    if IsEmptyUpdate(u) {
      assert docs[k := ApplySet(docs[k], u)] == docs;
    }
  }

  /** Sending the same update twice is sending it once: the second leaves the collection as the first
      left it and gives the same answer. */
  lemma UpdateIsIdempotent(docs: seq<ProductDoc>, productId: string, u: ProductUpdate, current: UserInDB)
    requires IsValid(current.id)
    requires UpdateProductStep(docs, productId, u, current).response.Success?
    ensures var once := UpdateProductStep(docs, productId, u, current);
      UpdateProductStep(once.docs, productId, u, current) == once
  {
    var id, owner := Parse(productId), OwnerOf(current);
    UpdateMerges(docs, productId, u, current);
    var k := ProductIndex(docs, id, owner);
    var once := docs[k := ApplySet(docs[k], u)];
    SetKeepsMatchIndex(docs, id, owner, u);
    assert FindProduct(once, id, owner) == Some(once[k]);
    UpdateMerges(once, productId, u, current);
    MergeTwice(docs, k, u);
  }

  /** Merging the same fields into the document at `k` a second time changes nothing. */
  lemma MergeTwice(docs: seq<ProductDoc>, k: nat, u: ProductUpdate)
    requires k < |docs|
    ensures var once := docs[k := ApplySet(docs[k], u)];
      once[k := ApplySet(once[k], u)] == once
  {
    assert ApplySet(ApplySet(docs[k], u), u) == ApplySet(docs[k], u);
  }

  /** The update handler: build `update_data`, `update_one` when it is not empty, then `find_one`. */
  method UpdateProduct(products: ProductsCollection, productId: string, u: ProductUpdate, current: UserInDB)
    returns (response: Result<ProductInDB, HttpError>)
    requires IsValid(current.id)
    modifies products
    ensures ProductsOutcome(products.docs, response) == UpdateProductStep(old(products.docs), productId, u, current)
  {
    if !IsValid(productId) {
      return Failure(HttpError(400, "Invalid ID"));
    }
    var id, owner := Parse(productId), OwnerOf(current);
    if !IsEmptyUpdate(u) {
      var matched := products.UpdateOne(id, owner, u);
      if matched == 0 {
        return Failure(HttpError(404, "Product Not Found"));
      }
    }
    var doc := FindProduct(products.docs, id, owner);
    if doc.None? {
      return Failure(InternalServerError);
    }
    response := Success(ProductHelper(doc.value));
  }

  /** What create could store, an update can break: ProductUpdate has no length or sign limit, so a
      201-character title and a negative price pass validation and are stored. */
  lemma UpdateSkipsCreateLimits(docs: seq<ProductDoc>, productId: string, current: UserInDB)
    requires IsValid(current.id) && IsValid(productId)
    requires FindProduct(docs, Parse(productId), OwnerOf(current)).Some?
    ensures var longTitle := seq(MaxTitleLength + 1, _ => 'a');
      var u := ValidateProductUpdate(ProductUpdateBody(Given(longTitle), Absent, Given(-1.0), Absent, Absent));
      var out := UpdateProductStep(docs, productId, u, current);
      var k := ProductIndex(docs, Parse(productId), OwnerOf(current));
      && out.response.Success?
      && |out.docs[k].title| > MaxTitleLength && out.docs[k].price < 0.0
  {
    var longTitle := seq(MaxTitleLength + 1, _ => 'a');
    var u := ValidateProductUpdate(ProductUpdateBody(Given(longTitle), Absent, Given(-1.0), Absent, Absent));
    UpdateMerges(docs, productId, u, current);
  }

  // ---- delete_product ----------------------------------------------------------------------------

  /** `delete_product`: an invalid id is 400 "Invalid ID"; no document with that `_id` owned by the
      caller is 404; otherwise the first such document is removed and the answer is `{"status": "Deleted"}`. */
  function DeleteProductStep(docs: seq<ProductDoc>, productId: string, current: UserInDB)
    : (out: ProductsOutcome<string>)
    requires IsValid(current.id)
    ensures out.response.Failure? ==> out.docs == docs
    ensures !IsValid(productId) ==> out.response == Failure(HttpError(400, "Invalid ID"))
    ensures IsValid(productId) ==>
      (out.response.Success? <==> FindProduct(docs, Parse(productId), OwnerOf(current)).Some?)
    ensures out.response.Success? ==> out.response.value == "Deleted" && |out.docs| == |docs| - 1
  {
    if !IsValid(productId) then ProductsOutcome(docs, Failure(HttpError(400, "Invalid ID")))
    else
      var k := ProductIndex(docs, Parse(productId), OwnerOf(current));
      if k == |docs| then ProductsOutcome(docs, Failure(HttpError(404, "Product Not Found")))
      else ProductsOutcome(docs[..k] + docs[k + 1..], Success("Deleted"))
  }

  /** The delete handler. */
  method DeleteProduct(products: ProductsCollection, productId: string, current: UserInDB)
    returns (response: Result<string, HttpError>)
    requires IsValid(current.id)
    modifies products
    ensures ProductsOutcome(products.docs, response) == DeleteProductStep(old(products.docs), productId, current)
  {
    if !IsValid(productId) {
      return Failure(HttpError(400, "Invalid ID"));
    }
    var deleted := products.DeleteOne(Parse(productId), OwnerOf(current));
    if deleted == 0 {
      return Failure(HttpError(404, "Product Not Found"));
    }
    response := Success("Deleted");
  }

  /** With distinct `_id`s, a successful delete removes exactly the one document with that `_id` and
      keeps every other; the product is then not found, and deleting it again is 404. */
  lemma DeleteRemovesExactlyOne(docs: seq<ProductDoc>, productId: string, current: UserInDB)
    requires IsValid(current.id) && DistinctIds(docs)
    requires DeleteProductStep(docs, productId, current).response.Success?
    ensures var after := DeleteProductStep(docs, productId, current).docs;
      && (forall d :: d in after <==> d in docs && d.id != Parse(productId))
      && GetProduct(after, productId, current) == Failure(HttpError(404, "Product Not Found"))
      && DeleteProductStep(after, productId, current)
         == ProductsOutcome(after, Failure(HttpError(404, "Product Not Found")))
  {
    var id := Parse(productId);
    var k := ProductIndex(docs, id, OwnerOf(current));
    var after := docs[..k] + docs[k + 1..];
    RemovedIsOthers(docs, k);
    assert forall i :: 0 <= i < |after| ==> after[i].id != id;
  }

  /** Cutting the document at `k` out of a collection with distinct `_id`s leaves exactly the documents
      with another `_id`. */
  lemma RemovedIsOthers(docs: seq<ProductDoc>, k: nat)
    requires k < |docs| && DistinctIds(docs)
    ensures var after := docs[..k] + docs[k + 1..];
      && (forall i :: 0 <= i < |after| ==> after[i].id != docs[k].id)
      && (forall d :: d in after <==> d in docs && d.id != docs[k].id)
  {
    var after := docs[..k] + docs[k + 1..];
    assert forall i :: 0 <= i < |after| ==> after[i] == docs[if i < k then i else i + 1];
    forall d | d in docs && d.id != docs[k].id
      ensures d in after
    {
      var j :| 0 <= j < |docs| && docs[j] == d;
      assert after[if j < k then j else j - 1] == d;
    }
  }

  // ---- what the handlers keep --------------------------------------------------------------------

  /** No route changes what any other owner holds: for every owner but the caller, the documents after
      create, update or delete are the documents before, in the same order. */
  lemma OtherOwnersUntouched(docs: seq<ProductDoc>, current: UserInDB, other: ObjectId, product: ProductCreate,
                             newId: ObjectId, productId: string, u: ProductUpdate)
    requires IsValid(current.id) && other != OwnerOf(current)
    ensures OwnedBy(CreateProductStep(docs, product, current, newId).docs, other) == OwnedBy(docs, other)
    ensures OwnedBy(UpdateProductStep(docs, productId, u, current).docs, other) == OwnedBy(docs, other)
    ensures OwnedBy(DeleteProductStep(docs, productId, current).docs, other) == OwnedBy(docs, other)
  {
    CreateLeavesOthers(docs, current, other, product, newId);
    UpdateLeavesOthers(docs, current, other, productId, u);
    DeleteLeavesOthers(docs, current, other, productId);
  }

  /** Create appends one document, the caller's. */
  lemma CreateLeavesOthers(docs: seq<ProductDoc>, current: UserInDB, other: ObjectId, product: ProductCreate,
                           newId: ObjectId)
    requires IsValid(current.id) && other != OwnerOf(current)
    ensures OwnedBy(CreateProductStep(docs, product, current, newId).docs, other) == OwnedBy(docs, other)
  {
    var created := CreateProductStep(docs, product, current, newId).docs;
    if created != docs {
      assert created[..|created| - 1] == docs;
    }
  }

  /** Update rewrites at most one document, the caller's, and keeps its owner. */
  lemma UpdateLeavesOthers(docs: seq<ProductDoc>, current: UserInDB, other: ObjectId, productId: string,
                           u: ProductUpdate)
    requires IsValid(current.id) && other != OwnerOf(current)
    ensures OwnedBy(UpdateProductStep(docs, productId, u, current).docs, other) == OwnedBy(docs, other)
  {
    if IsValid(productId) {
      var k := ProductIndex(docs, Parse(productId), OwnerOf(current));
      if k < |docs| {
        ForeignReplace(docs, k, ApplySet(docs[k], u), other);
      }
    }
  }

  /** Delete removes at most one document, the caller's. */
  lemma DeleteLeavesOthers(docs: seq<ProductDoc>, current: UserInDB, other: ObjectId, productId: string)
    requires IsValid(current.id) && other != OwnerOf(current)
    ensures OwnedBy(DeleteProductStep(docs, productId, current).docs, other) == OwnedBy(docs, other)
  {
    if IsValid(productId) {
      var k := ProductIndex(docs, Parse(productId), OwnerOf(current));
      if k < |docs| {
        ForeignRemove(docs, k, other);
      }
    }
  }

  /** Create keeps `_id`s distinct: it appends only under an `_id` nobody has. */
  lemma CreateKeepsDistinctIds(docs: seq<ProductDoc>, current: UserInDB, product: ProductCreate, newId: ObjectId)
    requires IsValid(current.id) && DistinctIds(docs)
    ensures DistinctIds(CreateProductStep(docs, product, current, newId).docs)
  {
    var created := CreateProductStep(docs, product, current, newId).docs;
    if created != docs {
      assert forall j :: 0 <= j < |docs| ==> created[j] == docs[j] && docs[j].id != newId;
    }
  }

  /** Update never changes an `_id`, so it keeps them distinct. */
  lemma UpdateKeepsDistinctIds(docs: seq<ProductDoc>, current: UserInDB, productId: string, u: ProductUpdate)
    requires IsValid(current.id) && DistinctIds(docs)
    ensures DistinctIds(UpdateProductStep(docs, productId, u, current).docs)
  {
    var updated := UpdateProductStep(docs, productId, u, current).docs;
    if updated != docs {
      var k := ProductIndex(docs, Parse(productId), OwnerOf(current));
      assert updated == docs[k := ApplySet(docs[k], u)];
      ReplaceKeepsDistinctIds(docs, k, ApplySet(docs[k], u));
    }
  }

  /** Replacing one document by one with the same `_id` keeps `_id`s distinct. */
  lemma ReplaceKeepsDistinctIds(docs: seq<ProductDoc>, k: nat, d: ProductDoc)
    requires k < |docs| && DistinctIds(docs) && d.id == docs[k].id
    ensures DistinctIds(docs[k := d])
  {
    assert forall j :: 0 <= j < |docs| ==> docs[k := d][j].id == docs[j].id;
  }

  /** Delete keeps `_id`s distinct: what is left is the collection with one document cut out. */
  lemma DeleteKeepsDistinctIds(docs: seq<ProductDoc>, current: UserInDB, productId: string)
    requires IsValid(current.id) && DistinctIds(docs)
    ensures DistinctIds(DeleteProductStep(docs, productId, current).docs)
  {
    if IsValid(productId) {
      var k := ProductIndex(docs, Parse(productId), OwnerOf(current));
      if k < |docs| {
        RemoveKeepsDistinctIds(docs, k);
      }
    }
  }

  /** Cutting one document out of a collection with distinct `_id`s leaves them distinct. */
  lemma RemoveKeepsDistinctIds(docs: seq<ProductDoc>, k: nat)
    requires k < |docs| && DistinctIds(docs)
    ensures DistinctIds(docs[..k] + docs[k + 1..])
  {
    var removed := docs[..k] + docs[k + 1..];
    assert forall j :: 0 <= j < |removed| ==> removed[j] == docs[if j < k then j else j + 1];
  }

  /** A product id the caller does not own, whether another owner holds it or nobody does, is not found
      by get, update or delete, and nothing changes; an empty update then reads back no document, which
      `product_helper(None)` turns into 500. */
  lemma NotOwnedIsNotFound(docs: seq<ProductDoc>, productId: string, u: ProductUpdate, current: UserInDB)
    requires IsValid(current.id) && IsValid(productId)
    requires forall d :: d in OwnedBy(docs, OwnerOf(current)) ==> d.id != Parse(productId)
    ensures GetProduct(docs, productId, current) == Failure(HttpError(404, "Product Not Found"))
    ensures DeleteProductStep(docs, productId, current)
            == ProductsOutcome(docs, Failure(HttpError(404, "Product Not Found")))
    ensures UpdateProductStep(docs, productId, u, current)
            == ProductsOutcome(docs, Failure(if IsEmptyUpdate(u) then InternalServerError
                                             else HttpError(404, "Product Not Found")))
  {
  }
}
