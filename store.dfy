/** The two MongoDB collections the handlers use, `users` and `products`, and the parts of the driver's
    `find_one`, `insert_one`, `update_one` and `delete_one` they rely on. A collection holds its documents
    in natural (insertion) order, and `find_one` returns the first document that matches its filter. */
module Store {
  import opened Wrappers
  import opened ObjectIds
  import Crypto
  import Models

  /** A users document: what register writes, together with the `_id` the store assigns. */
  datatype UserDoc = UserDoc(
    id: ObjectId,
    email: string,
    hashedPassword: Crypto.PasswordHash,
    isVerified: bool,
    otpCode: Option<string>,
    otpExpiresAt: Option<int>)

  /** A products document: what create_product writes, together with the `_id` the store assigns. */
  datatype ProductDoc = ProductDoc(
    id: ObjectId,
    title: string,
    description: Option<string>,
    price: real,
    quantity: int,
    imageUrl: Option<string>,
    ownerId: ObjectId)

  // ---- users --------------------------------------------------------------------------------------

  // Each `find_one` filter of the service (`{"email": …}`, `{"_id": …}`, `{"_id": …, "owner_id": …}`)
  // has its own first-match function, with the same three-clause contract, rather than one function
  // over a predicate argument: the lemmas about them then need no lambdas.

  /** The position of the first document with this email, or |docs| when there is none. */
  function UserIndexByEmail(docs: seq<UserDoc>, email: string): (k: nat)
    ensures k <= |docs|
    ensures k < |docs| ==> docs[k].email == email
    ensures forall j :: 0 <= j < k ==> docs[j].email != email
  {
    if docs == [] then 0
    else if docs[0].email == email then 0
    else 1 + UserIndexByEmail(docs[1..], email)
  }

  /** The position of the first document with this `_id`, or |docs| when there is none. */
  function UserIndexById(docs: seq<UserDoc>, id: ObjectId): (k: nat)
    ensures k <= |docs|
    ensures k < |docs| ==> docs[k].id == id
    ensures forall j :: 0 <= j < k ==> docs[j].id != id
  {
    if docs == [] then 0
    else if docs[0].id == id then 0
    else 1 + UserIndexById(docs[1..], id)
  }

  /** `users_collection.find_one({"email": email})`. */
  function FindUserByEmail(docs: seq<UserDoc>, email: string): (u: Option<UserDoc>)
    ensures u.Some? ==> u.value in docs && u.value.email == email
    ensures u.None? <==> forall i :: 0 <= i < |docs| ==> docs[i].email != email
  {
    var k := UserIndexByEmail(docs, email);
    if k < |docs| then Some(docs[k]) else None
  }

  /** `users_collection.find_one({"_id": id})`. */
  function FindUserById(docs: seq<UserDoc>, id: ObjectId): (u: Option<UserDoc>)
    ensures u.Some? ==> u.value in docs && u.value.id == id
    ensures u.None? <==> forall i :: 0 <= i < |docs| ==> docs[i].id != id
  {
    var k := UserIndexById(docs, id);
    if k < |docs| then Some(docs[k]) else None
  }

  /** The update document `{"$set": {"is_verified": True}, "$unset": {"otp_code": "", "otp_expires_at": ""}}`
      applied to one document. */
  function VerifiedDoc(d: UserDoc): (v: UserDoc)
    ensures v.id == d.id && v.email == d.email && v.hashedPassword == d.hashedPassword
    ensures v.isVerified && v.otpCode.None? && v.otpExpiresAt.None?
  {
    d.(isVerified := true, otpCode := None, otpExpiresAt := None)
  }

  /** That update applied by `update_one({"_id": id}, ...)`: to the first document with the id, if any. */
  function MarkVerified(docs: seq<UserDoc>, id: ObjectId): (r: seq<UserDoc>)
    ensures |r| == |docs|
    ensures forall i :: 0 <= i < |docs| && i != UserIndexById(docs, id) ==> r[i] == docs[i]
    ensures UserIndexById(docs, id) < |docs| ==> r[UserIndexById(docs, id)] == VerifiedDoc(docs[UserIndexById(docs, id)])
  {
    var k := UserIndexById(docs, id);
    if k < |docs| then docs[k := VerifiedDoc(docs[k])] else docs
  }

  class UsersCollection {
    var docs: seq<UserDoc>

    constructor ()
      ensures docs == []
    {
      docs := [];
    }

    /** `insert_one(doc)` with the `_id` the driver generated; a taken `_id` raises DuplicateKeyError. */
    method InsertOne(doc: UserDoc) returns (inserted: bool)
      modifies this
      ensures inserted <==> FindUserById(old(docs), doc.id).None?
      ensures docs == if inserted then old(docs) + [doc] else old(docs)
    {
      inserted := FindUserById(docs, doc.id).None?;
      if inserted {
        docs := docs + [doc];
      }
    }

    /** `update_one({"_id": id}, {"$set": {"is_verified": True}, "$unset": {...}})`. */
    method MarkVerifiedOne(id: ObjectId) returns (matched: nat)
      modifies this
      ensures matched == if FindUserById(old(docs), id).Some? then 1 else 0
      ensures docs == MarkVerified(old(docs), id)
    {
      matched := if FindUserById(docs, id).Some? then 1 else 0;
      docs := MarkVerified(docs, id);
    }
  }

  // ---- products -----------------------------------------------------------------------------------

  /** The position of the first document with this `_id`, or |docs| when there is none. */
  function ProductIndexById(docs: seq<ProductDoc>, id: ObjectId): (k: nat)
    ensures k <= |docs|
    ensures k < |docs| ==> docs[k].id == id
    ensures forall j :: 0 <= j < k ==> docs[j].id != id
  {
    if docs == [] then 0
    else if docs[0].id == id then 0
    else 1 + ProductIndexById(docs[1..], id)
  }

  /** `products_collection.find_one({"_id": id})`. */
  function FindProductById(docs: seq<ProductDoc>, id: ObjectId): (p: Option<ProductDoc>)
    ensures p.Some? ==> p.value in docs && p.value.id == id
    ensures p.None? <==> forall i :: 0 <= i < |docs| ==> docs[i].id != id
  {
    var k := ProductIndexById(docs, id);
    if k < |docs| then Some(docs[k]) else None
  }

  /** The position of the first document matching `{"_id": id, "owner_id": owner}`, or |docs|. */
  function ProductIndex(docs: seq<ProductDoc>, id: ObjectId, owner: ObjectId): (k: nat)
    ensures k <= |docs|
    ensures k < |docs| ==> docs[k].id == id && docs[k].ownerId == owner
    ensures forall j :: 0 <= j < k ==> docs[j].id != id || docs[j].ownerId != owner
  {
    if docs == [] then 0
    else if docs[0].id == id && docs[0].ownerId == owner then 0
    else 1 + ProductIndex(docs[1..], id, owner)
  }

  /** `find_one({"_id": id, "owner_id": owner})`. */
  function FindProduct(docs: seq<ProductDoc>, id: ObjectId, owner: ObjectId): (p: Option<ProductDoc>)
    ensures p.Some? ==> p.value in docs && p.value.id == id && p.value.ownerId == owner
    ensures p.None? <==> forall i :: 0 <= i < |docs| ==> docs[i].id != id || docs[i].ownerId != owner
  {
    var k := ProductIndex(docs, id, owner);
    if k < |docs| then Some(docs[k]) else None
  }

  /** True when a `$set` document sets no field: `update_data` is an empty dict. */
  predicate IsEmptyUpdate(u: Models.ProductUpdate) {
    u.title.None? && u.description.None? && u.price.None? && u.quantity.None? && u.imageUrl.None?
  }

  /** `{"$set": update_data}` applied to one document, where `update_data` holds the fields of `u` that
      are not None. */
  function ApplySet(d: ProductDoc, u: Models.ProductUpdate): (r: ProductDoc)
    ensures r.id == d.id && r.ownerId == d.ownerId
    ensures r.title == (if u.title.Some? then u.title.value else d.title)
    ensures r.description == (if u.description.Some? then u.description else d.description)
    ensures r.price == (if u.price.Some? then u.price.value else d.price)
    ensures r.quantity == (if u.quantity.Some? then u.quantity.value else d.quantity)
    ensures r.imageUrl == (if u.imageUrl.Some? then u.imageUrl else d.imageUrl)
  {
    d.(title := u.title.GetOr(d.title),
       description := if u.description.Some? then u.description else d.description,
       price := u.price.GetOr(d.price),
       quantity := u.quantity.GetOr(d.quantity),
       imageUrl := if u.imageUrl.Some? then u.imageUrl else d.imageUrl)
  }

  class ProductsCollection {
    var docs: seq<ProductDoc>

    constructor ()
      ensures docs == []
    {
      docs := [];
    }

    /** `insert_one(doc)` with the `_id` the driver generated; a taken `_id` raises DuplicateKeyError. */
    method InsertOne(doc: ProductDoc) returns (inserted: bool)
      modifies this
      ensures inserted <==> ProductIndexById(old(docs), doc.id) == |old(docs)|
      ensures docs == if inserted then old(docs) + [doc] else old(docs)
    {
      inserted := ProductIndexById(docs, doc.id) == |docs|;
      if inserted {
        docs := docs + [doc];
      }
    }

    /** `update_one({"_id": id, "owner_id": owner}, {"$set": update_data})`; returns `matched_count`. */
    method UpdateOne(id: ObjectId, owner: ObjectId, u: Models.ProductUpdate) returns (matched: nat)
      modifies this
      ensures var k := ProductIndex(old(docs), id, owner);
        && matched == (if k < |old(docs)| then 1 else 0)
        && docs == if k < |old(docs)| then old(docs)[k := ApplySet(old(docs)[k], u)] else old(docs)
    {
      var k := ProductIndex(docs, id, owner);
      if k < |docs| {
        docs := docs[k := ApplySet(docs[k], u)];
        matched := 1;
      } else {
        matched := 0;
      }
    }

    /** `delete_one({"_id": id, "owner_id": owner})`; returns `deleted_count`. */
    method DeleteOne(id: ObjectId, owner: ObjectId) returns (deleted: nat)
      modifies this
      ensures var k := ProductIndex(old(docs), id, owner);
        && deleted == (if k < |old(docs)| then 1 else 0)
        && docs == if k < |old(docs)| then old(docs)[..k] + old(docs)[k + 1..] else old(docs)
    {
      var k := ProductIndex(docs, id, owner);
      if k < |docs| {
        docs := docs[..k] + docs[k + 1..];
        deleted := 1;
      } else {
        deleted := 0;
      }
    }
  }
}
