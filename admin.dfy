/**
 * The seller side (admin.controller.ts): a seller creates products and reads, filters,
 * updates and deletes the products it owns.
 *
 * Every status the handlers send, and the status their catch blocks assign, is read from
 * `env.statuscode`, which the `Env` class of configs/env.ts does not declare or assign.
 * The handlers therefore take that object as `codes`: with `None` (the configuration as
 * written) reading it throws, also inside the catch block, so the handler never answers
 * (Unanswered), although any table write issued before the read has happened.
 */
module Admin {
  import opened Wrappers
  import opened Tables
  import opened Entities
  import opened Http
  import opened Store
  import opened Catalog

  /** The status codes the handlers read from `env.statuscode`. */
  datatype StatusCodes = StatusCodes(success: int, notFound: int, unauthorized: int,
                                     internalServerError: int)

  /** The fields of `CreateProductDto` that createProduct stores. */
  datatype ProductFields = ProductFields(title: string, imageUrl: string, price: int,
                                         description: string, category: string)

  /** The fields of `UpdateProductDto` that updateProduct writes. */
  datatype ProductChanges = ProductChanges(title: Field<string>, imageUrl: Field<string>,
                                           price: Field<int>, description: Field<string>,
                                           category: Field<string>)

  /** Some written field is `null`.  Every one of them is declared `allowNull: false`, so
      `Model.update` rejects the whole statement with a validation error. */
  predicate HasNull(changes: ProductChanges) {
    changes.title.NullValue? || changes.imageUrl.NullValue? || changes.price.NullValue? ||
    changes.description.NullValue? || changes.category.NullValue?
  }


  /** The answer `res.status(codes.<pick>).json(...)` gives, or none when `codes` is absent. */
  function Answer(codes: Option<StatusCodes>, pick: StatusCodes -> int, message: string): (out: Outcome)
    ensures codes.None? <==> out == Unanswered
    ensures codes.Some? ==> out == Reply(pick(codes.value), message)
  {
    match codes
    case None => Unanswered
    case Some(c) => Reply(pick(c), message)
  }

  /** The catch block: an error without `statusCode` gets
      `env.statuscode.internal_server_error` and is passed to `next`; with `codes` absent
      that read throws again and nothing answers. */
  function Failure(codes: Option<StatusCodes>): (out: Outcome)
    ensures codes.None? <==> out == Unanswered
    ensures codes.Some? ==> out == Forward(codes.value.internalServerError)
  {
    match codes
    case None => Unanswered
    case Some(c) => Forward(c.internalServerError)
  }

  function Success(c: StatusCodes): int { c.success }
  function NotFound(c: StatusCodes): int { c.notFound }
  function Unauthorized(c: StatusCodes): int { c.unauthorized }

  /** The product a seller creates: the default rating and discount, stamped `now`. */
  function NewProduct(id: int, fields: ProductFields, userId: int, now: int): Product {
    Product(id, fields.title, fields.imageUrl, fields.price, fields.description,
            DECIMAL_DEFAULT, DECIMAL_DEFAULT, fields.category, userId, now)
  }

  /**
   * createProduct (admin.controller.ts:9-29): one new product owned by the caller, with
   * the next id; 201 whatever `codes` is, since only the catch block reads it.
   */
  method CreateProduct(db: Database, userId: int, fields: ProductFields, now: int) returns (out: Outcome)
    requires db.Valid()
    modifies db`products, db`nextProductId
    ensures db.Valid()
    ensures out == Reply(201, "Product created!")
    ensures db.products == old(db.products) + [NewProduct(old(db.nextProductId), fields, userId, now)]
    ensures db.nextProductId == old(db.nextProductId) + 1
  {
    var product := NewProduct(db.nextProductId, fields, userId, now);
    AppendFresh(db.products, product, ProductId);
    db.products := db.products + [product];
    db.nextProductId := db.nextProductId + 1;
    return Reply(201, "Product created!");
  }

  /** A product created with a fresh id is the one its owner then finds under that id. */
  lemma CreatedIsFoundByOwner(products: seq<Product>, p: Product)
    requires forall q :: q in products ==> q.id != p.id
    ensures FindFirst(products + [p], OwnedProduct(p.id, p.userId)) == Some(p)
    ensures GetProductDetail(products + [p], p.id, p.userId, None).rows == [p]
  {
    FindFirstSkip(products, [p], OwnedProduct(p.id, p.userId));
  }

  function Price(p: Product): int { p.price }

  /** The caller's products sorted by price hold exactly the caller's rows, in ascending
      price order. */
  lemma OwnedByPrice(products: seq<Product>, userId: int)
    ensures var rows := SortBy(Where(products, ProductOf(userId)), Price);
      (forall p :: p in rows <==> p in products && p.userId == userId) &&
      forall i, j :: 0 <= i < j < |rows| ==> rows[i].price <= rows[j].price
  {
    var owned := Where(products, ProductOf(userId));
    var rows := SortBy(owned, Price);
    assert forall p :: ProductOf(userId)(p) <==> p.userId == userId;
    forall p ensures p in rows <==> p in owned {
      assert p in rows <==> p in multiset(rows);
      assert p in owned <==> p in multiset(owned);
    }
    assert forall p :: Price(p) == p.price;
  }

  /**
   * getAllProducts (admin.controller.ts:31-47): the caller's products in ascending price
   * order.  The "No products found!" branch cannot be taken: `findAll` yields an array.
   */
  function GetAllProducts(products: seq<Product>, userId: int, codes: Option<StatusCodes>)
    : (r: Listing<Product>)
    ensures r.outcome == Answer(codes, Success, "")
    ensures codes.Some? ==> forall p :: p in r.rows <==> p in products && p.userId == userId
    ensures codes.Some? ==> multiset(r.rows) == multiset(Where(products, ProductOf(userId)))
    ensures codes.Some? ==> forall i, j :: 0 <= i < j < |r.rows| ==> r.rows[i].price <= r.rows[j].price
  {
    var rows := SortBy(Where(products, ProductOf(userId)), Price);
    OwnedByPrice(products, userId);
    match codes
    case None => Listing(Unanswered, [])
    case Some(_) => Listing(Answer(codes, Success, ""), rows)
  }

  /**
   * getProductDetail (admin.controller.ts:49-66): the product with that id, only when the
   * caller owns it; "No product found" otherwise.
   */
  function GetProductDetail(products: seq<Product>, productId: int, userId: int,
                            codes: Option<StatusCodes>): (r: Listing<Product>)
    ensures |r.rows| <= 1
    ensures forall p :: p in r.rows ==> p in products && p.id == productId && p.userId == userId
    ensures (exists p :: p in products && p.id == productId && p.userId == userId) <==> r.rows != []
    ensures r.outcome == (if r.rows == [] then Answer(codes, NotFound, "No product found")
                          else Answer(codes, Success, ""))
  {
    match FindFirst(products, OwnedProduct(productId, userId))
    case None => Listing(Answer(codes, NotFound, "No product found"), [])
    case Some(p) => Listing(Answer(codes, Success, ""), [p])
  }

  /**
   * filterProduct (admin.controller.ts:68-109): the shop filter restricted to the
   * caller's products; "No product found !" when nothing matches.
   */
  method FilterProduct(db: Database, userId: int, q: FilterQuery, codes: Option<StatusCodes>)
    returns (out: Outcome, rows: seq<Product>)
    ensures forall p :: p in rows <==> p in db.products && Selected(q, p) && p.userId == userId
    ensures out == (if rows == [] then Answer(codes, NotFound, "No product found !")
                    else Answer(codes, Success, ""))
  {
    var filter := BuildFilter(q);
    rows := Where(db.products, MatchingOwned(filter, userId));
    if rows == [] {
      return Answer(codes, NotFound, "No product found !"), [];
    }
    out := Answer(codes, Success, "");
  }

  /** The seller's filter keeps, in the same order, exactly the caller's rows of the shop
      filter over the same table. */
  lemma OwnedFilterIsShopFilter(products: seq<Product>, f: Filter, userId: int)
    ensures Where(products, MatchingOwned(f, userId)) == Where(Where(products, Matching(f)), ProductOf(userId))
  {
    WhereWhere(products, Matching(f), ProductOf(userId), MatchingOwned(f, userId));
  }

  /** The gate of updateProduct and deleteProduct: `findByPk(productId)` found a product
      and its `userId` is the caller's. */
  function Owns(products: seq<Product>, productId: int, userId: int): bool {
    match FindFirst(products, ProductWithId(productId))
    case Some(p) => p.userId == userId
    case None => false
  }

  /** With distinct ids, the gate opens exactly for the owner of an existing product. */
  lemma OwnsSpec(products: seq<Product>, productId: int, userId: int)
    requires DistinctBy(products, ProductId)
    ensures Owns(products, productId, userId) <==>
      exists p :: p in products && p.id == productId && p.userId == userId
  {
    var found := FindFirst(products, ProductWithId(productId));
    if p :| p in products && p.id == productId && p.userId == userId {
      DistinctByMembers(products, ProductId, p, found.value);
    }
  }

  /** Some written field is present.  `Model.update` drops `undefined` values and, when only
      the timestamp is left, returns without issuing a query. */
  predicate Writes(changes: ProductChanges) {
    !changes.title.Absent? || !changes.imageUrl.Absent? || !changes.price.Absent? ||
    !changes.description.Absent? || !changes.category.Absent?
  }

  /** A product after `Product.update(changes)`: the present fields replaced, `updatedAt`
      set to `now` when something is written, every other column kept. */
  function Changed(changes: ProductChanges, now: int): Product -> Product
    requires !HasNull(changes)
  {
    (p: Product) => p.(title := Apply(changes.title, p.title),
                       imageUrl := Apply(changes.imageUrl, p.imageUrl),
                       price := Apply(changes.price, p.price),
                       description := Apply(changes.description, p.description),
                       category := Apply(changes.category, p.category),
                       updatedAt := if Writes(changes) then now else p.updatedAt)
  }

  /** An update writes only title, imageUrl, price, description and category (and the
      timestamp, when one of those is present): id, owner, rating and discount stay, and an
      update with no field present leaves the row as it was. */
  lemma ChangedKeepsTheRest(changes: ProductChanges, now: int, p: Product)
    requires !HasNull(changes)
    ensures var q := Changed(changes, now)(p);
      q.id == p.id && q.userId == p.userId && q.rating == p.rating && q.discount == p.discount &&
      (Writes(changes) ==> q.updatedAt == now) &&
      (!Writes(changes) ==> q == p) &&
      (changes.title.Given? ==> q.title == changes.title.value) &&
      (changes.title.Absent? ==> q.title == p.title) &&
      (changes.imageUrl.Given? ==> q.imageUrl == changes.imageUrl.value) &&
      (changes.imageUrl.Absent? ==> q.imageUrl == p.imageUrl) &&
      (changes.price.Given? ==> q.price == changes.price.value) &&
      (changes.price.Absent? ==> q.price == p.price) &&
      (changes.description.Given? ==> q.description == changes.description.value) &&
      (changes.description.Absent? ==> q.description == p.description) &&
      (changes.category.Given? ==> q.category == changes.category.value) &&
      (changes.category.Absent? ==> q.category == p.category)
  {
  }

  /**
   * updateProduct (admin.controller.ts:111-147).  A caller who does not own the product
   * (or a missing product) is refused and nothing changes.  For the owner, a `null` field
   * makes `Model.update` throw before anything is written, and the catch block decides the
   * outcome; otherwise the product with that id is updated and no other row changes, and
   * with no field present nothing is written, not even the timestamp.  The
   * "Failed to update product" branch cannot be taken: `update` yields an array.
   */
  method UpdateProduct(db: Database, userId: int, productId: int, changes: ProductChanges,
                       now: int, codes: Option<StatusCodes>) returns (out: Outcome)
    requires db.Valid()
    modifies db`products
    ensures db.Valid()
    ensures !Owns(old(db.products), productId, userId) ==>
      out == Answer(codes, Unauthorized, "user not authorized!") && db.products == old(db.products)
    ensures Owns(old(db.products), productId, userId) && HasNull(changes) ==>
      out == Failure(codes) && db.products == old(db.products)
    ensures Owns(old(db.products), productId, userId) && !HasNull(changes) ==>
      out == Answer(codes, Success, "Product Updated!")
    ensures Owns(old(db.products), productId, userId) && !HasNull(changes) && Writes(changes) ==>
      db.products == UpdateWhere(old(db.products), ProductWithId(productId), Changed(changes, now))
    ensures Owns(old(db.products), productId, userId) && !Writes(changes) ==>
      db.products == old(db.products)
    ensures |db.products| == |old(db.products)|
    ensures forall k :: 0 <= k < |db.products| && old(db.products)[k].id != productId ==>
      db.products[k] == old(db.products)[k]
  {
    if !Owns(db.products, productId, userId) {
      return Answer(codes, Unauthorized, "user not authorized!");
    }
    if HasNull(changes) {
      return Failure(codes);
    }
    if !Writes(changes) {
      return Answer(codes, Success, "Product Updated!");
    }
    var products := db.products;
    assert forall p :: ProductId(Changed(changes, now)(p)) == ProductId(p);
    UpdateWhereDistinct(products, ProductWithId(productId), Changed(changes, now), ProductId);
    UpdateWhereKeysBelow(products, ProductWithId(productId), Changed(changes, now), ProductId, db.nextProductId);
    db.products := UpdateWhere(products, ProductWithId(productId), Changed(changes, now));
    out := Answer(codes, Success, "Product Updated!");
  }

  /**
   * deleteProduct (admin.controller.ts:149-168): the same gate; for the owner exactly the
   * product with that id is removed.
   */
  method DeleteProduct(db: Database, userId: int, productId: int, codes: Option<StatusCodes>)
    returns (out: Outcome)
    requires db.Valid()
    modifies db`products
    ensures db.Valid()
    ensures !Owns(old(db.products), productId, userId) ==>
      out == Answer(codes, Unauthorized, "user not authorized!") && db.products == old(db.products)
    ensures Owns(old(db.products), productId, userId) ==>
      out == Answer(codes, Success, "Product deleted!") &&
      db.products == Where(old(db.products), ProductOther(productId)) &&
      |db.products| == |old(db.products)| - 1
    ensures forall p :: p in db.products <==>
      p in old(db.products) && (p.id != productId || !Owns(old(db.products), productId, userId))
  {
    if !Owns(db.products, productId, userId) {
      return Answer(codes, Unauthorized, "user not authorized!");
    }
    var products := db.products;
    WhereDistinct(products, ProductOther(productId), ProductId);
    RemoveOne(products, productId);
    db.products := Where(products, ProductOther(productId));
    out := Answer(codes, Success, "Product deleted!");
  }

  /** Deleting by a primary key that is present removes exactly one row. */
  lemma {:induction false} RemoveOne(products: seq<Product>, productId: int)
    requires DistinctBy(products, ProductId)
    requires exists p :: p in products && p.id == productId
    ensures |Where(products, ProductOther(productId))| == |products| - 1
    decreases |products|
  {
    var init, last := products[..|products| - 1], products[|products| - 1];
    assert products == init + [last];
    assert DistinctBy(init, ProductId);
    if last.id == productId {
      forall q | q in init ensures ProductOther(productId)(q) {
        var k :| 0 <= k < |init| && init[k] == q;
        assert ProductId(products[k]) != ProductId(products[|products| - 1]);
      }
      WhereAll(init, ProductOther(productId));
    } else {
      RemoveOne(init, productId);
    }
  }
}
