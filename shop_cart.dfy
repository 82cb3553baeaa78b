/**
 * The cart side of the shop controller (shop.controller.ts): the cart total, adding a
 * product to the caller's cart and removing it again.  The handlers are methods on the
 * in-memory database; the table each one leaves behind is given by a function of the old
 * table, and what those functions guarantee is proved as lemmas.
 */
module ShopCart {
  import opened Wrappers
  import opened Tables
  import opened Entities
  import opened Http
  import opened Store

  /** `cartItem.quantity` replaced by `q`, every other column kept. */
  function WithQuantity(q: int): CartItem -> CartItem {
    (i: CartItem) => i.(quantity := q)
  }

  /** The quantity of the line of `productId` in cart `cartId`, 0 when there is none. */
  function LineQuantity(items: seq<CartItem>, cartId: int, productId: int): int {
    match FindFirst(items, LineFor(cartId, productId))
    case Some(line) => line.quantity
    case None => 0
  }

  /** The cart lines after adding `quantity` of a product to a cart: an existing line's
      quantity grows by it, otherwise a line with the next id is appended. */
  function AfterAdd(items: seq<CartItem>, cartId: int, productId: int, quantity: int,
                    freshId: int): seq<CartItem>
  {
    match FindFirst(items, LineFor(cartId, productId))
    case Some(line) => UpdateWhere(items, LineWithId(line.id), WithQuantity(line.quantity + quantity))
    case None => items + [CartItem(freshId, quantity, cartId, productId)]
  }

  /** The line counter after adding: one more only when a line is created. */
  function NextLineId(items: seq<CartItem>, cartId: int, productId: int, freshId: int): int {
    if FindFirst(items, LineFor(cartId, productId)).Some? then freshId else freshId + 1
  }

  /** Adding to a cart keeps the line table valid, leaves exactly one line for the pair
      (cart, product) holding the prior quantity plus the added one, and changes no
      other line. */
  lemma AfterAddSpec(items: seq<CartItem>, cartId: int, productId: int, quantity: int, freshId: int)
    requires LinesValid(items, freshId)
    ensures var r := AfterAdd(items, cartId, productId, quantity, freshId);
      LinesValid(r, NextLineId(items, cartId, productId, freshId)) &&
      (exists i :: i in r && CartItemPair(i) == (cartId, productId)) &&
      (forall i :: i in r && CartItemPair(i) == (cartId, productId) ==>
         i.quantity == LineQuantity(items, cartId, productId) + quantity) &&
      (forall i :: CartItemPair(i) != (cartId, productId) ==> (i in r <==> i in items))
  {
    var found := FindFirst(items, LineFor(cartId, productId));
    var r := AfterAdd(items, cartId, productId, quantity, freshId);
    if found.Some? {
      var line := found.value;
      assert CartItemPair(line) == (cartId, productId);
      assert r == UpdateWhere(items, LineWithId(line.id), WithQuantity(line.quantity + quantity));
      assert LineQuantity(items, cartId, productId) == line.quantity;
      GrowLine(items, line, quantity, freshId);
    } else {
      var added := CartItem(freshId, quantity, cartId, productId);
      assert r == items + [added];
      assert LineQuantity(items, cartId, productId) == 0;
      assert forall i :: i in items ==> !LineFor(cartId, productId)(i);
      AppendLine(items, added, freshId);
      assert added in r;
    }
  }

  /** Growing the quantity of an existing line changes that line only. */
  lemma GrowLine(items: seq<CartItem>, line: CartItem, quantity: int, freshId: int)
    requires LinesValid(items, freshId) && line in items
    ensures var r := UpdateWhere(items, LineWithId(line.id), WithQuantity(line.quantity + quantity));
      LinesValid(r, freshId) &&
      line.(quantity := line.quantity + quantity) in r &&
      (forall i :: i in r && CartItemPair(i) == CartItemPair(line) ==> i.quantity == line.quantity + quantity) &&
      (forall i :: CartItemPair(i) != CartItemPair(line) ==> (i in r <==> i in items))
  {
    var p, f := LineWithId(line.id), WithQuantity(line.quantity + quantity);
    var r := UpdateWhere(items, p, f);
    assert forall x :: CartItemId(f(x)) == CartItemId(x) && CartItemPair(f(x)) == CartItemPair(x);
    UpdateWhereMembers(items, p, f);
    UpdateWhereDistinct(items, p, f, CartItemId);
    UpdateWhereDistinct(items, p, f, CartItemPair);
    UpdateWhereKeysBelow(items, p, f, CartItemId, freshId);
    assert f(line) in r;
    forall i | i in r && CartItemPair(i) == CartItemPair(line)
      ensures i.quantity == line.quantity + quantity
    {
      if i in items && !p(i) {
        DistinctByMembers(items, CartItemPair, i, line);
      } else {
        var y :| y in items && p(y) && i == f(y);
        DistinctByMembers(items, CartItemId, y, line);
      }
    }
    forall i | CartItemPair(i) != CartItemPair(line) ensures i in r <==> i in items {
      if i in r && !(i in items && !p(i)) {
        var y :| y in items && p(y) && i == f(y);
        DistinctByMembers(items, CartItemId, y, line);
      }
      if i in items && p(i) {
        DistinctByMembers(items, CartItemId, i, line);
      }
    }
  }

  /** Appending a line for a pair that has none, with the next id, keeps the table valid. */
  lemma AppendLine(items: seq<CartItem>, added: CartItem, freshId: int)
    requires LinesValid(items, freshId) && added.id == freshId
    requires forall i :: i in items ==> CartItemPair(i) != CartItemPair(added)
    ensures LinesValid(items + [added], freshId + 1)
  {
    AppendFresh(items, added, CartItemId);
    AppendFresh(items, added, CartItemPair);
  }

  /** The price of product `productId`, when the product exists. */
  function PriceOf(products: seq<Product>, productId: int): Option<int> {
    match FindFirst(products, ProductWithId(productId))
    case Some(p) => Some(p.price)
    case None => None
  }

  /** Every line's product still exists, so the joined `cartItem.product` is not null. */
  predicate AllPriced(lines: seq<CartItem>, products: seq<Product>) {
    forall i :: 0 <= i < |lines| ==> PriceOf(products, lines[i].productId).Some?
  }

  /** The sum of quantity × current price over the lines. */
  function Total(lines: seq<CartItem>, products: seq<Product>): int
    requires AllPriced(lines, products)
    decreases |lines|
  {
    if lines == [] then 0
    else
      var last := lines[|lines| - 1];
      Total(lines[..|lines| - 1], products) + last.quantity * PriceOf(products, last.productId).value
  }

  /** One more priced line extends the running total by its quantity times its price. */
  lemma TotalStep(lines: seq<CartItem>, products: seq<Product>, k: int)
    requires 0 <= k < |lines| && AllPriced(lines[..k], products)
    requires PriceOf(products, lines[k].productId).Some?
    ensures AllPriced(lines[..k + 1], products)
    ensures Total(lines[..k + 1], products) ==
      Total(lines[..k], products) + lines[k].quantity * PriceOf(products, lines[k].productId).value
  {
    assert lines[..k + 1][..k] == lines[..k];
  }

  /**
   * getCart (shop.controller.ts:175-212): the caller's cart and `totalPrice`, accumulated
   * line by line.  A caller without a cart, or a line whose product is gone, makes the
   * handler dereference null and forward a 500.  A cart without lines is reported as
   * "cart is empty".
   */
  method GetCart(db: Database, userId: int) returns (out: Outcome, total: int)
    ensures var cart := FindFirst(db.carts, CartOf(userId));
      if cart.None? then out == Forward(500) && total == 0
      else
        var lines := Where(db.cartItems, LineInCart(cart.value.id));
        if !AllPriced(lines, db.products) then out == Forward(500) && total == 0
        else total == Total(lines, db.products) &&
             out == (if lines == [] then Reply(200, "cart is empty") else Reply(200, ""))
  {
    var cart := FindFirst(db.carts, CartOf(userId));
    if cart.None? {
      return Forward(500), 0;
    }
    var lines := Where(db.cartItems, LineInCart(cart.value.id));
    total := 0;
    var k := 0;
    while k < |lines|
      invariant 0 <= k <= |lines|
      invariant AllPriced(lines[..k], db.products)
      invariant total == Total(lines[..k], db.products)
    {
      var price := PriceOf(db.products, lines[k].productId);
      if price.None? {
        assert !AllPriced(lines, db.products) by {
          assert !PriceOf(db.products, lines[k].productId).Some?;
        }
        return Forward(500), 0;
      }
      TotalStep(lines, db.products, k);
      total := total + lines[k].quantity * price.value;
      k := k + 1;
    }
    assert lines[..k] == lines;
    if lines == [] {
      out := Reply(200, "cart is empty");
    } else {
      out := Reply(200, "");
    }
  }

  /**
   * addToCart (shop.controller.ts:214-261): 404 when the product does not exist or the
   * caller has no cart, and then nothing changes; otherwise the line of the product in
   * the caller's cart grows by `quantity`, or a new line is created.
   */
  method AddToCart(db: Database, userId: int, productId: int, quantity: int) returns (out: Outcome)
    requires db.Valid()
    modifies db`cartItems, db`nextCartItemId
    ensures db.Valid()
    ensures FindFirst(db.products, ProductWithId(productId)).None? ==>
      out == Reply(404, "Product not found") &&
      db.cartItems == old(db.cartItems) && db.nextCartItemId == old(db.nextCartItemId)
    ensures FindFirst(db.products, ProductWithId(productId)).Some? &&
            FindFirst(db.carts, CartOf(userId)).None? ==>
      out == Reply(404, "Cart not found for user") &&
      db.cartItems == old(db.cartItems) && db.nextCartItemId == old(db.nextCartItemId)
    ensures FindFirst(db.products, ProductWithId(productId)).Some? &&
            FindFirst(db.carts, CartOf(userId)).Some? ==>
      var cartId := FindFirst(db.carts, CartOf(userId)).value.id;
      out == Reply(200, "Product added to cart") &&
      db.cartItems == AfterAdd(old(db.cartItems), cartId, productId, quantity, old(db.nextCartItemId)) &&
      db.nextCartItemId == NextLineId(old(db.cartItems), cartId, productId, old(db.nextCartItemId)) &&
      (forall i :: i in db.cartItems && CartItemPair(i) == (cartId, productId) ==>
         i.quantity == LineQuantity(old(db.cartItems), cartId, productId) + quantity) &&
      (forall i :: CartItemPair(i) != (cartId, productId) ==>
         (i in db.cartItems <==> i in old(db.cartItems)))
  {
    var product := FindFirst(db.products, ProductWithId(productId));
    if product.None? {
      return Reply(404, "Product not found");
    }
    var cart := FindFirst(db.carts, CartOf(userId));
    if cart.None? {
      return Reply(404, "Cart not found for user");
    }
    var cartId := cart.value.id;
    ghost var items, freshId := db.cartItems, db.nextCartItemId;
    AfterAddSpec(items, cartId, productId, quantity, freshId);
    var line := FindFirst(db.cartItems, LineFor(cartId, productId));
    if line.Some? {
      var updatedQuantity := line.value.quantity + quantity;
      db.cartItems := UpdateWhere(db.cartItems, LineWithId(line.value.id), WithQuantity(updatedQuantity));
    } else {
      db.cartItems := db.cartItems + [CartItem(db.nextCartItemId, quantity, cartId, productId)];
      db.nextCartItemId := db.nextCartItemId + 1;
    }
    assert db.cartItems == AfterAdd(items, cartId, productId, quantity, freshId);
    assert db.nextCartItemId == NextLineId(items, cartId, productId, freshId);
    return Reply(200, "Product added to cart");
  }

  /**
   * removeItemFromCart (shop.controller.ts:263-286): a caller without a cart makes the
   * handler dereference null (500); the route has no validator, so a body without
   * `productId` puts `undefined` in the `where` clause, which the ORM rejects (500); a
   * product without a line in the caller's cart gives 404.  In these cases nothing changes;
   * otherwise exactly that line is destroyed.
   */
  method RemoveItemFromCart(db: Database, userId: int, productId: Option<int>) returns (out: Outcome)
    requires db.Valid()
    modifies db`cartItems
    ensures db.Valid()
    ensures FindFirst(db.carts, CartOf(userId)).None? ==>
      out == Forward(500) && db.cartItems == old(db.cartItems)
    ensures FindFirst(db.carts, CartOf(userId)).Some? && productId.None? ==>
      out == Forward(500) && db.cartItems == old(db.cartItems)
    ensures FindFirst(db.carts, CartOf(userId)).Some? && productId.Some? ==>
      var cartId := FindFirst(db.carts, CartOf(userId)).value.id;
      var line := FindFirst(old(db.cartItems), LineFor(cartId, productId.value));
      if line.None? then out == Reply(404, "Product not exist on this cart") && db.cartItems == old(db.cartItems)
      else out == Reply(200, "Item removed") &&
           db.cartItems == Where(old(db.cartItems), LineOther(line.value.id)) &&
           forall i :: i in db.cartItems <==> i in old(db.cartItems) && CartItemPair(i) != (cartId, productId.value)
  {
    var cart := FindFirst(db.carts, CartOf(userId));
    if cart.None? {
      return Forward(500);
    }
    var cartId := cart.value.id;
    if productId.None? {
      return Forward(500);
    }
    var existing := FindFirst(db.cartItems, LineFor(cartId, productId.value));
    if existing.None? {
      return Reply(404, "Product not exist on this cart");
    }
    ghost var before := db.cartItems;
    db.cartItems := Where(db.cartItems, LineOther(existing.value.id));
    WhereDistinct(before, LineOther(existing.value.id), CartItemId);
    WhereDistinct(before, LineOther(existing.value.id), CartItemPair);
    forall i ensures i in db.cartItems <==> i in before && CartItemPair(i) != (cartId, productId.value) {
      if i in before && CartItemPair(i) == (cartId, productId.value) {
        DistinctByMembers(before, CartItemPair, i, existing.value);
      }
      if i in before && i.id == existing.value.id {
        DistinctByMembers(before, CartItemId, i, existing.value);
      }
    }
    return Reply(200, "Item removed");
  }
}
