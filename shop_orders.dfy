/**
 * The order side of the shop controller (shop.controller.ts): placing an order from a
 * cart, and reading or cancelling an order.
 */
module ShopOrders {
  import opened Wrappers
  import opened Tables
  import opened Entities
  import opened Http
  import opened Store

  /** The order lines created from cart lines: one per cart line, with consecutive ids
      from `firstId`, the same product and the same quantity. */
  function DetailsFor(lines: seq<CartItem>, orderId: int, firstId: int): seq<OrderDetail> {
    seq(|lines|, k requires 0 <= k < |lines| =>
      OrderDetail(firstId + k, orderId, lines[k].productId, lines[k].quantity))
  }

  /** The product ids of some cart lines. */
  function ProductIds(lines: seq<CartItem>): set<int> {
    set i | i in lines :: i.productId
  }

  /** A line whose product is none of `ids`: what survives `CartItem.destroy({ where:
      { productId } })` issued once per id, whatever cart the line is in. */
  function LineNotFor(ids: set<int>): CartItem -> bool {
    (i: CartItem) => i.productId !in ids
  }

  /** The cart lines after placing an order from cart `cartId`, as the source clears them:
      by product id, in every cart. */
  function ClearOrdered(items: seq<CartItem>, cartId: int): seq<CartItem> {
    Where(items, LineNotFor(ProductIds(Where(items, LineInCart(cartId)))))
  }

  /**
   * postOrder (shop.controller.ts:319-356): one order with status "confirmed" owned by
   * the caller, one order line per line of cart `cartId`, and then every line of every
   * cart whose product was in cart `cartId` is destroyed.  Neither the owner of the cart
   * nor its emptiness is checked: the order is created in every case.
   */
  method PostOrder(db: Database, userId: int, cartId: int) returns (out: Outcome)
    requires db.Valid()
    modifies db`orders, db`nextOrderId, db`orderDetails, db`nextOrderDetailId, db`cartItems
    ensures db.Valid()
    ensures out == Reply(200, "Order created!")
    ensures db.orders == old(db.orders) + [Order(old(db.nextOrderId), CONFIRMED, false, userId)]
    ensures db.nextOrderId == old(db.nextOrderId) + 1
    ensures var lines := Where(old(db.cartItems), LineInCart(cartId));
      db.orderDetails == old(db.orderDetails) + DetailsFor(lines, old(db.nextOrderId), old(db.nextOrderDetailId)) &&
      db.nextOrderDetailId == old(db.nextOrderDetailId) + |lines|
    ensures db.cartItems == ClearOrdered(old(db.cartItems), cartId)
  {
    var cartItems := Where(db.cartItems, LineInCart(cartId));
    var orderId := db.nextOrderId;
    AppendFresh(db.orders, Order(orderId, CONFIRMED, false, userId), OrderId);
    db.orders := db.orders + [Order(orderId, CONFIRMED, false, userId)];
    db.nextOrderId := db.nextOrderId + 1;
    CreateDetails(db, cartItems, orderId);
    DestroyByProduct(db, cartItems);
    return Reply(200, "Order created!");
  }

  /** The first half of `Promise.all` in postOrder: `OrderDetails.create` per cart line. */
  method CreateDetails(db: Database, cartItems: seq<CartItem>, orderId: int)
    requires DistinctBy(db.orderDetails, OrderDetailId)
    requires KeysBelow(db.orderDetails, OrderDetailId, db.nextOrderDetailId)
    modifies db`orderDetails, db`nextOrderDetailId
    ensures DistinctBy(db.orderDetails, OrderDetailId)
    ensures KeysBelow(db.orderDetails, OrderDetailId, db.nextOrderDetailId)
    ensures db.orderDetails == old(db.orderDetails) + DetailsFor(cartItems, orderId, old(db.nextOrderDetailId))
    ensures db.nextOrderDetailId == old(db.nextOrderDetailId) + |cartItems|
  {
    ghost var first := db.nextOrderDetailId;
    var k := 0;
    while k < |cartItems|
      invariant 0 <= k <= |cartItems|
      invariant db.nextOrderDetailId == first + k
      invariant db.orderDetails == old(db.orderDetails) + DetailsFor(cartItems[..k], orderId, first)
      invariant DistinctBy(db.orderDetails, OrderDetailId)
      invariant KeysBelow(db.orderDetails, OrderDetailId, db.nextOrderDetailId)
    {
      var detail := OrderDetail(db.nextOrderDetailId, orderId, cartItems[k].productId, cartItems[k].quantity);
      AppendFresh(db.orderDetails, detail, OrderDetailId);
      assert DetailsFor(cartItems[..k + 1], orderId, first) == DetailsFor(cartItems[..k], orderId, first) + [detail];
      db.orderDetails := db.orderDetails + [detail];
      db.nextOrderDetailId := db.nextOrderDetailId + 1;
      k := k + 1;
    }
    assert cartItems[..k] == cartItems;
  }

  /** The second half of `Promise.all` in postOrder: `CartItem.destroy({ where: { productId } })`
      per cart line, which is not restricted to any cart. */
  method DestroyByProduct(db: Database, cartItems: seq<CartItem>)
    requires LinesValid(db.cartItems, db.nextCartItemId)
    modifies db`cartItems
    ensures LinesValid(db.cartItems, db.nextCartItemId)
    ensures db.cartItems == Where(old(db.cartItems), LineNotFor(ProductIds(cartItems)))
  {
    assert ProductIds(cartItems[..0]) == {};
    WhereAll(db.cartItems, LineNotFor(ProductIds(cartItems[..0])));
    var j := 0;
    while j < |cartItems|
      invariant 0 <= j <= |cartItems|
      invariant db.cartItems == Where(old(db.cartItems), LineNotFor(ProductIds(cartItems[..j])))
    {
      var productId := cartItems[j].productId;
      DestroyStep(old(db.cartItems), cartItems, j);
      db.cartItems := Where(db.cartItems, LineNotFor({productId}));
      j := j + 1;
    }
    assert cartItems[..j] == cartItems;
    WhereDistinct(old(db.cartItems), LineNotFor(ProductIds(cartItems)), CartItemId);
    WhereDistinct(old(db.cartItems), LineNotFor(ProductIds(cartItems)), CartItemPair);
  }

  /** One more `destroy` by product id removes that product's lines too. */
  lemma DestroyStep(items: seq<CartItem>, cartItems: seq<CartItem>, j: nat)
    requires j < |cartItems|
    ensures Where(Where(items, LineNotFor(ProductIds(cartItems[..j]))), LineNotFor({cartItems[j].productId}))
         == Where(items, LineNotFor(ProductIds(cartItems[..j + 1])))
  {
    var before, id := ProductIds(cartItems[..j]), cartItems[j].productId;
    assert cartItems[..j + 1] == cartItems[..j] + [cartItems[j]];
    assert ProductIds(cartItems[..j + 1]) == before + {id};
    WhereWhere(items, LineNotFor(before), LineNotFor({id}), LineNotFor(before + {id}));
  }

  /** The order lines `postOrder` creates match the cart lines one to one: same count,
      and the k-th order line carries the k-th cart line's product and quantity. */
  lemma DetailsMatchLines(lines: seq<CartItem>, orderId: int, firstId: int)
    ensures |DetailsFor(lines, orderId, firstId)| == |lines|
    ensures forall k :: 0 <= k < |lines| ==>
      DetailsFor(lines, orderId, firstId)[k].orderId == orderId &&
      DetailsFor(lines, orderId, firstId)[k].productId == lines[k].productId &&
      DetailsFor(lines, orderId, firstId)[k].quantity == lines[k].quantity
  {
  }

  /** The number of items over some cart lines. */
  function LinesQuantity(lines: seq<CartItem>): int
    decreases |lines|
  {
    if lines == [] then 0 else LinesQuantity(lines[..|lines| - 1]) + lines[|lines| - 1].quantity
  }

  /** The number of items over some order lines. */
  function DetailsQuantity(details: seq<OrderDetail>): int
    decreases |details|
  {
    if details == [] then 0 else DetailsQuantity(details[..|details| - 1]) + details[|details| - 1].quantity
  }

  /** An order holds as many items as the cart it was placed from. */
  lemma {:induction false} DetailsKeepQuantity(lines: seq<CartItem>, orderId: int, firstId: int)
    ensures DetailsQuantity(DetailsFor(lines, orderId, firstId)) == LinesQuantity(lines)
    decreases |lines|
  {
    if lines != [] {
      var init := lines[..|lines| - 1];
      DetailsKeepQuantity(init, orderId, firstId);
      assert DetailsFor(lines, orderId, firstId)[..|lines| - 1] == DetailsFor(init, orderId, firstId);
    }
  }

  /** After an order, no cart at all holds a product of the ordered cart. */
  lemma ClearOrderedEverywhere(items: seq<CartItem>, cartId: int)
    ensures forall i :: i in ClearOrdered(items, cartId) ==>
      i.productId !in ProductIds(Where(items, LineInCart(cartId)))
    ensures forall i :: i in items && i.productId !in ProductIds(Where(items, LineInCart(cartId))) ==>
      i in ClearOrdered(items, cartId)
  {
  }

  /** As written, ordering from one cart empties another user's cart of the same product:
      a line of cart 2 for product 7 is destroyed when cart 1, which also holds product 7,
      is ordered. */
  lemma OrderClearsOtherCarts()
    ensures var items := [CartItem(1, 1, 1, 7), CartItem(2, 3, 2, 7)];
      CartItem(2, 3, 2, 7) !in ClearOrdered(items, 1)
  {
    var items := [CartItem(1, 1, 1, 7), CartItem(2, 3, 2, 7)];
    assert CartItem(1, 1, 1, 7) in Where(items, LineInCart(1));
  }

  /** A line outside cart `cartId`. */
  function LineOutside(cartId: int): CartItem -> bool { (i: CartItem) => i.cartId != cartId }

  /** The cart lines after an order from cart `cartId` that clears only that cart. */
  function ClearCart(items: seq<CartItem>, cartId: int): seq<CartItem> {
    Where(items, LineOutside(cartId))
  }

  /** Clearing only the ordered cart empties it, keeps every other cart's lines in their
      order, and removes at least what the product-wise clearing removes from that cart. */
  lemma ClearCartKeepsOtherCarts(items: seq<CartItem>, cartId: int)
    ensures forall i :: i in ClearCart(items, cartId) <==> i in items && i.cartId != cartId
    ensures Where(ClearCart(items, cartId), LineInCart(cartId)) == []
    ensures forall other :: other != cartId ==>
      Where(ClearCart(items, cartId), LineInCart(other)) == Where(items, LineInCart(other))
  {
    forall other | other != cartId
      ensures Where(ClearCart(items, cartId), LineInCart(other)) == Where(items, LineInCart(other))
    {
      WhereWhere(items, LineOutside(cartId), LineInCart(other), LineInCart(other));
    }
    var left := ClearCart(items, cartId);
    assert forall i :: i in left ==> !LineInCart(cartId)(i);
    WhereNone(left, LineInCart(cartId));
  }

  /** `order` with status "cancelled" and the cancellation flag set. */
  function MarkCancelled(o: Order): Order {
    o.(status := CANCELLED, isCancelled := true)
  }

  /** `Orders.update({ status: cancelled, isCancelled: true }, { where: { id } })`. */
  function CancelIn(orders: seq<Order>, orderId: int): seq<Order> {
    UpdateWhere(orders, OrderWithId(orderId), MarkCancelled)
  }

  /** Cancelling marks the order with that id cancelled, and only it. */
  lemma CancelMarksOnlyThatOrder(orders: seq<Order>, orderId: int)
    ensures |CancelIn(orders, orderId)| == |orders|
    ensures forall k :: 0 <= k < |orders| && orders[k].id == orderId ==>
      CancelIn(orders, orderId)[k].status == CANCELLED && CancelIn(orders, orderId)[k].isCancelled &&
      CancelIn(orders, orderId)[k].id == orders[k].id && CancelIn(orders, orderId)[k].userId == orders[k].userId
    ensures forall k :: 0 <= k < |orders| && orders[k].id != orderId ==>
      CancelIn(orders, orderId)[k] == orders[k]
  {
  }

  /** Cancelling twice leaves the same table as cancelling once. */
  lemma CancelIdempotent(orders: seq<Order>, orderId: int)
    ensures CancelIn(CancelIn(orders, orderId), orderId) == CancelIn(orders, orderId)
  {
    var once := CancelIn(orders, orderId);
    var twice := CancelIn(once, orderId);
    forall k | 0 <= k < |orders| ensures twice[k] == once[k] {
      if orders[k].id == orderId {
        assert once[k] == MarkCancelled(orders[k]);
      }
    }
  }

  /**
   * getOrderDetail (shop.controller.ts:382-418).  With `action=cancel` the order with that
   * id is marked cancelled, whoever owns it and whether or not it exists, and the answer
   * is 200.  Otherwise nothing changes and the answer carries the order's lines and its
   * status (None when there is no such order).
   */
  method GetOrderDetail(db: Database, orderId: int, action: Option<string>)
    returns (out: Outcome, status: Option<string>, details: seq<OrderDetail>)
    requires db.Valid()
    modifies db`orders
    ensures db.Valid()
    ensures action == Some("cancel") ==>
      out == Reply(200, "Order cancelled") && db.orders == CancelIn(old(db.orders), orderId) &&
      status == None && details == []
    ensures action != Some("cancel") ==>
      out == Reply(200, "") && db.orders == old(db.orders) &&
      details == Where(db.orderDetails, DetailOf(orderId)) &&
      (forall d :: d in details <==> d in db.orderDetails && d.orderId == orderId) &&
      status == (match FindFirst(db.orders, OrderWithId(orderId))
                 case Some(o) => Some(o.status)
                 case None => None)
  {
    if action == Some("cancel") {
      var orders := db.orders;
      assert forall x :: OrderId(MarkCancelled(x)) == OrderId(x);
      UpdateWhereDistinct(orders, OrderWithId(orderId), MarkCancelled, OrderId);
      UpdateWhereKeysBelow(orders, OrderWithId(orderId), MarkCancelled, OrderId, db.nextOrderId);
      db.orders := CancelIn(db.orders, orderId);
      return Reply(200, "Order cancelled"), None, [];
    }
    details := Where(db.orderDetails, DetailOf(orderId));
    var order := FindFirst(db.orders, OrderWithId(orderId));
    status := if order.Some? then Some(order.value.status) else None;
    out := Reply(200, "");
  }
}
