/**
 * The relational store the controllers talk to through the ORM, kept in memory: one
 * sequence of rows per table, in table order, and one autoincrement counter per table.
 */
module Store {
  import opened Wrappers
  import opened Tables
  import opened Entities

  /** Cart lines: ids are primary keys below the counter, and a cart holds at most one
      line per product. */
  ghost predicate LinesValid(items: seq<CartItem>, nextId: int) {
    DistinctBy(items, CartItemId) && KeysBelow(items, CartItemId, nextId) &&
    DistinctBy(items, CartItemPair)
  }

  class Database {
    var users: seq<User>
    var carts: seq<Cart>
    var cartItems: seq<CartItem>
    var products: seq<Product>
    var orders: seq<Order>
    var orderDetails: seq<OrderDetail>
    var otps: seq<Otp>

    /** The id the next `create` on each table assigns. */
    var nextUserId: int
    var nextCartId: int
    var nextCartItemId: int
    var nextProductId: int
    var nextOrderId: int
    var nextOrderDetailId: int
    var nextOtpId: int

    /** Users: ids are primary keys, email and mobile are unique columns, and nothing
        ever stores `isVerified = false`. */
    ghost predicate UsersValid()
      reads this
    {
      DistinctBy(users, UserId) && KeysBelow(users, UserId, nextUserId) &&
      DistinctBy(users, UserEmail) && DistinctBy(users, UserMobile) &&
      forall u :: u in users ==> u.isVerified != Some(false)
    }

    /** Carts: ids are primary keys, a user has at most one cart, and a cart's owner
        is a user id already handed out. */
    ghost predicate CartsValid()
      reads this
    {
      DistinctBy(carts, CartId) && KeysBelow(carts, CartId, nextCartId) &&
      DistinctBy(carts, CartOwner) && KeysBelow(carts, CartOwner, nextUserId)
    }

    ghost predicate CartItemsValid()
      reads this
    {
      LinesValid(cartItems, nextCartItemId)
    }

    /** The tables whose only invariant is their primary key. */
    ghost predicate KeysValid()
      reads this
    {
      DistinctBy(products, ProductId) && KeysBelow(products, ProductId, nextProductId) &&
      DistinctBy(orders, OrderId) && KeysBelow(orders, OrderId, nextOrderId) &&
      DistinctBy(orderDetails, OrderDetailId) && KeysBelow(orderDetails, OrderDetailId, nextOrderDetailId) &&
      DistinctBy(otps, OtpId) && KeysBelow(otps, OtpId, nextOtpId)
    }

    ghost predicate Valid()
      reads this
    {
      UsersValid() && CartsValid() && CartItemsValid() && KeysValid()
    }

    /** An empty database, as `sequelize.sync()` creates it. */
    constructor ()
      ensures Valid()
      ensures users == [] && carts == [] && cartItems == [] && products == []
      ensures orders == [] && orderDetails == [] && otps == []
    {
      users, carts, cartItems, products := [], [], [], [];
      orders, orderDetails, otps := [], [], [];
      nextUserId, nextCartId, nextCartItemId, nextProductId := 1, 1, 1, 1;
      nextOrderId, nextOrderDetailId, nextOtpId := 1, 1, 1;
    }
  }
}
