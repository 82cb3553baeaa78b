/**
 * The rows of the tables declared under src/entities, one datatype per table, and the
 * order status strings of src/types/misc.ts.  Integer ids are the autoincrement primary
 * keys; DECIMAL columns (price, rating, discount) are integers in a fixed unit.
 */
module Entities {
  import opened Wrappers

  /** A row of `users`.  `isVerified` is read by the auth controller but is not a declared
      column, so it is absent (None) on every row: the one write to it is dropped. */
  datatype User = User(id: int, name: string, email: string, password: string,
                       mobile: string, isVerified: Option<bool>)

  /** A row of `carts`: one per user, created at sign-up. */
  datatype Cart = Cart(id: int, userId: int)

  /** A row of `cartItems`: a quantity of one product in one cart. */
  datatype CartItem = CartItem(id: int, quantity: int, cartId: int, productId: int)

  /** A row of `products`, owned by the seller `userId`; `updatedAt` is the timestamp
      the ORM keeps up to date on every create and update. */
  datatype Product = Product(id: int, title: string, imageUrl: string, price: int,
                             description: string, rating: int, discount: int,
                             category: string, userId: int, updatedAt: int)

  /** A row of `orders`. */
  datatype Order = Order(id: int, status: string, isCancelled: bool, userId: int)

  /** A row of `orderDetails`: one ordered product and its quantity. */
  datatype OrderDetail = OrderDetail(id: int, orderId: int, productId: int, quantity: int)

  /** A row of `otps`: a verification code sent to an email address. */
  datatype Otp = Otp(id: int, email: string, otp: int)

  /** The order status strings. */
  const CONFIRMED: string := "confirmed"
  const PENDING: string := "pending"
  const SHIPPED: string := "shipped"
  const DELIVERED: string := "delivered"
  const CANCELLED: string := "cancelled"

  /** Column default of `rating` and `discount`. */
  const DECIMAL_DEFAULT: int := 0

  /** Key columns, as named functions so that every mention of a key is the same term. */
  function UserId(u: User): int { u.id }
  function UserEmail(u: User): string { u.email }
  function UserMobile(u: User): string { u.mobile }
  function CartId(c: Cart): int { c.id }
  function CartOwner(c: Cart): int { c.userId }
  function CartItemId(i: CartItem): int { i.id }
  function CartItemPair(i: CartItem): (int, int) { (i.cartId, i.productId) }
  function ProductId(p: Product): int { p.id }
  function OrderId(o: Order): int { o.id }
  function OrderDetailId(d: OrderDetail): int { d.id }
  function OtpId(o: Otp): int { o.id }

  /** `where` clauses, built by named functions so that a handler and its contract
      mention the same predicate. */
  function UserWithId(id: int): User -> bool { (u: User) => u.id == id }
  function UserWithEmail(email: string): User -> bool { (u: User) => u.email == email }
  function UserWithMobile(mobile: string): User -> bool { (u: User) => u.mobile == mobile }
  function CartOf(userId: int): Cart -> bool { (c: Cart) => c.userId == userId }
  function LineWithId(id: int): CartItem -> bool { (i: CartItem) => i.id == id }
  function LineOther(id: int): CartItem -> bool { (i: CartItem) => i.id != id }
  function LineFor(cartId: int, productId: int): CartItem -> bool {
    (i: CartItem) => i.cartId == cartId && i.productId == productId
  }
  function LineInCart(cartId: int): CartItem -> bool { (i: CartItem) => i.cartId == cartId }
  function ProductWithId(id: int): Product -> bool { (p: Product) => p.id == id }
  function ProductOther(id: int): Product -> bool { (p: Product) => p.id != id }
  function ProductOf(userId: int): Product -> bool { (p: Product) => p.userId == userId }
  function OwnedProduct(id: int, userId: int): Product -> bool { (p: Product) => p.id == id && p.userId == userId }
  function OrderWithId(id: int): Order -> bool { (o: Order) => o.id == id }
  function DetailOf(orderId: int): OrderDetail -> bool { (d: OrderDetail) => d.orderId == orderId }
  function OtpFor(email: string): Otp -> bool { (o: Otp) => o.email == email }
  function OtpNotFor(email: string): Otp -> bool { (o: Otp) => o.email != email }
}
