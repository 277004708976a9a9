/**
 The persistent state behind the handlers: the User, Product, Cart, Order and
 OrderItem tables, held as an immutable value. Each handler of the model maps
 a request and a store to a reply and the next store.

 Row order is insertion order. Identifiers come from one counter, `nextId`,
 that only grows; the model needs fresh identifiers, not one counter per table.
 */
module Db {
  import opened Wrappers
  import Seqs

  datatype User = User(id: int, name: string, email: string, password: string, createdAt: int)

  datatype Product = Product(
    id: int,
    name: string,
    description: string,
    price: int,
    category: string,
    subCategory: string,
    sizes: seq<string>,
    bestSeller: bool,
    image: seq<string>,
    createdAt: int)

  /** A cart line; `sizes` is the JSON text of a one-element list holding the size. */
  datatype CartRow = CartRow(id: int, userId: int, productId: int, sizes: string, quantity: int)

  /** A shipping address, stored verbatim as the JSON object the client sent. */
  datatype Address = Address(fields: map<string, string>)

  /** A snapshot of one purchased line, owned by its order. */
  datatype OrderItem = OrderItem(productId: int, size: string, quantity: int)

  /**
   An order. `status` is `None` while it is left to the column's default;
   `sessionId` is the payment provider's checkout session, once known.
   */
  datatype Order = Order(
    id: int,
    userId: int,
    amount: int,
    address: Address,
    paymentMethod: string,
    payment: bool,
    date: int,
    status: Option<string>,
    items: seq<OrderItem>,
    sessionId: Option<string>)

  datatype Store = Store(
    users: seq<User>,
    products: seq<Product>,
    carts: seq<CartRow>,
    orders: seq<Order>,
    nextId: int)

  /**
   What a handler sends back: an HTTP status with the envelope's `success`
   flag, or nothing at all when the handler's promise rejects outside any
   try/catch.
   */
  datatype Reply = Reply(status: int, success: bool) | NoReply

  const Ok := Reply(200, true)

  /** The result of a handler: its reply, the store afterwards, and its payload. */
  datatype Outcome<T> = Outcome(reply: Reply, store: Store, body: T)

  /** `Number(x)` of a request field: a number or NaN. */
  datatype Num = NaN | Val(v: int)

  /** A JavaScript number is falsy when it is 0 or NaN. */
  predicate Falsy(n: Num)
  {
    n.NaN? || n.v == 0
  }

  // ---------------------------------------------------------------------------
  // Lookups
  // ---------------------------------------------------------------------------

  /** `prisma.user.findUnique({ where: { id } })` is non-null. */
  predicate HasUser(s: Store, id: int)
  {
    exists i :: 0 <= i < |s.users| && s.users[i].id == id
  }

  function UserIndex(s: Store, id: int): (r: Option<nat>)
    ensures r.Some? <==> HasUser(s, id)
    ensures r.Some? ==> r.value < |s.users| && s.users[r.value].id == id
  {
    Seqs.FirstIndex(s.users, (u: User) => u.id == id)
  }

  function OrderIndex(s: Store, id: int): (r: Option<nat>)
    ensures r.Some? ==> r.value < |s.orders| && s.orders[r.value].id == id
    ensures r.None? ==> forall j :: 0 <= j < |s.orders| ==> s.orders[j].id != id
  {
    Seqs.FirstIndex(s.orders, (o: Order) => o.id == id)
  }

  function ProductIndex(s: Store, id: int): (r: Option<nat>)
    ensures r.Some? ==> r.value < |s.products| && s.products[r.value].id == id
    ensures r.None? ==> forall j :: 0 <= j < |s.products| ==> s.products[j].id != id
  {
    Seqs.FirstIndex(s.products, (p: Product) => p.id == id)
  }

  // ---------------------------------------------------------------------------
  // Deletions shared by several handlers
  // ---------------------------------------------------------------------------

  /** `prisma.cart.deleteMany({ where: { UserId } })`: every other user's line survives, in order. */
  function DeleteCartRowsOf(carts: seq<CartRow>, userId: int): (r: seq<CartRow>)
    ensures forall i :: 0 <= i < |r| ==> r[i].userId != userId && r[i] in carts
    ensures forall i :: 0 <= i < |carts| && carts[i].userId != userId ==> carts[i] in r
  {
    Seqs.Filter(carts, (c: CartRow) => c.userId != userId)
  }

  /** `prisma.order.deleteMany({ where: { UserId } })`, taking each order's items with it. */
  function DeleteOrdersOf(orders: seq<Order>, userId: int): (r: seq<Order>)
    ensures forall i :: 0 <= i < |r| ==> r[i].userId != userId && r[i] in orders
    ensures forall i :: 0 <= i < |orders| && orders[i].userId != userId ==> orders[i] in r
  {
    Seqs.Filter(orders, (o: Order) => o.userId != userId)
  }

  /** Clearing one user's cart a second time changes nothing. */
  lemma DeleteCartRowsOfIdempotent(carts: seq<CartRow>, userId: int)
    ensures DeleteCartRowsOf(DeleteCartRowsOf(carts, userId), userId) == DeleteCartRowsOf(carts, userId)
  {
    Seqs.FilterIdempotent(carts, (c: CartRow) => c.userId != userId);
  }
}
