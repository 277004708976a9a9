/**
 The order controller: `placeOrder`, `placeOrderStripe`, `verifyStripe`,
 `updateStatus`, `allOrders`, `userOrders`.

 An order goes through: created (cash: payment false, status left to the
 column default; card: payment false, status "Pending"), then, for card
 orders, confirmed by `verifyStripe` (payment true, status "Order Placed"),
 then relabelled by the admin panel through `updateStatus`.
 */
module Orders {
  import opened Wrappers
  import opened Db
  import Seqs
  import Text
  import Cart

  // ---------------------------------------------------------------------------
  // Requests and validation
  // ---------------------------------------------------------------------------

  /** One submitted line; `quantity` 0 stands for a missing or falsy quantity. */
  datatype ItemRequest = ItemRequest(itemId: int, size: string, quantity: int)

  /**
   The order body. `items` is `None` when absent or not an array; `address`
   is `None` when absent, null or not an object; an absent payment method is "".
   */
  datatype PlaceRequest = PlaceRequest(
    items: Option<seq<ItemRequest>>,
    amount: Num,
    address: Option<Address>,
    paymentMethod: string)

  /** The fields `placeOrder` can report as missing, in the order it checks them. */
  datatype Field = UserIdField | ItemsField | AmountField | AddressField | PaymentMethodField

  function Rank(f: Field): nat
  {
    match f
    case UserIdField => 0
    case ItemsField => 1
    case AmountField => 2
    case AddressField => 3
    case PaymentMethodField => 4
  }

  /** The name reported in the `missing` list. */
  function Name(f: Field): string
  {
    match f
    case UserIdField => "userId"
    case ItemsField => "items"
    case AmountField => "amount"
    case AddressField => "address"
    case PaymentMethodField => "paymentMethod"
  }

  predicate ItemsBad(req: PlaceRequest)
  {
    req.items.None? || |req.items.value| == 0
  }

  /** Whether field `f` of the request is missing or invalid. */
  predicate Invalid(userId: int, req: PlaceRequest, f: Field)
  {
    match f
    case UserIdField => userId == 0
    case ItemsField => ItemsBad(req)
    case AmountField => Falsy(req.amount)
    case AddressField => req.address.None?
    case PaymentMethodField => req.paymentMethod == ""
  }

  /** Strictly increasing in check order, hence without repetition. */
  ghost predicate Increasing(fs: seq<Field>)
  {
    forall i, j :: 0 <= i < j < |fs| ==> Rank(fs[i]) < Rank(fs[j])
  }

  function FieldOfRank(k: nat): (f: Field)
    requires k < 5
    ensures Rank(f) == k
  {
    if k == 0 then UserIdField
    else if k == 1 then ItemsField
    else if k == 2 then AmountField
    else if k == 3 then AddressField
    else PaymentMethodField
  }

  /** The invalid fields among those checked from position `k` on, in check order. */
  function MissingFrom(userId: int, req: PlaceRequest, k: nat): (r: seq<Field>)
    requires k <= 5
    ensures forall f :: f in r <==> Invalid(userId, req, f) && Rank(f) >= k
    ensures forall i :: 0 <= i < |r| ==> Rank(r[i]) >= k
    ensures Increasing(r)
    ensures |r| <= 5 - k
    decreases 5 - k
  {
    if k == 5 then []
    else
      var f := FieldOfRank(k);
      var rest := MissingFrom(userId, req, k + 1);
      if Invalid(userId, req, f) then [f] + rest else rest
  }

  /** The `missing` list of `placeOrder`: every invalid field, in check order. */
  function MissingFields(userId: int, req: PlaceRequest): (r: seq<Field>)
    ensures forall f :: f in r <==> Invalid(userId, req, f)
    ensures Increasing(r)
  {
    MissingFrom(userId, req, 0)
  }

  lemma RankFirst(fs: seq<Field>, f: Field)
    requires Increasing(fs) && |fs| > 0 && f in fs
    ensures Rank(fs[0]) <= Rank(f)
  {
  }

  lemma RankInjective(f: Field, g: Field)
    ensures Rank(f) == Rank(g) <==> f == g
  {
  }

  /** Two lists in check order with the same members are the same list. */
  lemma {:induction false} IncreasingUnique(a: seq<Field>, b: seq<Field>)
    requires Increasing(a) && Increasing(b)
    requires forall f :: f in a <==> f in b
    ensures a == b
    decreases |a|
  {
    if |a| > 0 {
      assert a[0] in b;
    }
    if |b| > 0 {
      assert b[0] in a;
    }
    if |a| > 0 {
      RankFirst(a, b[0]);
      RankFirst(b, a[0]);
      RankInjective(a[0], b[0]);
      forall f
        ensures f in a[1..] <==> f in b[1..]
      {
        if f in a[1..] {
          var k :| 1 <= k < |a| && a[k] == f;
          assert Rank(a[0]) < Rank(a[k]) && f in b;
          var m :| 0 <= m < |b| && b[m] == f;
          assert m != 0 && b[1..][m - 1] == f;
        }
        if f in b[1..] {
          var k :| 1 <= k < |b| && b[k] == f;
          assert Rank(b[0]) < Rank(b[k]) && f in a;
          var m :| 0 <= m < |a| && a[m] == f;
          assert m != 0 && a[1..][m - 1] == f;
        }
      }
      IncreasingUnique(a[1..], b[1..]);
      assert a == [a[0]] + a[1..] && b == [b[0]] + b[1..];
    }
  }

  /** The `missing` list is the only list naming exactly the invalid fields in check order. */
  lemma MissingFieldsCharacterised(userId: int, req: PlaceRequest, fs: seq<Field>)
    requires Increasing(fs)
    requires forall f :: f in fs <==> Invalid(userId, req, f)
    ensures fs == MissingFields(userId, req)
  {
    IncreasingUnique(fs, MissingFields(userId, req));
  }

  /** `Number(item.quantity || 1)`: a falsy quantity becomes 1. */
  function LineQuantity(q: int): (r: int)
    ensures r != 0
    ensures q != 0 ==> r == q
  {
    if q == 0 then 1 else q
  }

  /** The order items created from the submitted lines, one per line, in order. */
  function Snapshot(items: seq<ItemRequest>): (r: seq<OrderItem>)
    ensures |r| == |items|
    ensures forall i :: 0 <= i < |r| ==>
      r[i].productId == items[i].itemId && r[i].size == items[i].size
      && r[i].quantity == LineQuantity(items[i].quantity)
    decreases |items|
  {
    if |items| == 0 then []
    else [OrderItem(items[0].itemId, items[0].size, LineQuantity(items[0].quantity))] + Snapshot(items[1..])
  }

  // ---------------------------------------------------------------------------
  // Placing orders
  // ---------------------------------------------------------------------------

  /** Every order id was handed out by the store's counter. */
  ghost predicate FreshOrderIds(s: Store)
  {
    forall j :: 0 <= j < |s.orders| ==> s.orders[j].id < s.nextId
  }

  datatype PlaceResult = Placed(orderId: int) | MissingReport(fields: seq<Field>) | UserNotFound

  /** `placeOrder`: a cash-on-delivery order. */
  function PlaceOrder(s: Store, userId: int, req: PlaceRequest, now: int): (o: Outcome<PlaceResult>)
    ensures o.reply.Reply?
    ensures o.reply.success <==> |MissingFields(userId, req)| == 0 && HasUser(s, userId)
    ensures |MissingFields(userId, req)| > 0 ==>
      o == Outcome(Reply(400, false), s, MissingReport(MissingFields(userId, req)))
    ensures |MissingFields(userId, req)| == 0 && !HasUser(s, userId) ==>
      o == Outcome(Reply(404, false), s, UserNotFound)
    ensures o.reply.success ==>
      var n := |s.orders|;
      o.body == Placed(s.nextId)
      && o.store.users == s.users && o.store.products == s.products
      && o.store.carts == DeleteCartRowsOf(s.carts, userId)
      && |o.store.orders| == n + 1 && o.store.orders[..n] == s.orders
      && o.store.orders[n].id == s.nextId && o.store.nextId > s.nextId
      && o.store.orders[n].userId == userId
      && o.store.orders[n].amount == req.amount.v
      && o.store.orders[n].address == req.address.value
      && o.store.orders[n].paymentMethod == req.paymentMethod
      && !o.store.orders[n].payment
      && o.store.orders[n].date == now
      && o.store.orders[n].status.None?
      && o.store.orders[n].items == Snapshot(req.items.value)
  {
    var missing := MissingFields(userId, req);
    if |missing| > 0 then Outcome(Reply(400, false), s, MissingReport(missing))
    else if UserIndex(s, userId).None? then Outcome(Reply(404, false), s, UserNotFound)
    else
      assert !Invalid(userId, req, ItemsField) && !Invalid(userId, req, AmountField)
        && !Invalid(userId, req, AddressField);
      var order := Order(s.nextId, userId, req.amount.v, req.address.value, req.paymentMethod,
                         false, now, None, Snapshot(req.items.value), None);
      Outcome(Ok, s.(orders := s.orders + [order], carts := DeleteCartRowsOf(s.carts, userId),
                     nextId := s.nextId + 1), Placed(s.nextId))
  }

  /** Why `placeOrderStripe` refused or failed. */
  datatype StripeResult =
    | Checkout(orderId: int)
    | Refused(message: string)
    | PaymentFailed

  predicate AmountBadForCard(req: PlaceRequest)
  {
    Falsy(req.amount) || req.amount.v <= 0
  }

  /** Every check of `placeOrderStripe` passes, so the transaction runs. */
  predicate StripeChecksPass(s: Store, userId: int, req: PlaceRequest)
  {
    !ItemsBad(req) && !AmountBadForCard(req) && req.address.Some? && HasUser(s, userId)
  }

  /**
   `placeOrderStripe`: checks items, then amount, then address, then the
   user; then creates a "Pending" order and clears the cart in one
   transaction; then opens a checkout session. `session` is the session id
   the payment provider returns, `None` when creating it throws: the
   transaction has committed by then, so its effects stay.
   */
  function PlaceOrderStripe(s: Store, userId: int, req: PlaceRequest, now: int, session: Option<string>)
    : (o: Outcome<StripeResult>)
    ensures o.reply.Reply?
    ensures ItemsBad(req) ==> o == Outcome(Reply(400, false), s, Refused("Items are required"))
    ensures !ItemsBad(req) && AmountBadForCard(req) ==>
      o == Outcome(Reply(400, false), s, Refused("Valid amount required"))
    ensures !ItemsBad(req) && !AmountBadForCard(req) && req.address.None? ==>
      o == Outcome(Reply(400, false), s, Refused("Address required"))
    ensures !ItemsBad(req) && !AmountBadForCard(req) && req.address.Some? && !HasUser(s, userId) ==>
      o == Outcome(Reply(404, false), s, Refused("User not found"))
    ensures o.store != s ==> o.reply.success || o.reply == Reply(500, false)
    ensures o.reply.success <==>
      !ItemsBad(req) && !AmountBadForCard(req) && req.address.Some? && HasUser(s, userId) && session.Some?
    ensures o.store != s ==>
      var n := |s.orders|;
      o.store.users == s.users && o.store.products == s.products
      && o.store.carts == DeleteCartRowsOf(s.carts, userId)
      && |o.store.orders| == n + 1 && o.store.orders[..n] == s.orders
      && o.store.orders[n].id == s.nextId && o.store.nextId > s.nextId
      && o.store.orders[n].userId == userId
      && o.store.orders[n].paymentMethod == "Stripe"
      && !o.store.orders[n].payment
      && o.store.orders[n].status == Some("Pending")
      && o.store.orders[n].items == Snapshot(req.items.value)
      && o.store.orders[n].sessionId == session
    ensures StripeChecksPass(s, userId, req) ==>
      var n := |s.orders|;
      o.store != s
      && (session.None? ==> o.reply == Reply(500, false) && o.body == PaymentFailed)
      && (session.Some? ==> o.reply == Ok && o.body == Checkout(s.nextId))
      && o.store.users == s.users && o.store.products == s.products
      && o.store.carts == DeleteCartRowsOf(s.carts, userId)
      && |o.store.orders| == n + 1 && o.store.orders[..n] == s.orders
      && o.store.orders[n].id == s.nextId && o.store.nextId > s.nextId
      && o.store.orders[n].userId == userId
      && o.store.orders[n].amount == req.amount.v
      && o.store.orders[n].address == req.address.value
      && o.store.orders[n].paymentMethod == "Stripe"
      && !o.store.orders[n].payment
      && o.store.orders[n].date == now
      && o.store.orders[n].status == Some("Pending")
      && o.store.orders[n].items == Snapshot(req.items.value)
      && o.store.orders[n].sessionId == session
  {
    if ItemsBad(req) then Outcome(Reply(400, false), s, Refused("Items are required"))
    else if AmountBadForCard(req) then Outcome(Reply(400, false), s, Refused("Valid amount required"))
    else if req.address.None? then Outcome(Reply(400, false), s, Refused("Address required"))
    else if UserIndex(s, userId).None? then Outcome(Reply(404, false), s, Refused("User not found"))
    else
      var order := Order(s.nextId, userId, req.amount.v, req.address.value, "Stripe",
                         false, now, Some("Pending"), Snapshot(req.items.value), None);
      var committed := s.(orders := s.orders + [order], carts := DeleteCartRowsOf(s.carts, userId),
                          nextId := s.nextId + 1);
      assert committed != s by {
        assert |committed.orders| != |s.orders|;
      }
      match session
      case None => Outcome(Reply(500, false), committed, PaymentFailed)
      case Some(id) =>
        Outcome(Ok, committed.(orders := s.orders + [order.(sessionId := Some(id))]), Checkout(s.nextId))
  }

  /** Both ways of placing an order keep every order id below the counter. */
  lemma PlacementKeepsIdsFresh(s: Store, userId: int, req: PlaceRequest, now: int, session: Option<string>)
    requires FreshOrderIds(s)
    ensures FreshOrderIds(PlaceOrder(s, userId, req, now).store)
    ensures FreshOrderIds(PlaceOrderStripe(s, userId, req, now, session).store)
  {
  }

  /**
   After a successful placement the caller's cart reads back empty, and every
   other user holds exactly what they held before.
   */
  lemma PlaceOrderClearsOnlyCallersCart(s: Store, userId: int, req: PlaceRequest, now: int,
                                        u: int, p: int, key: string)
    requires PlaceOrder(s, userId, req, now).reply.success
    ensures var after := PlaceOrder(s, userId, req, now).store;
      Cart.GetUserCart(after, userId).body == Some(map[])
      && Cart.Held(after.carts, u, p, key) == if u == userId then 0 else Cart.Held(s.carts, u, p, key)
  {
    var after := PlaceOrder(s, userId, req, now).store;
    assert !Invalid(userId, req, UserIdField);
    Cart.GroupOfNoLines(after.carts, userId);
    Cart.HeldAfterClear(s.carts, userId, u, p, key);
  }

  // ---------------------------------------------------------------------------
  // Confirming card payments
  // ---------------------------------------------------------------------------

  /** The order once its payment is confirmed: only `payment` and `status` differ. */
  function Confirm(o: Order): (r: Order)
    ensures r.payment && r.status == Some("Order Placed")
    ensures r.(payment := o.payment, status := o.status) == o
  {
    o.(payment := true, status := Some("Order Placed"))
  }

  /**
   `verifyStripe`: with `success=true` and an order id in the query, confirms
   that order; otherwise reports failure and changes nothing. `orderId` is
   `None` when absent or empty.
   */
  function VerifyStripe(s: Store, success: Option<string>, orderId: Option<int>): (o: Outcome<Option<Order>>)
    ensures o.reply.Reply?
    ensures !(success == Some("true") && orderId.Some?) ==> o == Outcome(Reply(200, false), s, None)
    ensures success == Some("true") && orderId.Some? && OrderIndex(s, orderId.value).None? ==>
      o == Outcome(Reply(404, false), s, None)
    ensures o.reply.success <==> success == Some("true") && orderId.Some? && OrderIndex(s, orderId.value).Some?
    ensures o.reply.success ==>
      var i := OrderIndex(s, orderId.value).value;
      o.store == s.(orders := s.orders[i := Confirm(s.orders[i])])
      && o.body == Some(o.store.orders[i])
    ensures !o.reply.success ==> o.store == s
  {
    if success == Some("true") && orderId.Some? then
      match OrderIndex(s, orderId.value)
      case None => Outcome(Reply(404, false), s, None)
      case Some(i) =>
        var confirmed := Confirm(s.orders[i]);
        Outcome(Ok, s.(orders := s.orders[i := confirmed]), Some(confirmed))
    else Outcome(Reply(200, false), s, None)
  }

  /** Replacing an order by one with the same id does not change which order an id finds. */
  lemma OrderIndexAfterUpdate(s: Store, i: nat, o: Order, id: int)
    requires i < |s.orders| && o.id == s.orders[i].id
    ensures OrderIndex(s.(orders := s.orders[i := o]), id) == OrderIndex(s, id)
  {
    var t := s.(orders := s.orders[i := o]);
    assert forall j :: 0 <= j < |s.orders| ==> (t.orders[j].id == id <==> s.orders[j].id == id);
  }

  /** Confirming a payment a second time changes nothing further. */
  lemma VerifyStripeIdempotent(s: Store, success: Option<string>, orderId: Option<int>)
    ensures var once := VerifyStripe(s, success, orderId);
      VerifyStripe(once.store, success, orderId).store == once.store
      && VerifyStripe(once.store, success, orderId).reply == once.reply
  {
    var once := VerifyStripe(s, success, orderId);
    if once.reply.success {
      var i := OrderIndex(s, orderId.value).value;
      OrderIndexAfterUpdate(s, i, Confirm(s.orders[i]), orderId.value);
      assert once.store.orders[i := Confirm(once.store.orders[i])] == once.store.orders;
    }
  }

  /**
   A card order placed and then confirmed with the id `placeOrderStripe`
   returned ends up paid and "Order Placed", keeping its items and session.
   */
  lemma CardOrderLifecycle(s: Store, userId: int, req: PlaceRequest, now: int, session: Option<string>)
    requires FreshOrderIds(s)
    requires PlaceOrderStripe(s, userId, req, now, session).reply.success
    ensures var placed := PlaceOrderStripe(s, userId, req, now, session);
      var id := placed.body.orderId;
      var confirmed := VerifyStripe(placed.store, Some("true"), Some(id));
      var n := |s.orders|;
      placed.body.Checkout? && id == s.nextId
      && placed.store.orders[n].status == Some("Pending") && !placed.store.orders[n].payment
      && confirmed.reply == Ok
      && |confirmed.store.orders| == n + 1 && confirmed.store.orders[..n] == s.orders
      && confirmed.store.orders[n].payment
      && confirmed.store.orders[n].status == Some("Order Placed")
      && confirmed.store.orders[n].items == Snapshot(req.items.value)
      && confirmed.store.orders[n].sessionId == session
  {
    var placed := PlaceOrderStripe(s, userId, req, now, session);
    var n := |s.orders|;
    assert placed.store.orders[n].id == s.nextId;
    var k := OrderIndex(placed.store, s.nextId);
    assert k == Some(n) by {
      assert forall j :: 0 <= j < n ==> placed.store.orders[j].id != s.nextId by {
        assert placed.store.orders[..n] == s.orders;
      }
    }
  }

  // ---------------------------------------------------------------------------
  // Admin status updates
  // ---------------------------------------------------------------------------

  /**
   `updateStatus`: stores the label with its first character upper-cased and
   the rest lower-cased. `orderId` 0 stands for a missing or falsy id.
   */
  function UpdateStatus(s: Store, orderId: int, status: string): (o: Outcome<Option<Order>>)
    ensures o.reply.Reply?
    ensures orderId == 0 || status == "" ==> o == Outcome(Reply(400, false), s, None)
    ensures orderId != 0 && status != "" && OrderIndex(s, orderId).None? ==> o == Outcome(Reply(404, false), s, None)
    ensures o.reply.success <==> orderId != 0 && status != "" && OrderIndex(s, orderId).Some?
    ensures o.reply.success ==>
      var i := OrderIndex(s, orderId).value;
      o.store.users == s.users && o.store.products == s.products && o.store.carts == s.carts
      && o.store.nextId == s.nextId
      && |o.store.orders| == |s.orders|
      && (forall j :: 0 <= j < |s.orders| && j != i ==> o.store.orders[j] == s.orders[j])
      && o.store.orders[i].(status := s.orders[i].status) == s.orders[i]
      && o.store.orders[i].status.Some?
      && Text.IsNormalized(o.store.orders[i].status.value)
      && Text.SameIgnoringCase(o.store.orders[i].status.value, status)
      && o.body == Some(o.store.orders[i])
  {
    if orderId == 0 || status == "" then Outcome(Reply(400, false), s, None)
    else
      match OrderIndex(s, orderId)
      case None => Outcome(Reply(404, false), s, None)
      case Some(i) =>
        Text.NormalizeStatusShape(status);
        var updated := s.orders[i].(status := Some(Text.NormalizeStatus(status)));
        Outcome(Ok, s.(orders := s.orders[i := updated]), Some(updated))
  }

  /** Labels differing only in case have the same effect. */
  lemma UpdateStatusIgnoresCase(s: Store, orderId: int, a: string, b: string)
    requires Text.SameIgnoringCase(a, b)
    ensures UpdateStatus(s, orderId, a) == UpdateStatus(s, orderId, b)
  {
    Text.SameCaseNormalizeAlike(a, b);
  }

  /** Sending the same label again, or the label as stored, changes nothing further. */
  lemma UpdateStatusIdempotent(s: Store, orderId: int, status: string)
    requires UpdateStatus(s, orderId, status).reply.success
    ensures var once := UpdateStatus(s, orderId, status).store;
      var i := OrderIndex(s, orderId).value;
      UpdateStatus(once, orderId, status).store == once
      && UpdateStatus(once, orderId, once.orders[i].status.value).store == once
  {
    var once := UpdateStatus(s, orderId, status).store;
    var i := OrderIndex(s, orderId).value;
    OrderIndexAfterUpdate(s, i, once.orders[i], orderId);
    Text.NormalizeStatusIdempotent(status);
    assert once.orders[i := once.orders[i]] == once.orders;
  }

  /** The labels the admin panel offers, as they are stored. */
  lemma UpdateStatusStoredLabels(s: Store, orderId: int)
    requires OrderIndex(s, orderId).Some? && orderId != 0
    ensures var i := OrderIndex(s, orderId).value;
      UpdateStatus(s, orderId, "shipped").store.orders[i].status == Some("Shipped")
      && UpdateStatus(s, orderId, "SHIPPED").store.orders[i].status == Some("Shipped")
      && UpdateStatus(s, orderId, "Out for Delivery").store.orders[i].status == Some("Out for delivery")
      && UpdateStatus(s, orderId, "Order Placed").store.orders[i].status == Some("Order placed")
      && UpdateStatus(s, orderId, "Packing").store.orders[i].status == Some("Packing")
  {
    Text.NormalizeShipped();
    Text.NormalizeOutForDelivery();
    Text.NormalizeOrderPlaced();
    Text.NormalizeKeepsSingleWords();
  }

  // ---------------------------------------------------------------------------
  // Listings
  // ---------------------------------------------------------------------------

  function Date(o: Order): int
  {
    o.date
  }

  /** `allOrders`: every order, newest first. */
  function AllOrders(s: Store): (o: Outcome<seq<Order>>)
    ensures o.reply == Ok && o.store == s
    ensures Seqs.SortedDesc(o.body, Date)
    ensures multiset(o.body) == multiset(s.orders)
  {
    Outcome(Ok, s, Seqs.SortDesc(s.orders, Date))
  }

  /** `userOrders`: the caller's orders and no one else's, newest first. */
  function UserOrders(s: Store, userId: int): (o: Outcome<seq<Order>>)
    ensures o.reply == Ok && o.store == s
    ensures Seqs.SortedDesc(o.body, Date)
    ensures forall i :: 0 <= i < |o.body| ==> o.body[i].userId == userId && o.body[i] in s.orders
    ensures forall j :: 0 <= j < |s.orders| && s.orders[j].userId == userId ==> s.orders[j] in o.body
  {
    var mine := Seqs.Filter(s.orders, (x: Order) => x.userId == userId);
    var sorted := Seqs.SortDesc(mine, Date);
    forall i | 0 <= i < |sorted|
      ensures sorted[i].userId == userId && sorted[i] in s.orders
    {
      assert sorted[i] in multiset(mine);
    }
    forall j | 0 <= j < |s.orders| && s.orders[j].userId == userId
      ensures s.orders[j] in sorted
    {
      assert s.orders[j] in multiset(mine);
    }
    Outcome(Ok, s, sorted)
  }

  /** One user's listing is the full listing restricted to that user. */
  lemma UserOrdersWithinAll(s: Store, userId: int)
    ensures multiset(UserOrders(s, userId).body) <= multiset(AllOrders(s).body)
  {
    var mine := Seqs.Filter(s.orders, (x: Order) => x.userId == userId);
    FilterSubMultiset(s.orders, (x: Order) => x.userId == userId);
  }

  lemma {:induction false} FilterSubMultiset(xs: seq<Order>, p: Order -> bool)
    ensures multiset(Seqs.Filter(xs, p)) <= multiset(xs)
    decreases |xs|
  {
    if |xs| > 0 {
      var init := xs[..|xs| - 1];
      FilterSubMultiset(init, p);
      assert xs == init + [xs[|xs| - 1]];
    }
  }
}
