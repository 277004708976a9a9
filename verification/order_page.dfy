/**
 The admin panel's order page: loading the order list, the local status
 update after the server accepts a change, and the status shown for an order.
 */
module OrderPage {
  import opened Wrappers
  import opened Db
  import Text
  import Orders

  // ---------------------------------------------------------------------------
  // fetchAllOrders
  // ---------------------------------------------------------------------------

  /** How the list request ended: an answer with its flag and optional list, or a thrown error. */
  datatype ListResponse = Listed(success: bool, orders: Option<seq<Order>>) | ListFailed

  /**
   The page's orders after `fetchAllOrders`. Without a token nothing is
   requested. A successful answer replaces the list, by the empty list when
   it carries none; any other outcome keeps the list.
   */
  function FetchAllOrders(token: string, orders: seq<Order>, response: ListResponse): (r: seq<Order>)
    ensures token == "" ==> r == orders
    ensures !(response.Listed? && response.success) ==> r == orders
    ensures token != "" && response.Listed? && response.success ==> r == response.orders.GetOr([])
  {
    if token == "" then orders
    else
      match response
      case Listed(success, list) => if success then list.GetOr([]) else orders
      case ListFailed => orders
  }

  /** Loading from the admin listing shows exactly the stored orders, newest first. */
  lemma FetchShowsAllOrders(s: Store, token: string, orders: seq<Order>)
    requires token != ""
    ensures var shown := FetchAllOrders(token, orders, Listed(true, Some(Orders.AllOrders(s).body)));
      multiset(shown) == multiset(s.orders)
      && forall i, j :: 0 <= i < j < |shown| ==> shown[i].date >= shown[j].date
  {
  }

  // ---------------------------------------------------------------------------
  // handleStatusChange
  // ---------------------------------------------------------------------------

  /** The `setOrders` updater: the order with the id takes the chosen label as it is. */
  function SetStatus(orders: seq<Order>, id: int, chosen: string): (r: seq<Order>)
    ensures |r| == |orders|
    ensures forall i :: 0 <= i < |orders| && orders[i].id != id ==> r[i] == orders[i]
    ensures forall i :: 0 <= i < |orders| && orders[i].id == id ==> r[i].status == Some(chosen)
    ensures forall i :: 0 <= i < |orders| ==> r[i].(status := orders[i].status) == orders[i]
  {
    seq(|orders|, i requires 0 <= i < |orders| =>
      if orders[i].id == id then orders[i].(status := Some(chosen)) else orders[i])
  }

  /** Setting the same label again changes nothing. */
  lemma SetStatusIdempotent(orders: seq<Order>, id: int, chosen: string)
    ensures SetStatus(SetStatus(orders, id, chosen), id, chosen) == SetStatus(orders, id, chosen)
  {
  }

  /** Two labels in a row leave the second: a later choice overrides an earlier one. */
  lemma SetStatusLastWins(orders: seq<Order>, id: int, a: string, b: string)
    ensures SetStatus(SetStatus(orders, id, a), id, b) == SetStatus(orders, id, b)
  {
  }

  /** How the status request ended: an answer with its flag, or a thrown error. */
  datatype StatusResponse = Answered(success: bool) | Threw

  /** `handleStatusChange`'s effect on the page: the updater runs only on a successful answer. */
  function HandleStatusChange(orders: seq<Order>, id: int, chosen: string, response: StatusResponse): (r: seq<Order>)
    ensures response != Answered(true) ==> r == orders
    ensures response == Answered(true) ==> r == SetStatus(orders, id, chosen)
  {
    if response == Answered(true) then SetStatus(orders, id, chosen) else orders
  }

  /**
   After the server accepts a label, the page shows that label for the order
   while the store holds its normalised form: the two agree exactly when the
   label is already normalised.
   */
  lemma PageAgreesWithStoreIffNormalized(s: Store, orders: seq<Order>, id: int, chosen: string, k: nat)
    requires Orders.UpdateStatus(s, id, chosen).reply.success
    requires k < |orders| && orders[k].id == id
    ensures var shown := HandleStatusChange(orders, id, chosen, Answered(true))[k].status;
      var stored := Orders.UpdateStatus(s, id, chosen).body.value.status;
      shown == stored <==> Text.IsNormalized(chosen)
  {
    Text.NormalizeStatusShape(chosen);
  }

  /** Choosing "Out for Delivery" shows that label while the store keeps "Out for delivery". */
  lemma OutForDeliveryDiverges(s: Store, orders: seq<Order>, id: int, k: nat)
    requires id != 0 && OrderIndex(s, id).Some?
    requires k < |orders| && orders[k].id == id
    ensures HandleStatusChange(orders, id, "Out for Delivery", Answered(true))[k].status == Some("Out for Delivery")
    ensures Orders.UpdateStatus(s, id, "Out for Delivery").body.value.status == Some("Out for delivery")
  {
    Text.NormalizeOutForDelivery();
  }

  // ---------------------------------------------------------------------------
  // The status shown
  // ---------------------------------------------------------------------------

  /** `order.status || "Order Placed"`: a missing or empty status shows as "Order Placed". */
  function DisplayStatus(status: Option<string>): (shown: string)
    ensures shown != ""
    ensures status.Some? && status.value != "" ==> shown == status.value
    ensures status.None? || status.value == "" ==> shown == "Order Placed"
  {
    if status.Some? && status.value != "" then status.value else "Order Placed"
  }

  /** An order confirmed by the card flow shows as "Order Placed", as one still left to the default does. */
  lemma ConfirmedShowsOrderPlaced(o: Order)
    ensures DisplayStatus(Orders.Confirm(o).status) == "Order Placed"
    ensures DisplayStatus(o.(status := None).status) == "Order Placed"
  {
  }
}
