/**
  The order-placement transaction of the `POST /order` handler.

  The handler verifies the bearer token, opens a transaction, inserts the
  order header, then walks the requested products in order: each one must
  exist and have at least the requested quantity in stock at that moment,
  after which an order line is inserted and the stock decremented. Any
  exception rolls the whole transaction back. The model computes on a copy
  of the store and keeps the copy only when every step succeeded.
*/
module Ordering {
  import opened Wrappers
  import opened Shop

  /** One `{id, quantity}` entry of the request's `products` array. */
  datatype OrderItem = OrderItem(productId: ProductId, quantity: int)

  datatype OrderError =
    | InvalidToken                   // jwt.verify threw: no connection was opened
    | MalformedBody                  // req.body.products is missing or not iterable
    | OutOfStock(productId: ProductId) // unknown product, or fewer units than requested

  /** What the handler answers, and the store as it is afterwards. */
  datatype Placed = Placed(reply: Result<OrderId, OrderError>, after: Store)

  /** Total quantity of product `p` asked for by `items`. */
  function Requested(items: seq<OrderItem>, p: ProductId): int
    decreases |items|
  {
    if |items| == 0 then 0
    else (if items[0].productId == p then items[0].quantity else 0) + Requested(items[1..], p)
  }

  predicate Mentions(items: seq<OrderItem>, p: ProductId)
  {
    exists i :: 0 <= i < |items| && items[i].productId == p
  }

  /** The stock of `p` the transaction sees when it reaches entry `i`. */
  function RunningStock(s: Store, items: seq<OrderItem>, i: nat, p: ProductId): int
    requires i <= |items| && p in s.products
  {
    s.products[p].unitsStored - Requested(items[..i], p)
  }

  /** Entry `i` passes the stock check it meets inside the transaction. */
  predicate Passes(s: Store, items: seq<OrderItem>, i: nat)
    requires i < |items|
  {
    && items[i].productId in s.products
    && RunningStock(s, items, i, items[i].productId) >= items[i].quantity
  }

  predicate AllPass(s: Store, items: seq<OrderItem>)
  {
    forall i :: 0 <= i < |items| ==> Passes(s, items, i)
  }

  /** The order lines inserted for `items` under order `orderId`. */
  function LinesOf(orderId: OrderId, items: seq<OrderItem>): (r: seq<OrderLine>)
    ensures |r| == |items|
    ensures forall i :: 0 <= i < |items| ==>
      r[i] == OrderLine(orderId, items[i].productId, items[i].quantity)
    decreases |items|
  {
    if |items| == 0 then []
    else [OrderLine(orderId, items[0].productId, items[0].quantity)] + LinesOf(orderId, items[1..])
  }

  /** One pass of the loop body after the check: insert the line, then decrement the stock. */
  function Book(s: Store, orderId: OrderId, item: OrderItem): Store
    requires item.productId in s.products
  {
    var prod := s.products[item.productId];
    s.(lines := s.lines + [OrderLine(orderId, item.productId, item.quantity)],
       products := s.products[item.productId := prod.(unitsStored := prod.unitsStored - item.quantity)])
  }

  /**
    The `for (const product of req.body.products)` loop run inside the
    transaction on the store `s` (which already holds the new header).
    A failed check stops the loop with the error; the partial work is dropped.
  */
  function ProcessItems(s: Store, orderId: OrderId, items: seq<OrderItem>): (r: Result<Store, OrderError>)
    ensures r.Success? ==> forall i :: 0 <= i < |items| ==> items[i].productId in s.products
    ensures r.Success? ==> r.value.products.Keys == s.products.Keys
    ensures r.Success? ==> forall p :: p in s.products ==>
      r.value.products[p] == s.products[p].(unitsStored := s.products[p].unitsStored - Requested(items, p))
    ensures r.Success? ==> r.value.orders == s.orders && r.value.nextOrderId == s.nextOrderId
    ensures r.Success? ==> r.value.lines == s.lines + LinesOf(orderId, items)
    decreases |items|
  {
    if |items| == 0 then Success(s)
    else
      var item := items[0];
      if item.productId !in s.products || s.products[item.productId].unitsStored < item.quantity then
        Failure(OutOfStock(item.productId))
      else
        ProcessItems(Book(s, orderId, item), orderId, items[1..])
  }

  /** The transaction as the handler opens it: the new header is already inserted. */
  function InTransaction(s: Store, customerId: UserId, now: Timestamp): (t: Store)
    ensures t.products == s.products && t.lines == s.lines
  {
    s.(orders := s.orders + [OrderHeader(s.nextOrderId, now, customerId)],
       nextOrderId := s.nextOrderId + 1)
  }

  /**
    The handler. `auth` is the `userId` claim of a token that verified, or
    None when `jwt.verify` threw; `products` is `req.body.products`, or None
    when it is missing or not iterable; `now` is the value of `NOW()`.
  */
  function PlaceOrder(s: Store, auth: Option<UserId>, products: Option<seq<OrderItem>>, now: Timestamp): (out: Placed)
    ensures out.reply.Failure? ==> out.after == s
    ensures auth.None? ==> out.reply == Failure(InvalidToken)
    ensures auth.Some? && products.None? ==> out.reply == Failure(MalformedBody)
    ensures out.reply.Success? ==> auth.Some? && products.Some? && out.reply.value == s.nextOrderId
  {
    match auth
    case None => Placed(Failure(InvalidToken), s)
    case Some(customerId) =>
      var orderId := s.nextOrderId;
      match products
      case None => Placed(Failure(MalformedBody), s)
      case Some(items) =>
        match ProcessItems(InTransaction(s, customerId, now), orderId, items)
        case Failure(e) => Placed(Failure(e), s)
        case Success(committed) => Placed(Success(orderId), committed)
  }
}
