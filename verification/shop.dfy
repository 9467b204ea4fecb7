/**
  The relational store the web shop backend works on, as immutable values:
  the `product` table (only the columns the order core reads or writes),
  the `customer_order` headers, the `order_line` rows and the
  AUTO_INCREMENT counter that hands out order ids.
*/
module Shop {

  type ProductId = int
  type UserId = int
  type OrderId = nat
  /** The server clock reading stored as `order_date` (`NOW()`), kept opaque. */
  type Timestamp = int

  /** A `product` row; `price` and `product_description` are not part of the model. */
  datatype Product = Product(name: string, category: string, imageUrl: string, unitsStored: int)

  /** A `customer_order` row. */
  datatype OrderHeader = OrderHeader(id: OrderId, orderDate: Timestamp, customerId: UserId)

  /** An `order_line` row. */
  datatype OrderLine = OrderLine(orderId: OrderId, productId: ProductId, quantity: int)

  datatype Store = Store(
    products: map<ProductId, Product>,
    orders: seq<OrderHeader>,
    lines: seq<OrderLine>,
    nextOrderId: OrderId)

  /** The ids of the order headers present in `orders`. */
  function OrderIds(orders: seq<OrderHeader>): set<OrderId>
  {
    set h | h in orders :: h.id
  }

  /** `customer_order.id` is a primary key. */
  predicate UniqueOrderIds(orders: seq<OrderHeader>)
  {
    forall i, j :: 0 <= i < j < |orders| ==> orders[i].id != orders[j].id
  }

  /**
    The schema's integrity: unique order ids, every id below the
    AUTO_INCREMENT counter, and every order line pointing at an existing
    order header and an existing product.
  */
  predicate Valid(s: Store)
  {
    && UniqueOrderIds(s.orders)
    && (forall i :: 0 <= i < |s.orders| ==> s.orders[i].id < s.nextOrderId)
    && (forall k :: 0 <= k < |s.lines| ==> s.lines[k].orderId in OrderIds(s.orders))
    // implied by the two conjuncts above; kept so that proofs about fresh
    // order ids need not go through the set of header ids
    && (forall k :: 0 <= k < |s.lines| ==> s.lines[k].orderId < s.nextOrderId)
    && (forall k :: 0 <= k < |s.lines| ==> s.lines[k].productId in s.products)
  }

  /** No product has a negative `units_stored`. */
  predicate StockNonNegative(s: Store)
  {
    forall p :: p in s.products ==> s.products[p].unitsStored >= 0
  }
}
