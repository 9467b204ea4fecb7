/**
  `getUserOrders`: the join of `customer_order`, `order_line` and
  `product` restricted to one customer, and how an order placement
  shows up in it.
*/
module UserOrders {
  import opened Wrappers
  import opened Shop
  import Ordering
  import OrderProperties

  /** One object of the array `getUserOrders` returns; `price` is not modelled. */
  datatype OrderRow = OrderRow(
    orderId: OrderId,
    productId: ProductId,
    orderDate: Timestamp,
    productName: string,
    imageUrl: string,
    category: string,
    quantity: int)

  /** The row the join builds from an order header, one of its lines and the line's product. */
  function RowFor(h: OrderHeader, l: OrderLine, p: Product): OrderRow
  {
    OrderRow(h.id, l.productId, h.orderDate, p.name, p.imageUrl, p.category, l.quantity)
  }

  /** Header `h` joins line `l` for customer `user` (`ON` clause and `WHERE` clause). */
  predicate Joins(h: OrderHeader, l: OrderLine, user: UserId)
  {
    h.id == l.orderId && h.customerId == user
  }

  /** The rows line `l` contributes: one for each joining header, when its product exists. */
  function JoinLine(orders: seq<OrderHeader>, products: map<ProductId, Product>, user: UserId, l: OrderLine): (rows: seq<OrderRow>)
    decreases |orders|
  {
    if |orders| == 0 then []
    else
      var here := if Joins(orders[0], l, user) && l.productId in products
                  then [RowFor(orders[0], l, products[l.productId])] else [];
      here + JoinLine(orders[1..], products, user, l)
  }

  function Join(orders: seq<OrderHeader>, products: map<ProductId, Product>, user: UserId, ls: seq<OrderLine>): (rows: seq<OrderRow>)
    decreases |ls|
  {
    if |ls| == 0 then []
    else JoinLine(orders, products, user, ls[0]) + Join(orders, products, user, ls[1..])
  }

  /**
    `getUserOrders(userId)`. SQL leaves the row order open; the model lists
    rows line by line.
  */
  function GetUserOrders(s: Store, user: UserId): seq<OrderRow>
  {
    Join(s.orders, s.products, user, s.lines)
  }

  /** The header of order `id`; the first one should ids repeat. */
  function FindOrder(orders: seq<OrderHeader>, id: OrderId): (r: Option<OrderHeader>)
    ensures r.Some? ==> r.value in orders && r.value.id == id
    ensures r.None? ==> id !in OrderIds(orders)
    decreases |orders|
  {
    if |orders| == 0 then None
    else if orders[0].id == id then Some(orders[0])
    else
      assert OrderIds(orders) == {orders[0].id} + OrderIds(orders[1..]) by {
        assert orders == [orders[0]] + orders[1..];
      }
      FindOrder(orders[1..], id)
  }

  /** Order `id` is one of `user`'s orders. */
  predicate OwnerIs(orders: seq<OrderHeader>, user: UserId, id: OrderId)
  {
    FindOrder(orders, id).Some? && FindOrder(orders, id).value.customerId == user
  }

  /** Line `l` belongs to an order of `user`. */
  predicate OwnedBy(s: Store, user: UserId, l: OrderLine)
  {
    OwnerIs(s.orders, user, l.orderId)
  }

  /** The row reported for line `l`, built from its order header and its product. */
  function RowOf(s: Store, l: OrderLine): OrderRow
    requires FindOrder(s.orders, l.orderId).Some? && l.productId in s.products
  {
    RowFor(FindOrder(s.orders, l.orderId).value, l, s.products[l.productId])
  }

  /** Reference selection: the lines of `ls` that belong to `user`'s orders, in order. */
  function OwnedLines(s: Store, user: UserId, ls: seq<OrderLine>): (r: seq<OrderLine>)
    ensures forall k :: 0 <= k < |r| ==> OwnedBy(s, user, r[k]) && r[k] in ls
    decreases |ls|
  {
    if |ls| == 0 then []
    else
      assert forall m :: m in ls[1..] ==> m in ls;
      (if OwnedBy(s, user, ls[0]) then [ls[0]] else []) + OwnedLines(s, user, ls[1..])
  }

  /**
    The selection keeps every line of `user`'s orders as often as it occurs
    and drops every other line.
  */
  lemma {:induction false} OwnedLinesCounts(s: Store, user: UserId, ls: seq<OrderLine>)
    ensures forall l :: multiset(OwnedLines(s, user, ls))[l] == (if OwnedBy(s, user, l) then multiset(ls)[l] else 0)
    decreases |ls|
  {
    if |ls| > 0 {
      assert ls == [ls[0]] + ls[1..];
      OwnedLinesCounts(s, user, ls[1..]);
    }
  }

  /** Every row line `l` contributes is built from a header of `user` carrying `l`'s order id. */
  lemma {:induction false} JoinLineSound(orders: seq<OrderHeader>, products: map<ProductId, Product>, user: UserId, l: OrderLine)
    ensures forall r :: r in JoinLine(orders, products, user, l) ==>
      l.productId in products && exists h :: h in orders && Joins(h, l, user) && r == RowFor(h, l, products[l.productId])
    decreases |orders|
  {
    if |orders| > 0 {
      JoinLineSound(orders[1..], products, user, l);
      assert orders[0] in orders;
      assert forall h :: h in orders[1..] ==> h in orders;
    }
  }

  lemma {:induction false} JoinSound(orders: seq<OrderHeader>, products: map<ProductId, Product>, user: UserId, ls: seq<OrderLine>)
    ensures forall r :: r in Join(orders, products, user, ls) ==>
      exists l :: l in ls && r in JoinLine(orders, products, user, l)
    decreases |ls|
  {
    if |ls| > 0 {
      JoinSound(orders, products, user, ls[1..]);
      assert ls[0] in ls;
      assert forall l :: l in ls[1..] ==> l in ls;
    }
  }

  /**
    Whatever the store, every row `getUserOrders(user)` returns is built
    from an order header with `customer_id = user`, one of that order's
    lines, and the line's product.
  */
  lemma {:induction false} GetUserOrdersSound(s: Store, user: UserId)
    ensures forall r :: r in GetUserOrders(s, user) ==>
      exists h, l :: (h in s.orders && l in s.lines && Joins(h, l, user)
        && l.productId in s.products && r == RowFor(h, l, s.products[l.productId]))
  {
    JoinSound(s.orders, s.products, user, s.lines);
    forall l | l in s.lines {
      JoinLineSound(s.orders, s.products, user, l);
    }
  }

  /** A line whose order id no header carries joins nothing. */
  lemma {:induction false} JoinLineNoHeader(orders: seq<OrderHeader>, products: map<ProductId, Product>, user: UserId, l: OrderLine)
    requires forall h :: h in orders ==> h.id != l.orderId
    ensures JoinLine(orders, products, user, l) == []
    decreases |orders|
  {
    if |orders| > 0 {
      assert orders[0] in orders;
      assert forall h :: h in orders[1..] ==> h in orders;
      JoinLineNoHeader(orders[1..], products, user, l);
    }
  }

  /**
    With unique order ids a line whose product exists yields exactly one row
    when its order belongs to `user`, and none otherwise.
  */
  lemma {:induction false} JoinLineUnique(orders: seq<OrderHeader>, products: map<ProductId, Product>, user: UserId, l: OrderLine)
    requires UniqueOrderIds(orders) && l.productId in products
    ensures JoinLine(orders, products, user, l)
      == if OwnerIs(orders, user, l.orderId)
         then [RowFor(FindOrder(orders, l.orderId).value, l, products[l.productId])]
         else []
    decreases |orders|
  {
    if |orders| > 0 {
      var tail := orders[1..];
      if orders[0].id == l.orderId {
        forall h | h in tail ensures h.id != l.orderId {
          var j :| 0 <= j < |tail| && tail[j] == h;
          assert orders[j + 1] == h;
        }
        JoinLineNoHeader(tail, products, user, l);
      } else {
        assert UniqueOrderIds(tail) by {
          forall i, j | 0 <= i < j < |tail| ensures tail[i].id != tail[j].id {
            assert tail[i] == orders[i + 1] && tail[j] == orders[j + 1];
          }
        }
        JoinLineUnique(tail, products, user, l);
      }
    }
  }

  /** The rows reported for the lines `owned`, one each, in order. */
  function RowsOf(s: Store, owned: seq<OrderLine>): seq<OrderRow>
    requires forall k :: 0 <= k < |owned| ==>
      FindOrder(s.orders, owned[k].orderId).Some? && owned[k].productId in s.products
    decreases |owned|
  {
    if |owned| == 0 then []
    else [RowOf(s, owned[0])] + RowsOf(s, owned[1..])
  }

  /**
    With unique order ids and every line's product present, the join lists
    exactly one row per selected line, in the same order.
  */
  lemma {:induction false} JoinMatchesOwnedLines(s: Store, user: UserId, ls: seq<OrderLine>)
    requires UniqueOrderIds(s.orders)
    requires forall l :: l in ls ==> l.productId in s.products
    ensures Join(s.orders, s.products, user, ls) == RowsOf(s, OwnedLines(s, user, ls))
    decreases |ls|
  {
    if |ls| > 0 {
      var l := ls[0];
      var rest := ls[1..];
      assert l in ls;
      assert forall m :: m in rest ==> m in ls;
      JoinMatchesOwnedLines(s, user, rest);
      JoinLineUnique(s.orders, s.products, user, l);
      var restOwned := OwnedLines(s, user, rest);
      assert Join(s.orders, s.products, user, ls)
        == JoinLine(s.orders, s.products, user, l) + Join(s.orders, s.products, user, rest);
      if OwnedBy(s, user, l) {
        assert OwnedLines(s, user, ls) == [l] + restOwned;
        assert ([l] + restOwned)[1..] == restOwned;
        assert RowsOf(s, [l] + restOwned) == [RowOf(s, l)] + RowsOf(s, restOwned);
        assert JoinLine(s.orders, s.products, user, l) == [RowOf(s, l)];
      } else {
        assert OwnedLines(s, user, ls) == restOwned;
        assert JoinLine(s.orders, s.products, user, l) == [];
      }
    }
  }

  /**
    On a store that keeps the schema's integrity, `getUserOrders(user)`
    returns exactly one row per order line whose order header has
    `customer_id = user`, in line order, each carrying that header's id and
    date, the line's product and quantity, and the product's catalogue fields.
  */
  lemma {:induction false} GetUserOrdersOnePerOwnedLine(s: Store, user: UserId)
    requires Valid(s)
    ensures forall l :: l in s.lines ==> l.productId in s.products
    ensures GetUserOrders(s, user) == RowsOf(s, OwnedLines(s, user, s.lines))
  {
    forall l | l in s.lines ensures l.productId in s.products {
      var k :| 0 <= k < |s.lines| && s.lines[k] == l;
    }
    JoinMatchesOwnedLines(s, user, s.lines);
  }

  /** Two product tables that agree on everything the join reports: ids, names, images, categories. */
  predicate SameCatalog(P: map<ProductId, Product>, Q: map<ProductId, Product>)
  {
    && P.Keys == Q.Keys
    && forall p :: p in P ==>
         P[p].name == Q[p].name && P[p].imageUrl == Q[p].imageUrl && P[p].category == Q[p].category
  }

  lemma {:induction false} JoinLineSameCatalog(orders: seq<OrderHeader>, P: map<ProductId, Product>, Q: map<ProductId, Product>, user: UserId, l: OrderLine)
    requires SameCatalog(P, Q)
    ensures JoinLine(orders, P, user, l) == JoinLine(orders, Q, user, l)
    decreases |orders|
  {
    if |orders| > 0 {
      JoinLineSameCatalog(orders[1..], P, Q, user, l);
    }
  }

  /** Stock levels do not show in `getUserOrders`. */
  lemma {:induction false} JoinSameCatalog(orders: seq<OrderHeader>, P: map<ProductId, Product>, Q: map<ProductId, Product>, user: UserId, ls: seq<OrderLine>)
    requires SameCatalog(P, Q)
    ensures Join(orders, P, user, ls) == Join(orders, Q, user, ls)
    decreases |ls|
  {
    if |ls| > 0 {
      JoinLineSameCatalog(orders, P, Q, user, ls[0]);
      JoinSameCatalog(orders, P, Q, user, ls[1..]);
    }
  }

  lemma {:induction false} JoinAppendLines(orders: seq<OrderHeader>, P: map<ProductId, Product>, user: UserId, a: seq<OrderLine>, b: seq<OrderLine>)
    ensures Join(orders, P, user, a + b) == Join(orders, P, user, a) + Join(orders, P, user, b)
    decreases |a|
  {
    if |a| == 0 {
      assert a + b == b;
    } else {
      assert (a + b)[0] == a[0] && (a + b)[1..] == a[1..] + b;
      JoinAppendLines(orders, P, user, a[1..], b);
    }
  }

  lemma {:induction false} JoinLineAppendHeader(orders: seq<OrderHeader>, h: OrderHeader, P: map<ProductId, Product>, user: UserId, l: OrderLine)
    ensures JoinLine(orders + [h], P, user, l) == JoinLine(orders, P, user, l) + JoinLine([h], P, user, l)
    decreases |orders|
  {
    if |orders| == 0 {
      assert orders + [h] == [h];
    } else {
      assert (orders + [h])[0] == orders[0] && (orders + [h])[1..] == orders[1..] + [h];
      JoinLineAppendHeader(orders[1..], h, P, user, l);
    }
  }

  lemma {:induction false} JoinOldLine(orders: seq<OrderHeader>, h: OrderHeader, P: map<ProductId, Product>, Q: map<ProductId, Product>, user: UserId, l: OrderLine)
    requires SameCatalog(P, Q)
    requires l.orderId != h.id
    ensures JoinLine(orders + [h], Q, user, l) == JoinLine(orders, P, user, l)
  {
    JoinLineAppendHeader(orders, h, Q, user, l);
    assert JoinLine([h], Q, user, l) == [];
    JoinLineSameCatalog(orders, P, Q, user, l);
  }

  /** Lines of earlier orders do not join a header with a different id. */
  lemma {:induction false} JoinOldLines(orders: seq<OrderHeader>, h: OrderHeader, P: map<ProductId, Product>, Q: map<ProductId, Product>, user: UserId, ls: seq<OrderLine>)
    requires SameCatalog(P, Q)
    requires forall l :: l in ls ==> l.orderId != h.id
    ensures Join(orders + [h], Q, user, ls) == Join(orders, P, user, ls)
    decreases |ls|
  {
    if |ls| > 0 {
      var l := ls[0];
      assert l in ls;
      assert forall m :: m in ls[1..] ==> m in ls;
      JoinOldLine(orders, h, P, Q, user, l);
      JoinOldLines(orders, h, P, Q, user, ls[1..]);
    }
  }

  /** A line of a fresh order joins only that order's header, and only for its customer. */
  lemma {:induction false} JoinNewLine(orders: seq<OrderHeader>, h: OrderHeader, P: map<ProductId, Product>, user: UserId, l: OrderLine)
    requires forall g :: g in orders ==> g.id != h.id
    requires l.orderId == h.id && l.productId in P
    ensures JoinLine(orders + [h], P, user, l) == if h.customerId == user then [RowFor(h, l, P[l.productId])] else []
  {
    JoinLineAppendHeader(orders, h, P, user, l);
    JoinLineNoHeader(orders, P, user, l);
  }

  /** The lines of a fresh order join only its own header, and only for its customer. */
  lemma {:induction false} JoinNewLines(orders: seq<OrderHeader>, h: OrderHeader, P: map<ProductId, Product>, user: UserId, items: seq<Ordering.OrderItem>)
    requires forall g :: g in orders ==> g.id != h.id
    requires forall i :: 0 <= i < |items| ==> items[i].productId in P
    ensures var rows := Join(orders + [h], P, user, Ordering.LinesOf(h.id, items));
            && |rows| == (if h.customerId == user then |items| else 0)
            && (h.customerId == user ==> forall i :: 0 <= i < |items| ==>
                  rows[i] == RowFor(h, OrderLine(h.id, items[i].productId, items[i].quantity), P[items[i].productId]))
    decreases |items|
  {
    if |items| > 0 {
      var lines := Ordering.LinesOf(h.id, items);
      var l := lines[0];
      var rest := items[1..];
      assert lines[1..] == Ordering.LinesOf(h.id, rest);
      assert forall i :: 0 <= i < |rest| ==> rest[i] == items[i + 1];
      JoinNewLines(orders, h, P, user, rest);
      JoinNewLine(orders, h, P, user, l);
      var restRows := Join(orders + [h], P, user, Ordering.LinesOf(h.id, rest));
      var rows := Join(orders + [h], P, user, lines);
      assert rows == JoinLine([h], P, user, l) + restRows;
      if h.customerId == user {
        assert rows == [RowFor(h, l, P[l.productId])] + restRows;
        forall i | 0 <= i < |items|
          ensures rows[i] == RowFor(h, OrderLine(h.id, items[i].productId, items[i].quantity), P[items[i].productId])
        {
          if i > 0 {
            assert rows[i] == restRows[i - 1];
          }
        }
      } else {
        assert rows == restRows;
      }
    }
  }

  /**
    After a committed order, the customer's `getUserOrders` lists what it
    listed before followed by one row per entry of the new order, in
    request order; every other user's listing is unchanged.
  */
  lemma {:induction false} PlaceOrderShowsInUserOrders(s: Store, customerId: UserId, items: seq<Ordering.OrderItem>, now: Timestamp, user: UserId)
    requires Valid(s)
    requires Ordering.PlaceOrder(s, Some(customerId), Some(items), now).reply.Success?
    ensures var out := Ordering.PlaceOrder(s, Some(customerId), Some(items), now);
            var id := out.reply.value;
            var before := GetUserOrders(s, user);
            var after := GetUserOrders(out.after, user);
            && |after| == |before| + (if user == customerId then |items| else 0)
            && after[..|before|] == before
            && (user == customerId ==> forall i :: 0 <= i < |items| ==>
                  && items[i].productId in s.products
                  && after[|before| + i] == RowFor(OrderHeader(id, now, customerId),
                                                   OrderLine(id, items[i].productId, items[i].quantity),
                                                   s.products[items[i].productId]))
  {
    var out := Ordering.PlaceOrder(s, Some(customerId), Some(items), now);
    var id := out.reply.value;
    var h := OrderHeader(id, now, customerId);
    var a := out.after;
    OrderProperties.PlaceOrderRecordsOrder(s, customerId, items, now);
    OrderProperties.PlaceOrderDecrementsStock(s, Some(customerId), items, now);
    OrderProperties.PlaceOrderNeverOversells(s, Some(customerId), items, now);
    var newLines := Ordering.LinesOf(id, items);
    assert a.lines == s.lines + newLines;
    assert SameCatalog(s.products, a.products);
    assert SameCatalog(a.products, s.products);
    forall l | l in s.lines ensures l.orderId != id {
      var k :| 0 <= k < |s.lines| && s.lines[k] == l;
    }
    forall g | g in s.orders ensures g.id != id {
      var k :| 0 <= k < |s.orders| && s.orders[k] == g;
    }
    JoinAppendLines(s.orders + [h], a.products, user, s.lines, newLines);
    JoinOldLines(s.orders, h, s.products, a.products, user, s.lines);
    JoinSameCatalog(s.orders + [h], a.products, s.products, user, newLines);
    JoinNewLines(s.orders, h, s.products, user, items);
  }
}
