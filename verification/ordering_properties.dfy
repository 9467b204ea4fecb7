/**
  Properties of the order-placement transaction: when it commits, what a
  commit changes, and what a rollback leaves behind.
*/
module OrderProperties {
  import opened Wrappers
  import opened Shop
  import opened Ordering

  /** A product no entry names contributes nothing to the requested total. */
  lemma {:induction false} RequestedUnmentioned(items: seq<OrderItem>, p: ProductId)
    requires !Mentions(items, p)
    ensures Requested(items, p) == 0
    decreases |items|
  {
    if |items| > 0 {
      assert items[0].productId != p;
      assert !Mentions(items[1..], p) by {
        forall i | 0 <= i < |items[1..]| ensures items[1..][i].productId != p {
          assert items[1..][i] == items[i + 1];
        }
      }
      RequestedUnmentioned(items[1..], p);
    }
  }

  /**
    After the first entry is booked, entry `j + 1` of the request meets the
    same check as entry `j` of the rest of the request meets on the booked store.
  */
  lemma {:induction false} PassesShift(s: Store, orderId: OrderId, items: seq<OrderItem>, j: nat)
    requires |items| > 0 && items[0].productId in s.products
    requires j + 1 < |items|
    ensures Passes(s, items, j + 1) <==> Passes(Book(s, orderId, items[0]), items[1..], j)
  {
    var s' := Book(s, orderId, items[0]);
    var p := items[j + 1].productId;
    assert items[1..][j] == items[j + 1];
    assert items[..j + 1][1..] == items[1..][..j];
    if p in s.products {
      assert RunningStock(s, items, j + 1, p) == RunningStock(s', items[1..], j, p);
    }
  }

  /**
    The loop commits exactly when every entry passes the check against the
    running stock; otherwise the error names the first entry that does not.
  */
  lemma {:induction false} ProcessItemsSucceedsIff(s: Store, orderId: OrderId, items: seq<OrderItem>)
    ensures ProcessItems(s, orderId, items).Success? <==> AllPass(s, items)
    ensures ProcessItems(s, orderId, items).Failure? ==>
      exists k :: 0 <= k < |items| && !Passes(s, items, k)
        && (forall j :: 0 <= j < k ==> Passes(s, items, j))
        && ProcessItems(s, orderId, items).error == OutOfStock(items[k].productId)
    decreases |items|
  {
    if |items| > 0 {
      var x := items[0];
      assert items[..0] == [];
      if x.productId !in s.products || s.products[x.productId].unitsStored < x.quantity {
        assert !Passes(s, items, 0);
      } else {
        assert Passes(s, items, 0);
        var s' := Book(s, orderId, x);
        var rest := items[1..];
        ProcessItemsSucceedsIff(s', orderId, rest);
        forall j | 0 <= j < |rest| ensures Passes(s, items, j + 1) <==> Passes(s', rest, j) {
          PassesShift(s, orderId, items, j);
        }
        if ProcessItems(s', orderId, rest).Success? {
          forall i | 0 <= i < |items| ensures Passes(s, items, i) {
            if i > 0 {
              assert Passes(s', rest, i - 1);
            }
          }
        } else {
          var k :| 0 <= k < |rest| && !Passes(s', rest, k)
            && (forall j :: 0 <= j < k ==> Passes(s', rest, j))
            && ProcessItems(s', orderId, rest).error == OutOfStock(rest[k].productId);
          assert !Passes(s, items, k + 1);
          forall j | 0 <= j < k + 1 ensures Passes(s, items, j) {
            if j > 0 {
              assert Passes(s', rest, j - 1);
            }
          }
        }
      }
    }
  }

  /**
    Every product a committed loop touched ends with a non-negative stock:
    each decrement is guarded by `units_stored >= quantity`.
  */
  lemma {:induction false} ProcessItemsLeavesTouchedNonNegative(s: Store, orderId: OrderId, items: seq<OrderItem>)
    requires ProcessItems(s, orderId, items).Success?
    ensures forall i :: 0 <= i < |items| ==>
      ProcessItems(s, orderId, items).value.products[items[i].productId].unitsStored >= 0
    decreases |items|
  {
    if |items| > 0 {
      var x := items[0];
      var s' := Book(s, orderId, x);
      var rest := items[1..];
      var r := ProcessItems(s', orderId, rest).value;
      ProcessItemsLeavesTouchedNonNegative(s', orderId, rest);
      forall i | 0 <= i < |items| ensures r.products[items[i].productId].unitsStored >= 0 {
        if i > 0 {
          assert items[i] == rest[i - 1];
        } else if Mentions(rest, x.productId) {
          var j :| 0 <= j < |rest| && rest[j].productId == x.productId;
        } else {
          RequestedUnmentioned(rest, x.productId);
        }
      }
    }
  }

  lemma {:induction false} PlaceOrderRunsLoop(s: Store, customerId: UserId, items: seq<OrderItem>, now: Timestamp)
    ensures var out := PlaceOrder(s, Some(customerId), Some(items), now);
            var r := ProcessItems(InTransaction(s, customerId, now), s.nextOrderId, items);
            && (r.Success? ==> out == Placed(Success(s.nextOrderId), r.value))
            && (r.Failure? ==> out == Placed(Failure(r.error), s))
  {
  }

  lemma {:induction false} AllPassOnlyReadsProducts(s: Store, t: Store, items: seq<OrderItem>)
    requires s.products == t.products
    ensures AllPass(s, items) <==> AllPass(t, items)
    ensures forall i :: 0 <= i < |items| ==> (Passes(s, items, i) <==> Passes(t, items, i))
  {
    forall i | 0 <= i < |items| ensures Passes(s, items, i) <==> Passes(t, items, i) {
      if items[i].productId in s.products {
        assert RunningStock(s, items, i, items[i].productId) == RunningStock(t, items, i, items[i].productId);
      }
    }
  }

  /**
    An authenticated order with a well-formed body commits exactly when every
    entry passes the stock check against the running stock, so a product
    listed twice is checked against what the first entry left. A rejected
    order names the first failing entry and leaves the store as it was.
  */
  lemma {:induction false} PlaceOrderSucceedsIff(s: Store, customerId: UserId, items: seq<OrderItem>, now: Timestamp)
    ensures PlaceOrder(s, Some(customerId), Some(items), now).reply.Success? <==> AllPass(s, items)
    ensures PlaceOrder(s, Some(customerId), Some(items), now).reply.Failure? ==>
      && PlaceOrder(s, Some(customerId), Some(items), now).after == s
      && exists k :: 0 <= k < |items| && !Passes(s, items, k)
           && (forall j :: 0 <= j < k ==> Passes(s, items, j))
           && PlaceOrder(s, Some(customerId), Some(items), now).reply.error == OutOfStock(items[k].productId)
  {
    var t := InTransaction(s, customerId, now);
    PlaceOrderRunsLoop(s, customerId, items, now);
    ProcessItemsSucceedsIff(t, s.nextOrderId, items);
    AllPassOnlyReadsProducts(s, t, items);
  }

  /** A request naming a product that does not exist is rolled back entirely. */
  lemma {:induction false} PlaceOrderUnknownProductFails(s: Store, auth: Option<UserId>, items: seq<OrderItem>, now: Timestamp, i: nat)
    requires i < |items| && items[i].productId !in s.products
    ensures PlaceOrder(s, auth, Some(items), now).reply.Failure?
    ensures PlaceOrder(s, auth, Some(items), now).after == s
  {
  }

  /**
    A committed order lowers the stock of each product by exactly the sum
    of the quantities requested for it; products the request does not name,
    and every other product column, are unchanged.
  */
  lemma {:induction false} PlaceOrderDecrementsStock(s: Store, auth: Option<UserId>, items: seq<OrderItem>, now: Timestamp)
    requires PlaceOrder(s, auth, Some(items), now).reply.Success?
    ensures PlaceOrder(s, auth, Some(items), now).after.products.Keys == s.products.Keys
    ensures forall p :: p in s.products ==>
      PlaceOrder(s, auth, Some(items), now).after.products[p]
        == s.products[p].(unitsStored := s.products[p].unitsStored - Requested(items, p))
    ensures forall p :: p in s.products && !Mentions(items, p) ==>
      PlaceOrder(s, auth, Some(items), now).after.products[p] == s.products[p]
  {
    PlaceOrderRunsLoop(s, auth.value, items, now);
    forall p | p in s.products && !Mentions(items, p)
      ensures PlaceOrder(s, auth, Some(items), now).after.products[p] == s.products[p]
    {
      RequestedUnmentioned(items, p);
    }
  }

  /**
    A committed order adds exactly one header, owned by the token's user,
    under the returned id, and one order line per entry, in request order,
    each carrying that id.
  */
  lemma {:induction false} PlaceOrderRecordsOrder(s: Store, customerId: UserId, items: seq<OrderItem>, now: Timestamp)
    requires PlaceOrder(s, Some(customerId), Some(items), now).reply.Success?
    ensures var out := PlaceOrder(s, Some(customerId), Some(items), now);
            var id := out.reply.value;
            && out.after.orders == s.orders + [OrderHeader(id, now, customerId)]
            && out.after.nextOrderId == id + 1
            && |out.after.lines| == |s.lines| + |items|
            && out.after.lines[..|s.lines|] == s.lines
            && forall i :: 0 <= i < |items| ==>
                 out.after.lines[|s.lines| + i] == OrderLine(id, items[i].productId, items[i].quantity)
  {
  }

  /**
    A committed order never sells more units of a product than were in
    stock before it, however often the product is listed; and a product
    it touches is left with a non-negative stock.
  */
  lemma {:induction false} PlaceOrderNeverOversells(s: Store, auth: Option<UserId>, items: seq<OrderItem>, now: Timestamp)
    requires PlaceOrder(s, auth, Some(items), now).reply.Success?
    ensures forall i :: 0 <= i < |items| ==> items[i].productId in s.products
    ensures forall i :: 0 <= i < |items| ==>
      PlaceOrder(s, auth, Some(items), now).after.products[items[i].productId].unitsStored >= 0
    ensures forall i :: 0 <= i < |items| ==>
      Requested(items, items[i].productId) <= s.products[items[i].productId].unitsStored
  {
    var t := InTransaction(s, auth.value, now);
    PlaceOrderRunsLoop(s, auth.value, items, now);
    ProcessItemsSucceedsIff(t, s.nextOrderId, items);
    ProcessItemsLeavesTouchedNonNegative(t, s.nextOrderId, items);
  }

  /** `units_stored >= 0` for every product is kept by every call of the handler. */
  lemma {:induction false} PlaceOrderKeepsStockNonNegative(s: Store, auth: Option<UserId>, products: Option<seq<OrderItem>>, now: Timestamp)
    requires StockNonNegative(s)
    ensures StockNonNegative(PlaceOrder(s, auth, products, now).after)
  {
    var out := PlaceOrder(s, auth, products, now);
    if out.reply.Success? {
      var items := products.value;
      PlaceOrderDecrementsStock(s, auth, items, now);
      PlaceOrderNeverOversells(s, auth, items, now);
      forall p | p in out.after.products ensures out.after.products[p].unitsStored >= 0 {
        if Mentions(items, p) {
          var i :| 0 <= i < |items| && items[i].productId == p;
        }
      }
    }
  }

  /**
    The handler keeps the schema's integrity, and a committed order's id is
    one no existing order has.
  */
  lemma {:induction false} PlaceOrderPreservesValid(s: Store, auth: Option<UserId>, products: Option<seq<OrderItem>>, now: Timestamp)
    requires Valid(s)
    ensures Valid(PlaceOrder(s, auth, products, now).after)
    ensures PlaceOrder(s, auth, products, now).reply.Success? ==>
      PlaceOrder(s, auth, products, now).reply.value !in OrderIds(s.orders)
  {
  }

  /** A store with one product, id 42, holding five units. */
  function FiveInStock(): Store
  {
    Store(map[42 := Product("Mug", "kitchen", "mug.png", 5)], [], [], 1)
  }

  /**
    Ordering three of the five units commits and leaves two; ordering three
    more is then refused and changes nothing.
  */
  lemma {:induction false} RepeatedOrderScenario()
    ensures var first := PlaceOrder(FiveInStock(), Some(7), Some([OrderItem(42, 3)]), 100);
            && first.reply == Success(1)
            && first.after.products[42].unitsStored == 2
            && var second := PlaceOrder(first.after, Some(7), Some([OrderItem(42, 3)]), 101);
               && second.reply == Failure(OutOfStock(42))
               && second.after == first.after
  {
  }

  /**
    Two entries for the same product are checked against the running stock:
    each would fit the five units alone, together they do not.
  */
  lemma {:induction false} DuplicateEntriesScenario()
    ensures PlaceOrder(FiveInStock(), Some(7), Some([OrderItem(42, 3)]), 100).reply.Success?
    ensures var both := PlaceOrder(FiveInStock(), Some(7), Some([OrderItem(42, 3), OrderItem(42, 3)]), 100);
            both.reply == Failure(OutOfStock(42)) && both.after == FiveInStock()
  {
  }
}
