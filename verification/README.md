# Order placement in the web shop backend, modelled in Dafny

The backend (`verkkokauppa.js`, an Express/MySQL server) has one operation
with a cross-row invariant: the authenticated `POST /order` handler. It
verifies the bearer token. Then it opens a transaction and inserts a
`customer_order` header. Then it walks the requested `products` in order. For
each entry it reads the product's `units_stored`, refuses a missing product or
a stock below the requested quantity, inserts an `order_line` and decrements
the stock. Commit answers with the new order id; any exception rolls back.
Its companion `getUserOrders` joins `customer_order`, `order_line` and
`product` for one customer.

The model turns the database into an immutable value, `Shop.Store`. It holds
the product table (id to name, category, image and `units_stored`), the
order headers, the order lines and the AUTO_INCREMENT counter for order ids.
`Ordering.PlaceOrder` is a pure transition on it. The loop runs on a copy of
the store, and the copy is kept only on commit, so atomicity is a proved
postcondition rather than a property assumed of the database.

Modules:
- `Wrappers` (`wrappers.dfy`): `Option` and `Result`.
- `Shop` (`shop.dfy`): the store and its integrity predicates. `Valid` says
  order ids are unique and below the counter, and every line points at an
  existing order and product. `StockNonNegative` says no stock is negative.
- `Ordering` (`ordering.dfy`): the handler (`PlaceOrder`), its loop
  (`ProcessItems`) and the running-stock check (`Requested`, `RunningStock`,
  `Passes`).
- `OrderProperties` (`ordering_properties.dfy`): what a commit and a rollback
  do.
- `UserOrders` (`user_orders.dfy`): the join (`GetUserOrders`), a reference
  selection of the user's lines (`OwnedLines`, `RowsOf`), and how a placed
  order shows up in the join.

Inputs the code takes from outside are parameters. The token check becomes
`auth: Option<UserId>`, which is `None` when `jwt.verify` throws. The body
becomes `products: Option<seq<OrderItem>>`, which is `None` when
`req.body.products` is missing or not iterable. `NOW()` becomes
`now: Timestamp`.

The handler reports an unknown product and too little stock with the same
exception, so the model has one error, `OutOfStock(productId)`, for both. The handler's answer carries only that fixed message; the product id is the model's record of where the loop stopped.
The handler does not reject zero or negative quantities. The model accepts
them too: a negative quantity passes the check whenever the stock is at least
that quantity, and it raises the stock. Even so, the guard
`units_stored >= quantity` always leaves a touched product with a
non-negative stock. The header is inserted before the loop, so an order with
an empty `products` array commits: it gets a header and no lines.

## Model

| member | source | states |
|---|---|---|
| Ordering.PlaceOrder | verkkokauppa.js:180-217 | A failed call leaves the store exactly as it was. A missing or invalid token fails with `InvalidToken`. A body without a `products` list fails with `MalformedBody`. A committed call had a token and a list, and returns the counter's next order id. |
| Ordering.ProcessItems | verkkokauppa.js:196-206 | When the loop completes, every entry named an existing product. Product ids are unchanged. Each product's stock falls by exactly its requested total, and its other columns are unchanged. Headers and the counter are untouched. The lines are the old lines followed by one line per entry, in order. |
| OrderProperties.ProcessItemsSucceedsIff | verkkokauppa.js:196-201 | The loop completes exactly when every entry's product exists and its running stock covers the quantity. On failure, the model's error records the product of the first entry that fails that check, the entry where the handler throws. |
| OrderProperties.ProcessItemsLeavesTouchedNonNegative | verkkokauppa.js:199-205 | After a completed loop, every product an entry touched has non-negative stock, whatever the sign of the quantities. |
| OrderProperties.PlaceOrderSucceedsIff | verkkokauppa.js:196-213 | With a valid token and a list, the order commits exactly when every entry passes the check against the running stock. So a product listed twice is checked against what its earlier entries left. A refused order leaves the store unchanged, and the model's error records the product of its first failing entry. |
| OrderProperties.PlaceOrderUnknownProductFails | verkkokauppa.js:198-200 | Any entry naming a product that does not exist makes the whole call fail, and no header, line or stock change remains. |
| OrderProperties.PlaceOrderDecrementsStock | verkkokauppa.js:196-206 | After a commit, each product's stock is its old stock minus the sum of the quantities requested for it. Products the request does not name are unchanged. No product appears or disappears. |
| OrderProperties.PlaceOrderRecordsOrder | verkkokauppa.js:186-209 | A commit appends exactly one header with the returned id, the call's timestamp and the token's user, and advances the counter by one. It appends exactly one line per entry, in request order, each carrying that id, the entry's product and the entry's quantity. Old lines stay in place. |
| OrderProperties.PlaceOrderNeverOversells | verkkokauppa.js:196-205 | After a commit, every requested product existed. The total requested for each product is at most its stock before the call, and its stock afterwards is non-negative. |
| OrderProperties.PlaceOrderKeepsStockNonNegative | verkkokauppa.js:199-205 | If no product had negative stock before a call, none has afterwards, whatever the call's outcome or quantities. |
| OrderProperties.PlaceOrderPreservesValid | verkkokauppa.js:193-205 | Every call keeps the schema's integrity. A committed order's id belongs to no existing order. |
| OrderProperties.RepeatedOrderScenario | verkkokauppa.js:180-217 | Start with 5 units of product 42. Ordering 3 commits with id 1 and leaves 2. Ordering 3 again fails with `OutOfStock(42)` and changes nothing. |
| OrderProperties.DuplicateEntriesScenario | verkkokauppa.js:196-201 | Start with 5 units. One entry for 3 units commits. Two entries for 3 units each are refused with `OutOfStock(42)` and leave the store unchanged. |
| UserOrders.OwnedLinesCounts | verkkokauppa.js:249-252 | The reference selection keeps each line of the user's orders as often as it occurs, and drops every other line. |
| UserOrders.GetUserOrdersSound | verkkokauppa.js:244-265 | Whatever the store, every returned row comes from three things: an order header with `customer_id` equal to the user, a line of that order, and the line's existing product. |
| UserOrders.JoinMatchesOwnedLines | verkkokauppa.js:249-252 | When order ids are unique and every line's product exists, the join gives one row per line of the user's orders, in line order. |
| UserOrders.GetUserOrdersOnePerOwnedLine | verkkokauppa.js:244-265 | On a store that keeps its integrity, `getUserOrders` returns exactly one row per order line whose header has `customer_id` equal to the user. Each row carries the header's id and date, the line's product and quantity, and the product's name, image and category. |
| UserOrders.PlaceOrderShowsInUserOrders | verkkokauppa.js:193-205 | After a commit, the ordering user's listing is the old listing followed by one row per entry of the new order, in request order. Every other user's listing is unchanged. |

## Left out

- HTTP plumbing is not modelled: Express routing, CORS, static files, multer, the listening port and the status codes (`verkkokauppa.js:12-43`). `Placed.reply` stands for the 200 answer with the order id and the 500 answer.
- MySQL itself is abstracted into `Shop.Store`: connections, statement execution and the transaction engine. Store failures (a refused connection, a failing statement or a failing commit) are not modelled. In the code nothing persists after them either: a failed statement or commit is rolled back, and a refused connection never opened a transaction.
- The product id in `OutOfStock` is the model's record of the entry where the loop threw. The handler answers 500 with the same fixed message for every refused entry, whether the product is unknown or short of stock, and names no product.
- Integer width is not modelled: `units_stored` and quantities are unbounded integers. MySQL refuses an UPDATE that takes `units_stored` out of its column range (reachable, for example, through repeated negative quantities), and JavaScript compares `quantity` as a double.
- AUTO_INCREMENT gaps are not modelled. InnoDB does not return an id consumed by a rolled-back insert, but the model leaves the whole store, counter included, unchanged on failure.
- bcrypt and JWT are opaque cryptography. A verified token is modelled as `Some(userId)`. A verified token without a `userId` claim, whose insert would then fail, is not modelled.
- JavaScript type coercion is not modelled: ids and quantities are integers. JSON strings, fractions or `undefined` in the body are outside the model.
- Product `price` (a decimal only passed through) and `product_description` are not in the model. The `orderDate` formatting of the JSON answer is not modelled either.
- `getUserOrders` failures (the rethrown `Database query failed`) and the `/myorders` 403/500 mapping are not modelled. The join's row order is not fixed by SQL; the model lists rows line by line.
- Concurrent orders are not modelled. The race between two transactions depends on the database's isolation level, which a sequential model cannot express.
- The second `POST /order` handler (`verkkokauppa.js:357-382`) is unreachable behind the first one, and it has no stock logic.
- The bulk `POST /categories` and `POST /products` inserts, registration, login and the catalogue reads are single-statement operations with no cross-row invariant. They are not modelled.
